/** src/ai/prompt_router.c: how a prompt is routed, on the values the model
    table holds. Checks of eligibility change health records, candidates are
    ranked by an exchange sort, and attempts go down the list until one
    succeeds. A model is named by its place in the table. */
module Routing {
  import opened CMachine
  import opened ModelHealth

  const MAX_CANDIDATES := 64

  /** What routing reads of one model. */
  datatype Profile = Profile(
    name: string,
    tier: int,
    isAvailable: bool,
    calls: nat,
    latencyUs: nat,
    costUsd: real,
    health: Health)

  /** compute_model_score. */
  function Score(p: Profile): real {
    var latency := if p.calls > 0 then p.latencyUs as real / p.calls as real / 1000000.0 else 1.0;
    var error := if p.calls > 0 then 0.0 else 0.5;
    var cost := if p.calls > 0 then p.costUsd / p.calls as real * 10.0 else 5.0;
    var health := match p.health.state
      case Healthy => 0.0
      case Degraded => 2.0
      case RateLimited => 5.0
      case _ => 10.0;
    latency * 0.4 + error * 0.2 + health * 0.2 + cost * 0.2
  }

  // -------------------------------------------------------- one scan for models

  /** The clock as each model's check reads it during one scan. */
  type Readings = nat -> Time

  predicate Eligible(p: Profile, now: Time) {
    Checked(p.health, now).1
  }

  function Check(p: Profile, now: Time): Profile {
    p.(health := Checked(p.health, now).0)
  }

  /** The caller's limits; a bound of zero cents or less is none. */
  datatype Limits = Unlimited | Within(minTier: int, maxCostCents: int)

  predicate Meets(p: Profile, l: Limits) {
    match l
    case Unlimited => true
    case Within(minTier, maxCostCents) =>
      p.tier >= minTier && (maxCostCents <= 0 || p.costUsd * 100.0 <= maxCostCents as real)
  }

  /** The table as checks have left it, and the models chosen so far. */
  datatype Selection = Selection(models: seq<Profile>, list: seq<nat>)

  /** Which models a scan leaves out, which it takes, and whether it ends when
      the list is full. */
  datatype Filter = Filter(skip: Option<nat>, limits: Limits, stopFull: bool)

  const EVERY_ELIGIBLE := Filter(None, Unlimited, false)
  const FIRST_ELIGIBLE := Filter(None, Unlimited, true)

  function Visited(s: Selection, now: Time, f: Filter, i: nat): Selection
    requires i < |s.models|
  {
    var p := s.models[i];
    var models := s.models[i := Check(p, now)];
    Selection(models, if Eligible(p, now) && Meets(p, f.limits) then s.list + [i] else s.list)
  }

  function Scanned(s: Selection, at: Readings, f: Filter, i: nat): Selection
    requires i <= |s.models|
    decreases |s.models| - i
  {
    if i == |s.models| || (f.stopFull && |s.list| >= MAX_CANDIDATES) then s
    else if f.skip == Some(i) then Scanned(s, at, f, i + 1)
    else Scanned(Visited(s, at(i), f, i), at, f, i + 1)
  }

  predicate InTable(list: seq<nat>, n: nat) {
    forall i :: 0 <= i < |list| ==> list[i] < n
  }

  predicate Distinct(list: seq<nat>) {
    forall i, j :: 0 <= i < j < |list| ==> list[i] != list[j]
  }

  /** Whether the scan is to take model `k`. */
  predicate Taken(ms: seq<Profile>, at: Readings, f: Filter, k: nat)
    requires k < |ms|
  {
    f.skip != Some(k) && Eligible(ms[k], at(k)) && Meets(ms[k], f.limits)
  }

  /** The table after the scan has checked models `i` and up. */
  predicate CheckedFrom(ms: seq<Profile>, after: seq<Profile>, at: Readings, f: Filter, i: nat) {
    && |after| == |ms|
    && forall k :: 0 <= k < |ms| ==>
         after[k] == if k < i || f.skip == Some(k) then ms[k] else Check(ms[k], at(k))
  }

  /** The list a scan starts from: distinct models that it will not come to. */
  predicate Started(s: Selection, f: Filter, i: nat) {
    && Distinct(s.list) && InTable(s.list, |s.models|)
    && forall k :: k in s.list ==> k < i || f.skip == Some(k)
  }

  lemma VisitStarts(s: Selection, now: Time, f: Filter, i: nat)
    requires i < |s.models| && f.skip != Some(i) && Started(s, f, i)
    ensures Started(Visited(s, now, f, i), f, i + 1)
  {
    hide Eligible, Meets, Check;
  }

  lemma {:induction false} ScanDistinct(s: Selection, at: Readings, f: Filter, i: nat)
    requires i <= |s.models| && Started(s, f, i)
    ensures var r := Scanned(s, at, f, i);
            |r.models| == |s.models| && Distinct(r.list) && InTable(r.list, |r.models|)
    decreases |s.models| - i
  {
    hide Distinct, InTable, Visited;
    if i == |s.models| || (f.stopFull && |s.list| >= MAX_CANDIDATES) {
      assert Scanned(s, at, f, i) == s;
    } else if f.skip == Some(i) {
      ScanDistinct(s, at, f, i + 1);
    } else {
      VisitStarts(s, at(i), f, i);
      SameCount(s, at(i), f, i);
      ScanDistinct(Visited(s, at(i), f, i), at, f, i + 1);
    }
  }

  lemma SameCount(s: Selection, now: Time, f: Filter, i: nat)
    requires i < |s.models|
    ensures var v := Visited(s, now, f, i);
            && |v.models| == |s.models|
            && (forall k :: 0 <= k < |s.models| && k != i ==> v.models[k] == s.models[k])
            && v.models[i] == Check(s.models[i], now)
            && forall k :: k in v.list <==>
                 k in s.list || (k == i && Eligible(s.models[i], now) && Meets(s.models[i], f.limits))
  {
  }

  lemma {:induction false} ScanTakes(s: Selection, at: Readings, f: Filter, i: nat, k: nat)
    requires i <= |s.models| && k < |s.models|
    ensures var r := Scanned(s, at, f, i);
            && (k in r.list ==> k in s.list || (i <= k && Taken(s.models, at, f, k)))
            && (k in s.list ==> k in r.list)
            && (!f.stopFull || |r.list| < MAX_CANDIDATES ==>
                  i <= k && Taken(s.models, at, f, k) ==> k in r.list)
    decreases |s.models| - i
  {
    hide Eligible, Meets, Check, Visited;
    if i == |s.models| || (f.stopFull && |s.list| >= MAX_CANDIDATES) {
      assert Scanned(s, at, f, i) == s;
    } else if f.skip == Some(i) {
      ScanTakes(s, at, f, i + 1, k);
    } else {
      SameCount(s, at(i), f, i);
      ScanTakes(Visited(s, at(i), f, i), at, f, i + 1, k);
    }
  }

  lemma {:induction false} ScanChecks(s: Selection, at: Readings, f: Filter, i: nat)
    requires i <= |s.models|
    ensures var r := Scanned(s, at, f, i);
            !f.stopFull || |r.list| < MAX_CANDIDATES ==> CheckedFrom(s.models, r.models, at, f, i)
    decreases |s.models| - i
  {
    hide Eligible, Meets, Check, Visited;
    if i == |s.models| || (f.stopFull && |s.list| >= MAX_CANDIDATES) {
      assert Scanned(s, at, f, i) == s;
    } else if f.skip == Some(i) {
      ScanChecks(s, at, f, i + 1);
    } else {
      SameCount(s, at(i), f, i);
      ScanChecks(Visited(s, at(i), f, i), at, f, i + 1);
    }
  }

  /** A scan takes each model at most once, only models it is to take, and all
      of these unless it ended early; only then are models left unchecked. */
  lemma ScanExact(s: Selection, at: Readings, f: Filter, i: nat)
    requires i <= |s.models| && Started(s, f, i)
    ensures var r := Scanned(s, at, f, i);
            && |r.models| == |s.models| && Distinct(r.list) && InTable(r.list, |r.models|)
            && (forall k :: k in r.list ==> k in s.list || (i <= k < |s.models| && Taken(s.models, at, f, k)))
            && (forall k :: k in s.list ==> k in r.list)
    ensures var r := Scanned(s, at, f, i);
            !f.stopFull || |r.list| < MAX_CANDIDATES ==>
              && (forall k :: i <= k < |s.models| && Taken(s.models, at, f, k) ==> k in r.list)
              && CheckedFrom(s.models, r.models, at, f, i)
  {
    hide Taken, CheckedFrom, Distinct, Scanned;
    ScanDistinct(s, at, f, i);
    ScanChecks(s, at, f, i);
    forall k | 0 <= k < |s.models|
      ensures var r := Scanned(s, at, f, i);
              && (k in r.list ==> k in s.list || (i <= k && Taken(s.models, at, f, k)))
              && (k in s.list ==> k in r.list)
              && (!f.stopFull || |r.list| < MAX_CANDIDATES ==>
                    i <= k && Taken(s.models, at, f, k) ==> k in r.list)
    {
      ScanTakes(s, at, f, i, k);
    }
  }

  // ---------------------------------------------------------- the exchange sort

  function Exchanged(ms: seq<Profile>, s: seq<nat>, i: nat, j: nat): (r: seq<nat>)
    requires InTable(s, |ms|) && i < j < |s|
    ensures |r| == |s| && InTable(r, |ms|)
  {
    if Score(ms[s[i]]) > Score(ms[s[j]]) then s[i := s[j]][j := s[i]] else s
  }

  function Settled(ms: seq<Profile>, s: seq<nat>, i: nat, j: nat): (r: seq<nat>)
    requires InTable(s, |ms|) && i < j <= |s|
    ensures |r| == |s| && InTable(r, |ms|)
    decreases |s| - j
  {
    if j == |s| then s else Settled(ms, Exchanged(ms, s, i, j), i, j + 1)
  }

  function Ranked(ms: seq<Profile>, s: seq<nat>, i: nat): (r: seq<nat>)
    requires InTable(s, |ms|) && i <= |s|
    ensures |r| == |s| && InTable(r, |ms|)
    decreases |s| - i
  {
    if i == |s| then s else Ranked(ms, Settled(ms, s, i, i + 1), i + 1)
  }

  /** The model at `i` scores no higher than those behind it, up to `hi`. */
  predicate Leads(ms: seq<Profile>, s: seq<nat>, i: nat, hi: nat)
    requires InTable(s, |ms|) && i < |s| && hi <= |s|
  {
    forall y :: i < y < hi ==> Score(ms[s[i]]) <= Score(ms[s[y]])
  }

  predicate Ascending(ms: seq<Profile>, s: seq<nat>, n: nat)
    requires InTable(s, |ms|) && n <= |s|
  {
    forall i :: 0 <= i < n ==> Leads(ms, s, i, |s|)
  }

  /** One list rearranges another and leaves it alone below `i`. */
  predicate Rearranged(r: seq<nat>, s: seq<nat>, i: nat)
    requires i <= |s|
  {
    |r| == |s| && r[..i] == s[..i] && multiset(r) == multiset(s) && multiset(r[i..]) == multiset(s[i..])
  }

  lemma SwapRearranges(s: seq<nat>, i: nat, j: nat)
    requires i < j < |s|
    ensures Rearranged(s[i := s[j]][j := s[i]], s, i)
  {
    var r := s[i := s[j]][j := s[i]];
    var n := j - i;
    assert r[i..] == s[i..][0 := s[i..][n]][n := s[i..][0]];
    assert multiset(r[i..]) == multiset(s[i..]);
    assert s == s[..i] + s[i..] && r == s[..i] + r[i..];
  }

  lemma ExchangeLeads(ms: seq<Profile>, s: seq<nat>, i: nat, j: nat)
    requires InTable(s, |ms|) && i < j < |s| && Leads(ms, s, i, j)
    ensures Leads(ms, Exchanged(ms, s, i, j), i, j + 1)
  {
    hide Score;
  }

  lemma {:induction false} SettledLeads(ms: seq<Profile>, s: seq<nat>, i: nat, j: nat)
    requires InTable(s, |ms|) && i < j <= |s| && Leads(ms, s, i, j)
    ensures var r := Settled(ms, s, i, j);
            Leads(ms, r, i, |r|) && Rearranged(r, s, i)
    decreases |s| - j
  {
    hide Leads, Score;
    if j < |s| {
      ExchangeLeads(ms, s, i, j);
      SwapRearranges(s, i, j);
      SettledLeads(ms, Exchanged(ms, s, i, j), i, j + 1);
    }
  }

  /** Rearranging what lies behind it does not take a model's lead. */
  lemma LeadStays(ms: seq<Profile>, s: seq<nat>, r: seq<nat>, k: nat, i: nat)
    requires InTable(s, |ms|) && InTable(r, |ms|) && |s| == |r| && k < i <= |s|
    requires Rearranged(r, s, i)
    requires Leads(ms, s, k, |s|)
    ensures Leads(ms, r, k, |r|)
  {
    hide Score;
    forall y | k + 1 <= y < |r|
      ensures Score(ms[r[k]]) <= Score(ms[r[y]])
    {
      assert r[k] == r[..i][k] == s[k];
      if y < i {
        assert r[y] == r[..i][y] == s[y];
      } else {
        assert r[y] == r[i..][y - i] && r[y] in multiset(r[i..]);
        var x :| 0 <= x < |s[i..]| && s[i..][x] == r[y];
        assert s[i + x] == r[y];
      }
    }
  }

  lemma {:induction false} RankedAscends(ms: seq<Profile>, s: seq<nat>, i: nat)
    requires InTable(s, |ms|) && i <= |s| && Ascending(ms, s, i)
    ensures var r := Ranked(ms, s, i);
            multiset(r) == multiset(s) && Ascending(ms, r, |r|)
    decreases |s| - i
  {
    hide Leads, Settled;
    if i < |s| {
      var r := Settled(ms, s, i, i + 1);
      NothingBetween(ms, s, i);
      SettledLeads(ms, s, i, i + 1);
      forall k | 0 <= k < i
        ensures Leads(ms, r, k, |r|)
      {
        LeadStays(ms, s, r, k, i);
      }
      RankedAscends(ms, r, i + 1);
    }
  }

  lemma NothingBetween(ms: seq<Profile>, s: seq<nat>, i: nat)
    requires InTable(s, |ms|) && i < |s|
    ensures Leads(ms, s, i, i + 1)
  {
  }

  /** The sort leaves the same models, in ascending score. */
  lemma SortRanks(ms: seq<Profile>, s: seq<nat>)
    requires InTable(s, |ms|)
    ensures var r := Ranked(ms, s, 0);
            && multiset(r) == multiset(s)
            && forall i, j :: 0 <= i < j < |r| ==> Score(ms[r[i]]) <= Score(ms[r[j]])
  {
    hide Score, Ranked;
    RankedAscends(ms, s, 0);
    var r := Ranked(ms, s, 0);
    forall i, j | 0 <= i < j < |r|
      ensures Score(ms[r[i]]) <= Score(ms[r[j]])
    {
      assert Leads(ms, r, i, |r|);
    }
  }

  // ------------------------------------------------------------- the selections

  /** The first model of that name. */
  function FirstNamed(ms: seq<Profile>, name: string, i: nat): (k: Option<nat>)
    requires i <= |ms|
    ensures k.Some? ==>
              && i <= k.value < |ms| && ms[k.value].name == name
              && forall j :: i <= j < k.value ==> ms[j].name != name
    ensures k.None? ==> forall j :: i <= j < |ms| ==> ms[j].name != name
    decreases |ms| - i
  {
    if i == |ms| then None else if ms[i].name == name then Some(i) else FirstNamed(ms, name, i + 1)
  }

  /** The ranked models of a real tier. */
  function Tiered(ms: seq<Profile>, list: seq<nat>): (r: seq<nat>)
    requires InTable(list, |ms|)
    ensures |r| <= |list| && InTable(r, |ms|)
  {
    if list == [] then []
    else
      var last := list[|list| - 1];
      var front := Tiered(ms, list[..|list| - 1]);
      if ms[last].tier >= 1 then front + [last] else front
  }

  /** The first models whose key is set, as many as fit. */
  function FirstAvailable(ms: seq<Profile>, list: seq<nat>, i: nat): (r: seq<nat>)
    requires i <= |ms| && InTable(list, |ms|)
    ensures InTable(r, |ms|)
    decreases |ms| - i
  {
    if i == |ms| || |list| >= MAX_CANDIDATES then list
    else FirstAvailable(ms, if ms[i].isAvailable then list + [i] else list, i + 1)
  }

  /** A requested model comes first, whatever its state; the eligible others
      follow when the second check turns it down. */
  function RequestedSelection(ms: seq<Profile>, name: string, clock: nat -> Readings): Selection {
    var k := FirstNamed(ms, name, 0);
    if k.None? then Selection(ms, [])
    else
      var p := Check(ms[k.value], clock(0)(k.value));
      var second := clock(1)(k.value);
      var s := Selection(ms[k.value := Check(p, second)], [k.value]);
      if Eligible(p, second) then s else Scanned(s, clock(2), Filter(k, Unlimited, true), 0)
  }

  /** All eligible models, ranked. */
  function RankedSelection(ms: seq<Profile>, at: Readings, f: Filter): Selection
    requires f.skip.None?
  {
    ScanExact(Selection(ms, []), at, f, 0);
    var s := Scanned(Selection(ms, []), at, f, 0);
    Selection(s.models, Ranked(s.models, s.list, 0))
  }

  function DefaultSelection(ms: seq<Profile>, default: string): (list: seq<nat>)
    ensures InTable(list, |ms|)
  {
    match FirstNamed(ms, default, 0)
    case Some(k) => [k]
    case None => []
  }

  function FirstModel(ms: seq<Profile>): (list: seq<nat>)
    ensures InTable(list, |ms|)
  {
    if |ms| > 0 then [0] else []
  }

  /** When no ranked model is left. */
  function LastResort(ms: seq<Profile>, default: string): (list: seq<nat>)
    ensures InTable(list, |ms|)
  {
    var named := DefaultSelection(ms, default);
    var available := FirstAvailable(ms, [], 0);
    if named != [] then named else if available != [] then available else FirstModel(ms)
  }

  function SmartSelection(ms: seq<Profile>, default: string, clock: nat -> Readings): Selection {
    ScanExact(Selection(ms, []), clock(0), EVERY_ELIGIBLE, 0);
    var ranked := RankedSelection(ms, clock(0), EVERY_ELIGIBLE);
    var best := Tiered(ranked.models, ranked.list);
    if best != [] then Selection(ranked.models, best)
    else
      var again := Scanned(Selection(ranked.models, []), clock(1), FIRST_ELIGIBLE, 0);
      if again.list != [] then again else Selection(again.models, LastResort(again.models, default))
  }

  function PlainSelection(ms: seq<Profile>, default: string): Selection {
    var named := DefaultSelection(ms, default);
    Selection(ms, if named != [] then named else FirstModel(ms))
  }

  /** The candidates of prompt_router_route. */
  function RouteSelection(ms: seq<Profile>, default: string, smart: bool, name: string, clock: nat -> Readings): Selection {
    if name != "" then RequestedSelection(ms, name, clock)
    else if smart then SmartSelection(ms, default, clock)
    else PlainSelection(ms, default)
  }

  /** The requested model, if it is eligible within the limits. */
  function NamedWithin(ms: seq<Profile>, name: string, at: Readings, l: Limits): Selection {
    var k := if name == "" then None else FirstNamed(ms, name, 0);
    if k.None? then Selection(ms, [])
    else Visited(Selection(ms, []), at(k.value), Filter(None, l, false), k.value)
  }

  /** The candidates of prompt_router_route_with_options. */
  function OptionsSelection(ms: seq<Profile>, name: string, clock: nat -> Readings, l: Limits): Selection {
    var s := NamedWithin(ms, name, clock(0), l);
    if s.list != [] then s else RankedSelection(s.models, clock(1), Filter(None, l, false))
  }

  /** The ranking arrays hold 64 models, and nothing keeps a scan from writing a
      65th behind them. */
  predicate Roomy(ms: seq<Profile>, at: Readings, l: Limits) {
    |Scanned(Selection(ms, []), at, Filter(None, l, false), 0).list| <= MAX_CANDIDATES
  }

  predicate OptionsOverrun(ms: seq<Profile>, name: string, clock: nat -> Readings, l: Limits) {
    var s := NamedWithin(ms, name, clock(0), l);
    s.list == [] && !Roomy(s.models, clock(1), l)
  }

  // ------------------------------------------------------------------- failover

  /** What one attempt meets: the gate's clock readings, the outcome of the
      transfer and when it was recorded. */
  datatype Attempt = Attempt(first: Time, second: Time, finish: Time, outcome: Outcome, latencyUs: nat, costUsd: real,
                             inTokens: nat, outTokens: nat)

  predicate Succeeds(p: Profile, a: Attempt) {
    Refusal(p.health, a.first, a.second).None? && !a.outcome.Transport?
  }

  function Attempted(p: Profile, a: Attempt): Profile {
    if Refusal(p.health, a.first, a.second).Some? then p
    else
      p.(calls := p.calls + 1,
         latencyUs := p.latencyUs + a.latencyUs,
         costUsd := p.costUsd + (if a.outcome.Delivered? then a.costUsd else 0.0),
         health := Updated(p.health, a.outcome.Delivered?, a.outcome.Error(), a.finish))
  }

  /** What an attempt at each model would meet. */
  type World = nat -> Attempt

  datatype Routed = Routed(models: seq<Profile>, served: Option<nat>)

  function Failover(ms: seq<Profile>, list: seq<nat>, world: World, i: nat): Routed
    requires InTable(list, |ms|) && i <= |list|
    decreases |list| - i
  {
    if i == |list| then Routed(ms, None)
    else
      var k := list[i];
      var after := ms[k := Attempted(ms[k], world(k))];
      if Succeeds(ms[k], world(k)) then Routed(after, Some(k)) else Failover(after, list, world, i + 1)
  }
}
