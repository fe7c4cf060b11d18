/** Which model a request gets, in terms of what the models cost: mean latency,
    money per call and a mark for degraded health; and in which order the others
    come when nothing can be ranked. */
module RoutingChoices {
  import opened CMachine
  import opened ModelHealth
  import opened Routing
  import opened RoutingLaws

  // -------------------------------------------------------- what is minimised

  /** The mean latency of a tried model, in seconds. */
  function MeanSeconds(p: Profile): real
    requires p.calls > 0
  {
    p.latencyUs as real / (p.calls as real * 1000000.0)
  }

  function UsdPerCall(p: Profile): real
    requires p.calls > 0
  {
    p.costUsd / p.calls as real
  }

  /** In seconds: one US dollar per call weighs as five, and a degraded model as
      one second more; an untried model counts as a free one of 3.75 seconds. */
  function Burden(p: Profile): real {
    (if p.calls > 0 then MeanSeconds(p) + 5.0 * UsdPerCall(p) else 3.75)
    + match p.health.state
      case Healthy => 0.0
      case Degraded => 1.0
      case RateLimited => 2.5
      case _ => 5.0
  }

  lemma ScoreIsBurden(p: Profile)
    ensures Score(p) == 0.4 * Burden(p)
  {
    if p.calls > 0 {
      var us, n, usd := p.latencyUs as real, p.calls as real, p.costUsd;
      QuotientTwice(us, n, 1000000.0);
    }
  }

  lemma QuotientTwice(x: real, y: real, z: real)
    requires y > 0.0 && z > 0.0
    ensures x / y / z == x / (y * z)
  {
    var q := x / y / z;
    assert x / y == q * z;
    assert x == q * z * y == q * (y * z);
  }

  /** So ranked lists ascend in burden. */
  lemma OrderedByBurden(ms: seq<Profile>, list: seq<nat>)
    requires InTable(list, |ms|)
    ensures Ordered(ms, list) <==> forall i, j :: 0 <= i < j < |list| ==> Burden(ms[list[i]]) <= Burden(ms[list[j]])
  {
    hide Score, Burden;
    forall k | 0 <= k < |ms|
      ensures Score(ms[k]) == 0.4 * Burden(ms[k])
    {
      ScoreIsBurden(ms[k]);
    }
  }

  /** A prompt without a requested model is answered by one of least burden among
      those that would have answered. A check changes nothing about that. */
  lemma SmartServesLeastBurden(ms: seq<Profile>, default: string, clock: nat -> Readings, world: World)
    requires exists k :: 0 <= k < |ms| && Taken(ms, clock(0), EVERY_ELIGIBLE, k) && ms[k].tier >= 1
    ensures var r := Route(ms, default, true, "", clock, world);
      r.served.Some? ==>
        var k := r.served.value;
        && k < |ms| && CouldServe(ms, clock(0), world, k)
        && forall j :: 0 <= j < |ms| && CouldServe(ms, clock(0), world, j) ==>
             Burden(Check(ms[k], clock(0)(k))) <= Burden(Check(ms[j], clock(0)(j)))
  {
    hide Score, Burden, Failover, SmartSelection, Succeeds, Taken, Check, Distinct;
    SmartServesBest(ms, default, clock, world);
    SmartRanking(ms, default, clock);
    var checked := SmartSelection(ms, default, clock).models;
    forall j | 0 <= j < |ms|
      ensures checked[j] == Check(ms[j], clock(0)(j)) && Score(checked[j]) == 0.4 * Burden(checked[j])
    {
      ScoreIsBurden(checked[j]);
    }
  }

  /** The mark of a model that a check lets through: lifted ones count as healthy. */
  lemma CheckedBurden(p: Profile, now: Time)
    requires Eligible(p, now)
    ensures var q := Check(p, now);
      && (q.health.state.Degraded? <==> p.health.state.Degraded?)
      && (q.health.state.Degraded? || q.health.state.Healthy?)
      && q.calls == p.calls && q.latencyUs == p.latencyUs && q.costUsd == p.costUsd
  {
  }

  /** Against each model that would also have answered, the one that does is
      the faster of two alike in mark and cost per call, the cheaper of two alike
      in mark and latency, the healthy one of two alike otherwise; and the rates
      between the three are fixed. */
  lemma SmartPrefers(ms: seq<Profile>, default: string, clock: nat -> Readings, world: World, k: nat, j: nat)
    requires exists i :: 0 <= i < |ms| && Taken(ms, clock(0), EVERY_ELIGIBLE, i) && ms[i].tier >= 1
    requires Route(ms, default, true, "", clock, world).served == Some(k)
    requires j < |ms| && CouldServe(ms, clock(0), world, j)
    ensures k < |ms|
    ensures var p, q := ms[k], ms[j];
      var extra := (if q.health.state.Degraded? then 1.0 else 0.0) - (if p.health.state.Degraded? then 1.0 else 0.0);
      && (p.calls > 0 && q.calls > 0 ==>
            && MeanSeconds(p) - MeanSeconds(q) <= 5.0 * (UsdPerCall(q) - UsdPerCall(p)) + extra
            && (extra == 0.0 && UsdPerCall(p) == UsdPerCall(q) ==> MeanSeconds(p) <= MeanSeconds(q))
            && (extra == 0.0 && MeanSeconds(p) == MeanSeconds(q) ==> UsdPerCall(p) <= UsdPerCall(q))
            && (UsdPerCall(p) == UsdPerCall(q) && MeanSeconds(p) == MeanSeconds(q) ==> extra >= 0.0))
      && (p.calls > 0 && q.calls == 0 ==> MeanSeconds(p) + 5.0 * UsdPerCall(p) <= 3.75 + extra)
      && (p.calls == 0 && q.calls > 0 ==> 3.75 <= MeanSeconds(q) + 5.0 * UsdPerCall(q) + extra)
      && (p.calls == 0 && q.calls == 0 ==> extra >= 0.0)
  {
    hide Route, Succeeds, MeanSeconds, UsdPerCall, Check, Eligible;
    SmartServesLeastBurden(ms, default, clock, world);
    CheckedBurden(ms[k], clock(0)(k));
    CheckedBurden(ms[j], clock(0)(j));
    SameMeans(ms[k], Check(ms[k], clock(0)(k)));
    SameMeans(ms[j], Check(ms[j], clock(0)(j)));
  }

  lemma SameMeans(p: Profile, q: Profile)
    requires q.calls == p.calls && q.latencyUs == p.latencyUs && q.costUsd == p.costUsd
    ensures p.calls > 0 ==> MeanSeconds(p) == MeanSeconds(q) && UsdPerCall(p) == UsdPerCall(q)
  {
  }

  // ------------------------------------------------------------ equal scores

  /** A list already in order stays as it is: models alike keep their places. */
  lemma {:induction false} OrderedStays(ms: seq<Profile>, s: seq<nat>, i: nat)
    requires InTable(s, |ms|) && i <= |s| && Ordered(ms, s)
    ensures Ranked(ms, s, i) == s
    decreases |s| - i
  {
    hide Score, Settled, Ordered;
    if i < |s| {
      SettledStays(ms, s, i, i + 1);
      OrderedStays(ms, s, i + 1);
    }
  }

  lemma {:induction false} SettledStays(ms: seq<Profile>, s: seq<nat>, i: nat, j: nat)
    requires InTable(s, |ms|) && i < j <= |s| && Ordered(ms, s)
    ensures Settled(ms, s, i, j) == s
    decreases |s| - j
  {
    hide Score;
    if j < |s| {
      SettledStays(ms, s, i, j + 1);
    }
  }

  // ------------------------------------------------------------- table order

  predicate Increasing(list: seq<nat>) {
    forall i, j :: 0 <= i < j < |list| ==> list[i] < list[j]
  }

  /** The first elements of a set, in order and as many as a list of 64 takes. */
  ghost predicate FirstOf(list: seq<nat>, room: int, lo: nat, n: nat, member: nat -> bool) {
    && Increasing(list)
    && (forall k :: k in list ==> lo <= k < n && member(k))
    && (forall k: nat :: lo <= k < n && member(k) && k !in list ==>
          |list| >= room && forall j :: j in list ==> j < k)
  }

  lemma FirstOfMore(list: seq<nat>, room: int, lo: nat, n: nat, member: nat -> bool)
    requires lo < n && FirstOf(list, if member(lo) then room - 1 else room, lo + 1, n, member)
    ensures FirstOf(if member(lo) then [lo] + list else list, room, lo, n, member)
  {
    if member(lo) {
      AboveHead(lo, list);
    }
  }

  lemma AboveHead(lo: nat, list: seq<nat>)
    requires Increasing(list) && forall k :: k in list ==> lo < k
    ensures Increasing([lo] + list) && forall k: nat :: k in [lo] + list <==> k == lo || k in list
  {
    var all := [lo] + list;
    forall i, j | 0 <= i < j < |all|
      ensures all[i] < all[j]
    {
      assert all[j] == list[j - 1] && all[j] in list;
    }
  }

  lemma FirstOfNothing(room: int, lo: nat, n: nat, member: nat -> bool)
    requires lo >= n || room <= 0
    ensures FirstOf([], room, lo, n, member)
  {
  }

  ghost function Takes(ms: seq<Profile>, at: Readings, f: Filter): nat -> bool {
    (k: nat) => k < |ms| && Taken(ms, at, f, k)
  }

  /** The models whose key is set. */
  ghost function HasKey(ms: seq<Profile>): nat -> bool {
    (k: nat) => k < |ms| && ms[k].isAvailable
  }

  /** A scan that ends when the list is full takes the first models it may, in
      the order of the table. */
  lemma {:induction false} ScanInOrder(s: Selection, at: Readings, f: Filter, i: nat) returns (tail: seq<nat>)
    requires i <= |s.models| && f.stopFull
    ensures Scanned(s, at, f, i).list == s.list + tail
    ensures FirstOf(tail, MAX_CANDIDATES - |s.list|, i, |s.models|, Takes(s.models, at, f))
    decreases |s.models| - i
  {
    hide Visited, FirstOf, Taken;
    var takes := Takes(s.models, at, f);
    if i == |s.models| || |s.list| >= MAX_CANDIDATES {
      tail := [];
      FirstOfNothing(MAX_CANDIDATES - |s.list|, i, |s.models|, takes);
    } else if f.skip == Some(i) {
      tail := ScanInOrder(s, at, f, i + 1);
      SkippedNotTaken(s, at, f, i);
      FirstOfMore(tail, MAX_CANDIDATES - |s.list|, i, |s.models|, takes);
    } else {
      var v := Visited(s, at(i), f, i);
      VisitTakes(s, at, f, i);
      tail := ScanInOrder(v, at, f, i + 1);
      SameFirst(tail, MAX_CANDIDATES - |v.list|, i + 1, |s.models|,
                Takes(v.models, at, f), takes);
      FirstOfMore(tail, MAX_CANDIDATES - |s.list|, i, |s.models|, takes);
      tail := if takes(i) then [i] + tail else tail;
      assert Scanned(s, at, f, i).list == s.list + tail;
    }
  }

  lemma SkippedNotTaken(s: Selection, at: Readings, f: Filter, i: nat)
    requires i < |s.models| && f.skip == Some(i)
    ensures !Taken(s.models, at, f, i)
  {
  }

  lemma VisitTakes(s: Selection, at: Readings, f: Filter, i: nat)
    requires i < |s.models| && f.skip != Some(i)
    ensures var v := Visited(s, at(i), f, i);
      && |v.models| == |s.models|
      && v.list == (if Taken(s.models, at, f, i) then s.list + [i] else s.list)
      && forall k :: i < k < |s.models| ==> Taken(v.models, at, f, k) == Taken(s.models, at, f, k)
  {
    hide Eligible, Meets, Check;
  }

  lemma SameFirst(list: seq<nat>, room: int, lo: nat, n: nat, a: nat -> bool, b: nat -> bool)
    requires FirstOf(list, room, lo, n, a) && forall k: nat :: lo <= k < n ==> a(k) == b(k)
    ensures FirstOf(list, room, lo, n, b)
  {
  }

  lemma {:induction false} AvailableInOrder(ms: seq<Profile>, list: seq<nat>, i: nat) returns (tail: seq<nat>)
    requires i <= |ms| && InTable(list, |ms|)
    ensures FirstAvailable(ms, list, i) == list + tail
    ensures FirstOf(tail, MAX_CANDIDATES - |list|, i, |ms|, HasKey(ms))
    decreases |ms| - i
  {
    hide FirstOf;
    var available := HasKey(ms);
    if i == |ms| || |list| >= MAX_CANDIDATES {
      tail := [];
      FirstOfNothing(MAX_CANDIDATES - |list|, i, |ms|, available);
    } else {
      tail := AvailableInOrder(ms, if available(i) then list + [i] else list, i + 1);
      FirstOfMore(tail, MAX_CANDIDATES - |list|, i, |ms|, available);
      tail := if available(i) then [i] + tail else tail;
      assert FirstAvailable(ms, list, i) == list + tail;
    }
  }

  // ------------------------------------------------- without anything to rank

  /** The first model of that name. */
  ghost predicate Named(ms: seq<Profile>, name: string, k: nat) {
    && k < |ms| && ms[k].name == name
    && forall j :: 0 <= j < k ==> ms[j].name != name
  }

  ghost predicate NoneNamed(ms: seq<Profile>, name: string) {
    forall j :: 0 <= j < |ms| ==> ms[j].name != name
  }

  /** Without smart routing a prompt goes to the default model, without one to the
      first of the table, and nowhere else; no record is checked for it. */
  lemma PlainSelectionIs(ms: seq<Profile>, default: string, clock: nat -> Readings)
    ensures var s := RouteSelection(ms, default, false, "", clock);
      && s.models == ms
      && (|ms| == 0 <==> s.list == [])
      && forall k: nat :: s.list == [k] <==> Named(ms, default, k) || (NoneNamed(ms, default) && k == 0 && |ms| > 0)
  {
    var named := FirstNamed(ms, default, 0);
    forall k: nat
      ensures Named(ms, default, k) <==> named == Some(k)
    {
      if Named(ms, default, k) {
        assert ms[k].name == default;
      }
    }
  }

  /** The models another scan finds. */
  ghost function Again(ms: seq<Profile>, clock: nat -> Readings): nat -> bool {
    (k: nat) => k < |ms| && Eligible(Check(ms[k], clock(0)(k)), clock(1)(k))
  }

  /** The eligible models other than `k`. */
  ghost function Others(ms: seq<Profile>, k: nat, at: Readings): nat -> bool {
    (j: nat) => j < |ms| && j != k && Eligible(ms[j], at(j))
  }

  /** With no eligible model of a real tier, a smart request tries what is eligible
      by then in the order of the table; failing that the default model whatever
      its state; failing that those with a key; failing that the first. */
  lemma SmartFallback(ms: seq<Profile>, default: string, clock: nat -> Readings)
    requires forall k :: 0 <= k < |ms| && Taken(ms, clock(0), EVERY_ELIGIBLE, k) ==> ms[k].tier < 1
    ensures var list := SmartSelection(ms, default, clock).list;
      if exists k: nat :: Again(ms, clock)(k) then
        list != [] && FirstOf(list, 64, 0, |ms|, Again(ms, clock))
      else if !NoneNamed(ms, default) then
        exists k: nat :: Named(ms, default, k) && list == [k]
      else if exists k :: 0 <= k < |ms| && ms[k].isAvailable then
        list != [] && FirstOf(list, 64, 0, |ms|, HasKey(ms))
      else
        list == if |ms| > 0 then [0] else []
  {
    hide Scanned, Ranked, Taken, FirstOf, Eligible, Check, FirstAvailable;
    var ranked := RankedSelection(ms, clock(0), EVERY_ELIGIBLE);
    NothingTiered(ms, clock(0));
    var once := ranked.models;
    var tail := ScanInOrder(Selection(once, []), clock(1), FIRST_ELIGIBLE, 0);
    var again := Scanned(Selection(once, []), clock(1), FIRST_ELIGIBLE, 0);
    assert again.list == tail;
    forall k: nat | k < |ms|
      ensures Taken(once, clock(1), FIRST_ELIGIBLE, k) == Again(ms, clock)(k)
    {
      TakenAgain(ms, once, clock, k);
    }
    SameFirst(tail, 64, 0, |ms|, Takes(once, clock(1), FIRST_ELIGIBLE),
              Again(ms, clock));
    EmptyFirst(tail, 64, |ms|, Again(ms, clock));
    if tail == [] {
      NamesKeptFrom(Selection(once, []), clock(1), FIRST_ELIGIBLE, 0);
      assert SameModels(ms, once) by { CheckKeepsNames(ms, once, clock(0)); }
      LastResortIs(ms, again.models, default);
    }
  }

  lemma TakenAgain(ms: seq<Profile>, once: seq<Profile>, clock: nat -> Readings, k: nat)
    requires |once| == |ms| && k < |ms| && once[k] == Check(ms[k], clock(0)(k))
    ensures Taken(once, clock(1), FIRST_ELIGIBLE, k) == Again(ms, clock)(k)
  {
    hide Eligible, Check;
  }

  lemma EmptyFirst(list: seq<nat>, room: nat, n: nat, member: nat -> bool)
    requires FirstOf(list, room, 0, n, member) && room > 0
    ensures list == [] <==> forall k: nat :: k < n ==> !member(k)
  {
    if list != [] {
      assert list[0] in list;
    }
  }

  lemma NothingTiered(ms: seq<Profile>, at: Readings)
    requires forall k :: 0 <= k < |ms| && Taken(ms, at, EVERY_ELIGIBLE, k) ==> ms[k].tier < 1
    ensures var s := RankedSelection(ms, at, EVERY_ELIGIBLE);
      && InTable(s.list, |s.models|) && Tiered(s.models, s.list) == []
      && |s.models| == |ms| && forall k :: 0 <= k < |ms| ==> s.models[k] == Check(ms[k], at(k))
  {
    hide Ranked, Scanned, Taken, Score, Distinct, Ordered;
    RankingExact(ms, at, Unlimited);
    var s := RankedSelection(ms, at, EVERY_ELIGIBLE);
    TieredExact(s.models, s.list);
    var best := Tiered(s.models, s.list);
    HeadIsMember(best);
    forall k: nat
      ensures k !in best
    {
      if k in best {
        LowTier(ms, s.models, at, k);
      }
    }
  }

  lemma HeadIsMember(list: seq<nat>)
    ensures list != [] ==> list[0] in list
  {
  }

  lemma LowTier(ms: seq<Profile>, after: seq<Profile>, at: Readings, k: nat)
    requires CheckedFrom(ms, after, at, EVERY_ELIGIBLE, 0) && k < |ms| && Taken(ms, at, EVERY_ELIGIBLE, k)
    ensures after[k].tier == ms[k].tier
  {
  }

  /** A scan changes health records only. */
  lemma {:induction false} NamesKeptFrom(s: Selection, at: Readings, f: Filter, i: nat)
    requires i <= |s.models|
    ensures SameModels(s.models, Scanned(s, at, f, i).models)
    decreases |s.models| - i
  {
    hide Eligible, Meets, Checked;
    if i < |s.models| && !(f.stopFull && |s.list| >= MAX_CANDIDATES) {
      if f.skip == Some(i) {
        NamesKeptFrom(s, at, f, i + 1);
      } else {
        NamesKeptFrom(Visited(s, at(i), f, i), at, f, i + 1);
      }
    }
  }

  lemma CheckKeepsNames(ms: seq<Profile>, once: seq<Profile>, at: Readings)
    requires |once| == |ms| && forall k :: 0 <= k < |ms| ==> once[k] == Check(ms[k], at(k))
    ensures SameModels(ms, once)
  {
    hide Checked;
  }

  ghost predicate SameModels(a: seq<Profile>, b: seq<Profile>) {
    |a| == |b| && forall k :: 0 <= k < |a| ==> a[k].name == b[k].name && a[k].isAvailable == b[k].isAvailable
  }

  lemma LastResortIs(ms: seq<Profile>, after: seq<Profile>, default: string)
    requires SameModels(ms, after)
    ensures var list := LastResort(after, default);
      if !NoneNamed(ms, default) then exists k: nat :: Named(ms, default, k) && list == [k]
      else if exists k :: 0 <= k < |ms| && ms[k].isAvailable then
        list != [] && FirstOf(list, 64, 0, |ms|, HasKey(ms))
      else list == if |ms| > 0 then [0] else []
  {
    hide FirstOf;
    var named := FirstNamed(after, default, 0);
    if named.Some? {
      assert Named(ms, default, named.value);
    }
    var tail := AvailableInOrder(after, [], 0);
    var available := HasKey(ms);
    SameFirst(tail, 64, 0, |ms|, HasKey(after), available);
    EmptyFirst(tail, 64, |ms|, available);
    assert [] + tail == tail;
    assert (exists k :: 0 <= k < |ms| && ms[k].isAvailable) <==> tail != [] by {
      if k :| 0 <= k < |ms| && ms[k].isAvailable {
        assert available(k);
      }
    }
  }

  /** The models that follow a requested one come in the order of the table. */
  lemma RequestedFollowers(ms: seq<Profile>, name: string, clock: nat -> Readings, k: nat) returns (rest: seq<nat>)
    requires FirstNamed(ms, name, 0) == Some(k) && k < |ms|
    ensures var list := RequestedSelection(ms, name, clock).list;
      if Eligible(Check(ms[k], clock(0)(k)), clock(1)(k)) then list == [k]
      else
        && list == [k] + rest
        && FirstOf(rest, 63, 0, |ms|, Others(ms, k, clock(2)))
  {
    hide Scanned, Eligible, Check, FirstOf;
    var p := Check(ms[k], clock(0)(k));
    var s := Selection(ms[k := Check(p, clock(1)(k))], [k]);
    var f := Filter(Some(k), Unlimited, true);
    rest := ScanInOrder(s, clock(2), f, 0);
    SameFirst(rest, 63, 0, |ms|, Takes(s.models, clock(2), f),
              Others(ms, k, clock(2)));
  }
}
