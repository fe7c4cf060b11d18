/** src/ai/prompt_router.c: the router itself, over the table of models it
    updates in place. */
module PromptRouting {
  import opened CMachine
  import opened ModelHealth
  import opened Routing
  import opened RoutingLaws

  function Shown(m: AIModel): Profile
    reads m
  {
    Profile(m.name, m.tier, m.isAvailable, m.totalCalls, m.totalLatencyUs, m.totalCostUsd, m.health)
  }

  function ComputeModelScore(m: AIModel): real
    reads m
  {
    Score(Shown(m))
  }

  lemma MeetsUnchecked(p: Profile, now: Time, l: Limits)
    ensures Meets(Check(p, now), l) == Meets(p, l)
  {
  }

  /** One round of a scan that is not over. */
  lemma ScanRound(s: Selection, at: Readings, f: Filter, i: nat)
    requires i < |s.models| && !(f.stopFull && |s.list| >= MAX_CANDIDATES)
    ensures var next := if f.skip == Some(i) then s else Visited(s, at(i), f, i);
            && |next.models| == |s.models|
            && Scanned(s, at, f, i) == Scanned(next, at, f, i + 1)
            && |next.list| <= |Scanned(s, at, f, i).list|
  {
    hide Eligible, Meets, Check;
    ScanAppends(if f.skip == Some(i) then s else Visited(s, at(i), f, i), at, f, i + 1);
  }

  lemma ScanEnd(s: Selection, at: Readings, f: Filter, i: nat)
    requires i == |s.models| || (i < |s.models| && f.stopFull && |s.list| >= MAX_CANDIDATES)
    ensures Scanned(s, at, f, i) == s
  {
  }

  class PromptRouter {
    var models: seq<AIModel>
    var defaultModel: string
    var smartRouting: bool
    ghost var profiles: seq<Profile>

    ghost predicate Valid()
      reads this, models
    {
      && |profiles| == |models|
      && (forall i, j :: 0 <= i < j < |models| ==> models[i] != models[j])
      && (forall i :: 0 <= i < |models| ==> Shown(models[i]) == profiles[i])
    }

    constructor (models: seq<AIModel>, defaultModel: string, smartRouting: bool)
      requires forall i, j :: 0 <= i < j < |models| ==> models[i] != models[j]
      ensures Valid() && this.models == models
      ensures this.defaultModel == defaultModel && this.smartRouting == smartRouting
    {
      this.models, this.defaultModel, this.smartRouting := models, defaultModel, smartRouting;
      profiles := seq(|models|, i requires 0 <= i < |models| reads models => Shown(models[i]));
    }

    // --------------------------------------------------------- single steps

    method CheckModel(i: nat, now: Time) returns (ok: bool)
      requires Valid() && i < |models|
      modifies this`profiles, models[i]
      ensures Valid() && profiles == old(profiles)[i := Check(old(profiles[i]), now)]
      ensures ok == Eligible(old(profiles[i]), now)
    {
      ok := models[i].ProviderIsEligible(now);
      profiles := profiles[i := Check(profiles[i], now)];
    }

    method TryModel(i: nat, a: Attempt) returns (result: int)
      requires Valid() && i < |models|
      modifies this`profiles, models[i]
      ensures Valid() && profiles == old(profiles)[i := Attempted(old(profiles[i]), a)]
      ensures result == if Succeeds(old(profiles[i]), a) then 0 else -1
    {
      result := models[i].SendToModel(a.first, a.second, a.finish, a.outcome, a.latencyUs, a.costUsd,
                                      a.inTokens, a.outTokens);
      profiles := profiles[i := Attempted(profiles[i], a)];
    }

    method Named(name: string) returns (k: Option<nat>)
      requires Valid()
      ensures k == FirstNamed(profiles, name, 0)
    {
      var i := 0;
      while i < |models|
        invariant 0 <= i <= |models|
        invariant FirstNamed(profiles, name, i) == FirstNamed(profiles, name, 0)
      {
        if models[i].name == name { return Some(i); }
        i := i + 1;
      }
      return None;
    }

    // ------------------------------------------------------------ selection

    /** Checks one model and takes it for a candidate if it qualifies. The source
        writes it to the array in any case; `overrun` says that it does not fit. */
    method Visit(buf: array<nat>, count: nat, now: Time, f: Filter, i: nat) returns (n: nat, overrun: bool)
      requires Valid() && i < |models| && buf.Length == MAX_CANDIDATES && count <= MAX_CANDIDATES
      modifies this`profiles, models[i], buf
      ensures Valid() && n <= MAX_CANDIDATES
      ensures overrun <==> |old(Visited(Selection(profiles, buf[..count]), now, f, i)).list| > MAX_CANDIDATES
      ensures !overrun ==>
                Selection(profiles, buf[..n]) == old(Visited(Selection(profiles, buf[..count]), now, f, i))
    {
      hide Eligible, Meets, Check;
      n, overrun := count, false;
      ghost var p := profiles[i];
      MeetsUnchecked(p, now, f.limits);
      var ok := CheckModel(i, now);
      var within := MeetsLimits(i, f.limits);
      if ok && within {
        if n == buf.Length { return n, true; }
        buf[n] := i;
        n := n + 1;
      }
    }

    /** One scan over the table, which adds to the `count` candidates in `buf`, and
        overruns it exactly if it is to take more than fit. */
    method Collect(buf: array<nat>, count: nat, at: Readings, f: Filter) returns (n: nat, overrun: bool)
      requires Valid() && buf.Length == MAX_CANDIDATES && count <= MAX_CANDIDATES
      modifies this`profiles, models, buf
      ensures Valid() && n <= MAX_CANDIDATES
      ensures overrun <==> |old(Scanned(Selection(profiles, buf[..count]), at, f, 0)).list| > MAX_CANDIDATES
      ensures !overrun ==>
                Selection(profiles, buf[..n]) == old(Scanned(Selection(profiles, buf[..count]), at, f, 0))
    {
      hide Visited, Scanned;
      n, overrun := count, false;
      var i := 0;
      while i < |models| && !(f.stopFull && n >= MAX_CANDIDATES)
        invariant Valid() && 0 <= i <= |models| && n <= MAX_CANDIDATES
        invariant Scanned(Selection(profiles, buf[..n]), at, f, i) == old(Scanned(Selection(profiles, buf[..count]), at, f, 0))
      {
        ScanRound(Selection(profiles, buf[..n]), at, f, i);
        if f.skip != Some(i) {
          n, overrun := Visit(buf, n, at(i), f, i);
          if overrun { return; }
        }
        i := i + 1;
      }
      ScanEnd(Selection(profiles, buf[..n]), at, f, i);
    }

    method MeetsLimits(i: nat, l: Limits) returns (ok: bool)
      requires Valid() && i < |models|
      ensures ok == Meets(profiles[i], l)
    {
      match l {
        case Unlimited => ok := true;
        case Within(minTier, maxCostCents) =>
          ok := false;
          if models[i].tier >= minTier {
            var cost := models[i].totalCostUsd;
            ok := maxCostCents <= 0 || cost * 100.0 <= maxCostCents as real;
          }
      }
    }

    method CompareExchange(scored: array<nat>, n: nat, i: nat, j: nat)
      requires Valid() && n <= scored.Length && InTable(scored[..n], |profiles|) && i < j < n
      modifies scored
      ensures scored[..n] == old(Exchanged(profiles, scored[..n], i, j))
    {
      hide Score;
      ghost var before := scored[..n];
      assert scored[i] == before[i] && scored[j] == before[j];
      var si := ComputeModelScore(models[scored[i]]);
      var sj := ComputeModelScore(models[scored[j]]);
      if si > sj {
        scored[i], scored[j] := scored[j], scored[i];
      }
    }

    /** The exchange sort, in place. */
    method SortByScore(scored: array<nat>, n: nat)
      requires Valid() && n <= scored.Length && InTable(scored[..n], |profiles|)
      modifies scored
      ensures scored[..n] == old(Ranked(profiles, scored[..n], 0))
    {
      hide Score, Exchanged;
      var i := 0;
      while i < n
        invariant 0 <= i <= n && InTable(scored[..n], |profiles|)
        invariant Ranked(profiles, scored[..n], i) == old(Ranked(profiles, scored[..n], 0))
      {
        ghost var settled := Settled(profiles, scored[..n], i, i + 1);
        var j := i + 1;
        while j < n
          invariant i < j <= n && InTable(scored[..n], |profiles|)
          invariant Settled(profiles, scored[..n], i, j) == settled
        {
          CompareExchange(scored, n, i, j);
          j := j + 1;
        }
        i := i + 1;
      }
    }

    method TierLoop(scored: array<nat>, n: nat, candidates: array<nat>) returns (count: nat)
      requires Valid() && scored != candidates && n <= scored.Length && candidates.Length == MAX_CANDIDATES
      requires InTable(scored[..n], |profiles|) && n <= MAX_CANDIDATES
      modifies candidates
      ensures count <= MAX_CANDIDATES && candidates[..count] == old(Tiered(profiles, scored[..n]))
    {
      count := 0;
      var i := 0;
      while i < n && count < MAX_CANDIDATES
        invariant 0 <= i <= n && count <= i
        invariant InTable(scored[..i], |profiles|) && candidates[..count] == Tiered(profiles, scored[..i])
      {
        assert scored[..i + 1] == scored[..i] + [scored[i]];
        assert scored[..n][i] == scored[i];
        if models[scored[i]].tier >= 1 {
          candidates[count] := scored[i];
          count := count + 1;
        }
        i := i + 1;
      }
    }

    method AvailableLoop(candidates: array<nat>) returns (count: nat)
      requires Valid() && candidates.Length == MAX_CANDIDATES
      modifies candidates
      ensures count <= MAX_CANDIDATES && candidates[..count] == FirstAvailable(profiles, [], 0)
    {
      count := 0;
      var i := 0;
      while i < |models| && count < MAX_CANDIDATES
        invariant 0 <= i <= |models| && count <= MAX_CANDIDATES && InTable(candidates[..count], |profiles|)
        invariant FirstAvailable(profiles, candidates[..count], i) == FirstAvailable(profiles, [], 0)
      {
        ghost var before := candidates[..count];
        if models[i].isAvailable {
          candidates[count] := i;
          count := count + 1;
          assert candidates[..count] == before + [i];
        }
        i := i + 1;
      }
    }

    method RequestedCandidates(name: string, clock: nat -> Readings, candidates: array<nat>) returns (count: nat)
      requires Valid() && candidates.Length == MAX_CANDIDATES
      modifies this`profiles, models, candidates
      ensures Valid() && count <= MAX_CANDIDATES
      ensures Selection(profiles, candidates[..count]) == old(RequestedSelection(profiles, name, clock))
    {
      hide Eligible, Check, Scanned;
      var k := Named(name);
      if k.None? { return 0; }
      var i := k.value;
      var first := CheckModel(i, clock(0)(i));  // only to be logged
      candidates[0] := i;
      count := 1;
      assert candidates[..1] == [i];
      var second := CheckModel(i, clock(1)(i));
      ghost var s := Selection(profiles, [i]);
      assert s.models == old(profiles)[i := Check(Check(old(profiles[i]), clock(0)(i)), clock(1)(i))];
      if !second {
        var f := Filter(k, Unlimited, true);
        ScanFits(s, clock(2), f, 0);
        var overrun;
        count, overrun := Collect(candidates, count, clock(2), f);
      }
    }

    method SmartCandidates(clock: nat -> Readings, candidates: array<nat>) returns (count: nat, overrun: bool)
      requires Valid() && candidates.Length == MAX_CANDIDATES
      modifies this`profiles, models, candidates
      ensures Valid() && count <= MAX_CANDIDATES
      ensures overrun <==> !old(Roomy(profiles, clock(0), Unlimited))
      ensures !overrun ==> Selection(profiles, candidates[..count]) == old(SmartSelection(profiles, defaultModel, clock))
    {
      hide Scanned, Ranked, Tiered, LastResort, RankedSelection;
      NothingStarted(profiles, EVERY_ELIGIBLE);
      ScanExact(Selection(profiles, []), clock(0), EVERY_ELIGIBLE, 0);
      count, overrun := RankModels(clock(0), candidates);
      if overrun { return; }
      if count == 0 {
        ScanFits(Selection(profiles, []), clock(1), FIRST_ELIGIBLE, 0);
        assert candidates[..0] == [];
        count, overrun := Collect(candidates, count, clock(1), FIRST_ELIGIBLE);
      }
      if count == 0 {
        count := LastCandidates(candidates);
      }
    }

    /** When no model is eligible: the default one, those with a key, the first. */
    method LastCandidates(candidates: array<nat>) returns (count: nat)
      requires Valid() && candidates.Length == MAX_CANDIDATES
      modifies candidates
      ensures count <= MAX_CANDIDATES && candidates[..count] == LastResort(profiles, defaultModel)
    {
      hide FirstNamed;
      count := DefaultCandidate(candidates);
      if count == 0 && |models| > 0 {
        count := AvailableLoop(candidates);
      }
      if count == 0 && |models| > 0 {
        candidates[count] := 0;
        count := count + 1;
      }
    }

    /** Ranks the eligible models, and takes those of a real tier. */
    method RankModels(at: Readings, candidates: array<nat>) returns (count: nat, overrun: bool)
      requires Valid() && candidates.Length == MAX_CANDIDATES
      modifies this`profiles, models, candidates
      ensures Valid() && count <= MAX_CANDIDATES
      ensures overrun <==> !old(Roomy(profiles, at, Unlimited))
      ensures !overrun ==>
              var s := old(RankedSelection(profiles, at, EVERY_ELIGIBLE));
              && InTable(s.list, |s.models|) && profiles == s.models
              && candidates[..count] == Tiered(s.models, s.list)
    {
      hide Scanned, Ranked, Tiered;
      RankingExact(profiles, at, Unlimited);
      var scored := new nat[MAX_CANDIDATES];
      assert scored[..0] == [];
      var n;
      n, overrun := Collect(scored, 0, at, EVERY_ELIGIBLE);
      if overrun { return 0, true; }
      NothingStarted(old(profiles), EVERY_ELIGIBLE);
      ScanExact(Selection(old(profiles), []), at, EVERY_ELIGIBLE, 0);
      SortByScore(scored, n);
      count := TierLoop(scored, n, candidates);
    }

    method DefaultCandidate(candidates: array<nat>) returns (count: nat)
      requires Valid() && candidates.Length == MAX_CANDIDATES
      modifies candidates
      ensures count <= 1 && candidates[..count] == DefaultSelection(profiles, defaultModel)
    {
      var k := Named(defaultModel);
      if k.None? { return 0; }
      candidates[0] := k.value;
      count := 1;
    }

    method RouteCandidates(name: string, clock: nat -> Readings, candidates: array<nat>) returns (count: nat, overrun: bool)
      requires Valid() && candidates.Length == MAX_CANDIDATES
      modifies this`profiles, models, candidates
      ensures Valid() && count <= MAX_CANDIDATES
      ensures overrun <==> name == "" && smartRouting && !old(Roomy(profiles, clock(0), Unlimited))
      ensures !overrun ==>
                Selection(profiles, candidates[..count])
                == old(RouteSelection(profiles, defaultModel, smartRouting, name, clock))
    {
      hide RequestedSelection, SmartSelection;
      overrun := false;
      if name != "" {
        count := RequestedCandidates(name, clock, candidates);
      } else if smartRouting {
        count, overrun := SmartCandidates(clock, candidates);
      } else {
        count := DefaultCandidate(candidates);
        if count == 0 && |models| > 0 {
          candidates[count] := 0;
          count := count + 1;
        }
      }
    }

    method OptionsCandidates(name: string, clock: nat -> Readings, minTier: int, maxCostCents: int, candidates: array<nat>)
      returns (count: nat, overrun: bool)
      requires Valid() && candidates.Length == MAX_CANDIDATES
      modifies this`profiles, models, candidates
      ensures Valid() && count <= MAX_CANDIDATES
      ensures overrun <==> old(OptionsOverrun(profiles, name, clock, Within(minTier, maxCostCents)))
      ensures !overrun ==>
                Selection(profiles, candidates[..count])
                == old(OptionsSelection(profiles, name, clock, Within(minTier, maxCostCents)))
    {
      hide Scanned, Ranked, Eligible, Meets, Check;
      var l := Within(minTier, maxCostCents);
      var f := Filter(None, l, false);
      count, overrun := 0, false;
      if name != "" {
        var k := Named(name);
        if k.Some? {
          assert candidates[..0] == [];
          count, overrun := Visit(candidates, count, clock(0)(k.value), f, k.value);
        }
      }
      if count == 0 {
        ghost var once := profiles;
        RankingExact(once, clock(1), l);
        NothingStarted(once, f);
        ScanExact(Selection(once, []), clock(1), f, 0);
        assert candidates[..0] == [];
        count, overrun := Collect(candidates, count, clock(1), f);
        if overrun { return; }
        SortByScore(candidates, count);
      }
    }

    // ------------------------------------------------------------- failover

    /** Goes down the candidates until one answers. */
    method TryCandidates(candidates: array<nat>, count: nat, world: World) returns (served: Option<nat>)
      requires Valid() && count <= candidates.Length && InTable(candidates[..count], |profiles|)
      modifies this`profiles, models
      ensures Valid()
      ensures Routed(profiles, served) == old(Failover(profiles, candidates[..count], world, 0))
    {
      hide Attempted, Succeeds;
      var list := candidates[..count];
      var i := 0;
      while i < count
        invariant Valid() && 0 <= i <= count && InTable(list, |profiles|)
        invariant Failover(profiles, list, world, i) == old(Failover(profiles, candidates[..count], world, 0))
      {
        var k := list[i];
        var result := TryModel(k, world(k));
        if result == 0 { return Some(k); }
        i := i + 1;
      }
      return None;
    }

    /** prompt_router_route: 0 and the name of the model that answered, or -1
        and the empty name. What follows an overrun is undefined, so nothing is
        said of it but when it happens. */
    method Route(name: string, clock: nat -> Readings, world: World)
      returns (result: int, actual: string, overrun: bool)
      requires Valid()
      modifies this`profiles, models
      ensures Valid()
      ensures overrun <==> name == "" && smartRouting && !old(Roomy(profiles, clock(0), Unlimited))
      ensures !overrun ==>
              var r := old(RoutingLaws.Route(profiles, defaultModel, smartRouting, name, clock, world));
              && profiles == r.models
              && (result == 0 <==> r.served.Some?) && (result == -1 <==> r.served.None?)
              && (r.served.Some? ==> r.served.value < |models| && actual == models[r.served.value].name)
              && (r.served.None? ==> actual == "")
    {
      hide RouteSelection, Failover;
      SelectionSound(profiles, defaultModel, smartRouting, name, clock);
      var candidates := new nat[MAX_CANDIDATES];
      var count;
      count, overrun := RouteCandidates(name, clock, candidates);
      if overrun { return -1, "", true; }
      ghost var s := Selection(profiles, candidates[..count]);
      FailoverServesFirst(s.models, s.list, world);
      var served := TryCandidates(candidates, count, world);
      if served.None? { return -1, "", false; }
      return 0, models[served.value].name, false;
    }

    /** prompt_router_route_with_options. */
    method RouteWithOptions(name: string, clock: nat -> Readings, world: World, minTier: int, maxCostCents: int)
      returns (result: int, actual: string, overrun: bool)
      requires Valid()
      modifies this`profiles, models
      ensures Valid()
      ensures overrun <==> old(OptionsOverrun(profiles, name, clock, Within(minTier, maxCostCents)))
      ensures !overrun ==>
              var s := old(OptionsSelection(profiles, name, clock, Within(minTier, maxCostCents)));
              && InTable(s.list, |s.models|) && |s.models| == |models|
              && var r := Failover(s.models, s.list, world, 0);
              && profiles == r.models
              && (result == 0 <==> r.served.Some?) && (result == -1 <==> r.served.None?)
              && (r.served.Some? ==> r.served.value < |models| && actual == models[r.served.value].name)
              && (r.served.None? ==> actual == "")
    {
      hide OptionsSelection, Failover;
      OptionsWithinLimits(profiles, name, clock, Within(minTier, maxCostCents));
      var candidates := new nat[MAX_CANDIDATES];
      var count;
      count, overrun := OptionsCandidates(name, clock, minTier, maxCostCents, candidates);
      if overrun { return -1, "", true; }
      ghost var s := Selection(profiles, candidates[..count]);
      FailoverServesFirst(s.models, s.list, world);
      var served := TryCandidates(candidates, count, world);
      if served.None? { return -1, "", false; }
      return 0, models[served.value].name, false;
    }
  }
}
