/** What routing promises for every table, clock and course of the attempts:
    who is tried, in which order, who answers, and who is left alone. */
module RoutingLaws {
  import opened CMachine
  import opened ModelHealth
  import opened Routing
  import Counting

  // -------------------------------------------------------------- the failover

  /** The table once the models in `tried` have been attempted, and no others. */
  predicate TriedOnly(ms: seq<Profile>, after: seq<Profile>, tried: seq<nat>, world: World) {
    && |after| == |ms|
    && forall k :: 0 <= k < |ms| ==> after[k] == if k in tried then Attempted(ms[k], world(k)) else ms[k]
  }

  predicate AllFail(ms: seq<Profile>, list: seq<nat>, world: World)
    requires InTable(list, |ms|)
  {
    forall i :: 0 <= i < |list| ==> !Succeeds(ms[list[i]], world(list[i]))
  }

  /** Attempts go down the list to the first that succeeds and no further, each
      meeting its model as the selection left it; none succeeding is the only
      way to fail. */
  ghost predicate ServesFirst(ms: seq<Profile>, list: seq<nat>, world: World, r: Routed)
    requires InTable(list, |ms|)
  {
    match r.served
    case None => AllFail(ms, list, world) && TriedOnly(ms, r.models, list, world)
    case Some(k) =>
      exists n :: 0 <= n < |list| && ServedAt(ms, list, world, r.models, k, n)
  }

  predicate ServedAt(ms: seq<Profile>, list: seq<nat>, world: World, after: seq<Profile>, k: nat, n: nat)
    requires InTable(list, |ms|) && n < |list|
  {
    && list[n] == k && Succeeds(ms[k], world(k))
    && AllFail(ms, list[..n], world)
    && TriedOnly(ms, after, list[..n + 1], world)
  }

  lemma {:induction false} FailoverFrom(ms: seq<Profile>, now: seq<Profile>, list: seq<nat>, world: World, i: nat)
    requires InTable(list, |ms|) && Distinct(list) && i <= |list|
    requires TriedOnly(ms, now, list[..i], world) && AllFail(ms, list[..i], world)
    ensures ServesFirst(ms, list, world, Failover(now, list, world, i))
    decreases |list| - i
  {
    hide Succeeds, Attempted;
    if i == |list| {
      assert list[..i] == list;
    } else {
      var k := list[i];
      DistinctFront(list, i);
      var after := now[k := Attempted(now[k], world(k))];
      assert list[..i + 1] == list[..i] + [k];
      assert TriedOnly(ms, after, list[..i + 1], world);
      if Succeeds(now[k], world(k)) {
        assert ServedAt(ms, list, world, after, k, i);
      } else {
        assert AllFail(ms, list[..i + 1], world);
        FailoverFrom(ms, after, list, world, i + 1);
      }
    }
  }

  lemma FailoverServesFirst(ms: seq<Profile>, list: seq<nat>, world: World)
    requires InTable(list, |ms|) && Distinct(list)
    ensures ServesFirst(ms, list, world, Failover(ms, list, world, 0))
  {
    FailoverFrom(ms, ms, list, world, 0);
  }

  // ------------------------------------------------------------- the candidates

  lemma DistinctFront(list: seq<nat>, i: nat)
    requires Distinct(list) && i < |list|
    ensures Distinct(list[..i]) && list[i] !in list[..i]
  {
  }

  lemma DistinctSnoc(list: seq<nat>, k: nat)
    requires Distinct(list) && k !in list
    ensures Distinct(list + [k])
  {
  }

  predicate Ordered(ms: seq<Profile>, list: seq<nat>)
    requires InTable(list, |ms|)
  {
    forall i, j :: 0 <= i < j < |list| ==> Score(ms[list[i]]) <= Score(ms[list[j]])
  }

  lemma OrderedSplit(ms: seq<Profile>, front: seq<nat>, k: nat)
    requires InTable(front, |ms|) && k < |ms|
    ensures InTable(front + [k], |ms|)
    ensures Ordered(ms, front + [k])
       <==> Ordered(ms, front) && forall x :: x in front ==> Score(ms[x]) <= Score(ms[k])
  {
    hide Score;
    var list := front + [k];
    if Ordered(ms, list) {
      assert forall i :: 0 <= i < |front| ==> list[i] == front[i] && list[|front|] == k;
    }
  }

  lemma NothingOrdered(ms: seq<Profile>)
    ensures Distinct([]) && Ordered(ms, [])
  {
  }

  lemma {:induction false} TieredExact(ms: seq<Profile>, list: seq<nat>)
    requires InTable(list, |ms|) && Distinct(list) && Ordered(ms, list)
    ensures var r := Tiered(ms, list);
            && Distinct(r) && Ordered(ms, r)
            && forall k :: k in r <==> k in list && ms[k].tier >= 1
  {
    hide Score, Distinct, Ordered;
    if list == [] {
      NothingOrdered(ms);
    } else {
      var n := |list| - 1;
      DistinctFront(list, n);
      assert list == list[..n] + [list[n]];
      OrderedSplit(ms, list[..n], list[n]);
      TieredExact(ms, list[..n]);
      DistinctSnoc(Tiered(ms, list[..n]), list[n]);
      OrderedSplit(ms, Tiered(ms, list[..n]), list[n]);
    }
  }

  lemma {:induction false} AvailableDistinct(ms: seq<Profile>, list: seq<nat>, i: nat)
    requires i <= |ms| && InTable(list, |ms|) && Distinct(list) && |list| <= MAX_CANDIDATES
    requires forall k :: k in list ==> k < i
    ensures var r := FirstAvailable(ms, list, i); Distinct(r) && |r| <= MAX_CANDIDATES
    decreases |ms| - i
  {
    if i < |ms| && |list| < MAX_CANDIDATES {
      if ms[i].isAvailable {
        DistinctSnoc(list, i);
      }
      AvailableDistinct(ms, if ms[i].isAvailable then list + [i] else list, i + 1);
    }
  }

  lemma {:induction false} ScanFits(s: Selection, at: Readings, f: Filter, i: nat)
    requires i <= |s.models| && f.stopFull && |s.list| <= MAX_CANDIDATES
    ensures |Scanned(s, at, f, i).list| <= MAX_CANDIDATES
    decreases |s.models| - i
  {
    if i < |s.models| && |s.list| < MAX_CANDIDATES {
      if f.skip == Some(i) {
        ScanFits(s, at, f, i + 1);
      } else {
        ScanFits(Visited(s, at(i), f, i), at, f, i + 1);
      }
    }
  }

  lemma SameMembers(r: seq<nat>, s: seq<nat>)
    requires multiset(r) == multiset(s)
    ensures |r| == |s| && forall k :: k in r <==> k in s
    ensures Distinct(s) ==> Distinct(r)
  {
    assert |multiset(r)| == |r| && |multiset(s)| == |s|;
    forall k ensures k in r <==> k in s {
      assert k in multiset(r) <==> k in multiset(s);
    }
    if Distinct(s) && !Distinct(r) {
      var i, j :| 0 <= i < j < |r| && r[i] == r[j];
      CountTwo(r, i, j);
      CountOne(s, r[i]);
    }
  }

  lemma CountTwo(s: seq<nat>, i: nat, j: nat)
    requires i < j < |s| && s[i] == s[j]
    ensures multiset(s)[s[i]] >= 2
  {
    assert s == s[..j] + s[j..];
    assert s[..j][i] == s[i] && s[j..][0] == s[i];
    assert multiset(s) == multiset(s[..j]) + multiset(s[j..]);
    assert s[i] in multiset(s[..j]) && s[i] in multiset(s[j..]);
  }

  lemma {:induction false} CountOne(s: seq<nat>, x: nat)
    requires Distinct(s)
    ensures multiset(s)[x] <= 1
  {
    if s != [] {
      var n := |s| - 1;
      assert s == s[..n] + [s[n]];
      DistinctFront(s, n);
      CountOne(s[..n], x);
    }
  }

  /** A ranking holds exactly the models it is to take, each once, in ascending
      score. */
  lemma RankingExact(ms: seq<Profile>, at: Readings, l: Limits)
    ensures var f := Filter(None, l, false);
            var s := RankedSelection(ms, at, f);
            && CheckedFrom(ms, s.models, at, f, 0)
            && InTable(s.list, |s.models|) && Distinct(s.list) && Ordered(s.models, s.list)
            && forall k: nat :: k in s.list <==> k < |ms| && Taken(ms, at, f, k)
    ensures |RankedSelection(ms, at, Filter(None, l, false)).list|
         == |Scanned(Selection(ms, []), at, Filter(None, l, false), 0).list|
  {
    hide Ranked, Scanned, Taken, CheckedFrom, Score, Distinct;
    var f := Filter(None, l, false);
    NothingStarted(ms, f);
    ScanExact(Selection(ms, []), at, f, 0);
    var s := Scanned(Selection(ms, []), at, f, 0);
    SortRanks(s.models, s.list);
    SameMembers(Ranked(s.models, s.list, 0), s.list);
  }

  lemma NothingStarted(ms: seq<Profile>, f: Filter)
    ensures Started(Selection(ms, []), f, 0)
  {
  }

  /** The ranking array is overrun exactly if more than 64 models are eligible
      within the limits at once. */
  lemma OverrunIffManyEligible(ms: seq<Profile>, at: Readings, l: Limits)
    ensures Roomy(ms, at, l)
       <==> |set k | 0 <= k < |ms| && Taken(ms, at, Filter(None, l, false), k)| <= MAX_CANDIDATES
  {
    hide Taken, CheckedFrom, Scanned;
    var f := Filter(None, l, false);
    NothingStarted(ms, f);
    ScanExact(Selection(ms, []), at, f, 0);
    var list := Scanned(Selection(ms, []), at, f, 0).list;
    Counting.DistinctCount(list);
    Counting.ElementsOf(list);
    assert Counting.Elements(list) == set k | 0 <= k < |ms| && Taken(ms, at, f, k);
  }

  /** Without a requested name, the candidates are exactly the eligible models
      of a real tier, best score first, if there is one. */
  lemma SmartRanking(ms: seq<Profile>, default: string, clock: nat -> Readings)
    requires exists k :: 0 <= k < |ms| && Taken(ms, clock(0), EVERY_ELIGIBLE, k) && ms[k].tier >= 1
    ensures var s := SmartSelection(ms, default, clock);
            && CheckedFrom(ms, s.models, clock(0), EVERY_ELIGIBLE, 0)
            && InTable(s.list, |s.models|) && Distinct(s.list) && Ordered(s.models, s.list)
            && forall k: nat :: k in s.list <==> k < |ms| && Taken(ms, clock(0), EVERY_ELIGIBLE, k) && ms[k].tier >= 1
  {
    hide Ranked, Scanned, Taken, Score, Distinct, Ordered;
    RankingExact(ms, clock(0), Unlimited);
    var s := RankedSelection(ms, clock(0), EVERY_ELIGIBLE);
    TieredExact(s.models, s.list);
    var k :| 0 <= k < |ms| && Taken(ms, clock(0), EVERY_ELIGIBLE, k) && ms[k].tier >= 1;
    assert s.models[k].tier == ms[k].tier;
    assert k in Tiered(s.models, s.list);
  }

  /** With limits, every candidate meets them and was eligible. A requested
      model that does is the only candidate; otherwise all that do are ranked. */
  lemma OptionsWithinLimits(ms: seq<Profile>, name: string, clock: nat -> Readings, l: Limits)
    ensures var f := Filter(None, l, false);
            var s := OptionsSelection(ms, name, clock, l);
            var k := if name == "" then None else FirstNamed(ms, name, 0);
            var once := NamedWithin(ms, name, clock(0), l).models;
            && |once| == |ms| == |s.models| && InTable(s.list, |ms|) && Distinct(s.list)
            && (l.Within? ==>
                  forall k :: k in s.list ==>
                    && ms[k].tier >= l.minTier
                    && (l.maxCostCents <= 0 || ms[k].costUsd * 100.0 <= l.maxCostCents as real))
            && if k.Some? && Taken(ms, clock(0), f, k.value) then s.list == [k.value]
               else
                 && Ordered(s.models, s.list)
                 && forall k: nat :: k in s.list <==>
                      && k < |once| && Eligible(once[k], clock(1)(k))
                      && (l.Within? ==>
                            && ms[k].tier >= l.minTier
                            && (l.maxCostCents <= 0 || ms[k].costUsd * 100.0 <= l.maxCostCents as real))
  {
    hide Eligible, Score, Ordered;
    var f := Filter(None, l, false);
    var once := NamedWithin(ms, name, clock(0), l).models;
    forall k | 0 <= k < |ms|
      ensures Meets(once[k], l) == Meets(ms[k], l)
    {
    }
    RankingExact(once, clock(1), l);
  }

  /** Every selection holds distinct models of the table, and at most 64 when
      the ranking had room. */
  lemma SelectionSound(ms: seq<Profile>, default: string, smart: bool, name: string, clock: nat -> Readings)
    ensures var s := RouteSelection(ms, default, smart, name, clock);
            && |s.models| == |ms| && InTable(s.list, |ms|) && Distinct(s.list)
            && (name == "" && smart ==> Roomy(ms, clock(0), Unlimited) ==> |s.list| <= MAX_CANDIDATES)
            && (name != "" || !smart ==> |s.list| <= MAX_CANDIDATES)
  {
    if name != "" {
      RequestedSound(ms, name, clock);
    } else if smart {
      SmartSound(ms, default, clock);
    }
  }

  lemma RequestedSound(ms: seq<Profile>, name: string, clock: nat -> Readings)
    ensures var s := RequestedSelection(ms, name, clock);
            |s.models| == |ms| && InTable(s.list, |ms|) && Distinct(s.list) && |s.list| <= MAX_CANDIDATES
  {
    hide Scanned, Eligible, Check;
    var k := FirstNamed(ms, name, 0);
    if k.Some? {
      var p := Check(ms[k.value], clock(0)(k.value));
      var s := Selection(ms[k.value := Check(p, clock(1)(k.value))], [k.value]);
      ScanDistinct(s, clock(2), Filter(k, Unlimited, true), 0);
      ScanFits(s, clock(2), Filter(k, Unlimited, true), 0);
    }
  }

  lemma SmartSound(ms: seq<Profile>, default: string, clock: nat -> Readings)
    ensures var s := SmartSelection(ms, default, clock);
            && |s.models| == |ms| && InTable(s.list, |ms|) && Distinct(s.list)
            && (Roomy(ms, clock(0), Unlimited) ==> |s.list| <= MAX_CANDIDATES)
            && (|ms| > 0 ==> s.list != [])
  {
    hide Scanned, Ranked, Tiered, FirstAvailable, FirstNamed, Distinct, Score;
    RankingExact(ms, clock(0), Unlimited);
    var ranked := RankedSelection(ms, clock(0), EVERY_ELIGIBLE);
    TieredExact(ranked.models, ranked.list);
    var none := Selection(ranked.models, []);
    NothingStarted(ranked.models, FIRST_ELIGIBLE);
    ScanDistinct(none, clock(1), FIRST_ELIGIBLE, 0);
    ScanFits(none, clock(1), FIRST_ELIGIBLE, 0);
    LastResortSound(Scanned(none, clock(1), FIRST_ELIGIBLE, 0).models, default);
  }

  lemma LastResortSound(ms: seq<Profile>, default: string)
    ensures var list := LastResort(ms, default);
            Distinct(list) && |list| <= MAX_CANDIDATES && (|ms| > 0 ==> list != [])
  {
    AvailableDistinct(ms, [], 0);
  }

  // ------------------------------------------------------------- whole requests

  /** A request from selection to answer, with no other request between. */
  function Route(ms: seq<Profile>, default: string, smart: bool, name: string, clock: nat -> Readings, world: World): Routed
  {
    SelectionSound(ms, default, smart, name, clock);
    var s := RouteSelection(ms, default, smart, name, clock);
    Failover(s.models, s.list, world, 0)
  }

  /** A prompt without a requested model fails only when every eligible model
      of a real tier fails, and otherwise goes to the one with the lowest score
      among those that would have answered. */
  lemma SmartServesBest(ms: seq<Profile>, default: string, clock: nat -> Readings, world: World)
    requires exists k :: 0 <= k < |ms| && Taken(ms, clock(0), EVERY_ELIGIBLE, k) && ms[k].tier >= 1
    ensures var r := Route(ms, default, true, "", clock, world);
            var checked := SmartSelection(ms, default, clock).models;
            && |checked| == |ms|
            && (r.served.None? <==> forall k :: 0 <= k < |ms| ==> !CouldServe(ms, clock(0), world, k))
            && (r.served.Some? ==>
                  && r.served.value < |ms| && CouldServe(ms, clock(0), world, r.served.value)
                  && forall k :: 0 <= k < |ms| && CouldServe(ms, clock(0), world, k) ==>
                       Score(checked[r.served.value]) <= Score(checked[k]))
  {
    hide Taken, Score, Succeeds, Distinct, Failover, SmartSelection;
    SelectionSound(ms, default, true, "", clock);
    SmartRanking(ms, default, clock);
    var s := SmartSelection(ms, default, clock);
    FailoverServesFirst(s.models, s.list, world);
    var r := Route(ms, default, true, "", clock, world);
    forall k | 0 <= k < |ms|
      ensures CouldServe(ms, clock(0), world, k) <==> k in s.list && Succeeds(s.models[k], world(k))
    {
    }
    if r.served.Some? {
      var k := r.served.value;
      var n :| 0 <= n < |s.list| && ServedAt(s.models, s.list, world, r.models, k, n);
      forall j | 0 <= j < |ms| && CouldServe(ms, clock(0), world, j)
        ensures Score(s.models[k]) <= Score(s.models[j])
      {
        LaterScoresHigher(s.models, s.list, world, n, j);
      }
    }
  }

  /** The model is a candidate, and its attempt would succeed. */
  predicate CouldServe(ms: seq<Profile>, at: Readings, world: World, k: nat)
    requires k < |ms|
  {
    Taken(ms, at, EVERY_ELIGIBLE, k) && ms[k].tier >= 1 && Succeeds(Check(ms[k], at(k)), world(k))
  }

  lemma LaterScoresHigher(ms: seq<Profile>, list: seq<nat>, world: World, n: nat, k: nat)
    requires InTable(list, |ms|) && Ordered(ms, list) && n < |list|
    requires AllFail(ms, list[..n], world) && k in list && Succeeds(ms[k], world(k))
    ensures Score(ms[list[n]]) <= Score(ms[k])
  {
    hide Score, Succeeds;
    var i :| 0 <= i < |list| && list[i] == k;
    forall j | 0 <= j < n ensures !Succeeds(ms[list[j]], world(list[j])) {
      assert list[..n][j] == list[j];
    }
  }

  lemma {:induction false} ScanAppends(s: Selection, at: Readings, f: Filter, i: nat)
    requires i <= |s.models|
    ensures s.list <= Scanned(s, at, f, i).list
    decreases |s.models| - i
  {
    hide Eligible, Meets, Check;
    if i < |s.models| && !(f.stopFull && |s.list| >= MAX_CANDIDATES) {
      if f.skip == Some(i) {
        ScanAppends(s, at, f, i + 1);
      } else {
        ScanAppends(Visited(s, at(i), f, i), at, f, i + 1);
      }
    }
  }

  /** A requested model is tried first, and alone if its second check passes;
      otherwise the others that are eligible follow, each once, and all of them
      as far as the list reaches. */
  lemma RequestedFirst(ms: seq<Profile>, name: string, clock: nat -> Readings, k: nat)
    requires FirstNamed(ms, name, 0) == Some(k) && k < |ms|
    ensures var s := RequestedSelection(ms, name, clock);
            var alone := Eligible(Check(ms[k], clock(0)(k)), clock(1)(k));
            && s.list != [] && s.list[0] == k
            && (alone ==> s.list == [k])
            && (forall j :: j in s.list && j != k ==> j < |ms| && Eligible(ms[j], clock(2)(j)))
            && (!alone && |s.list| < MAX_CANDIDATES ==>
                  forall j: nat :: j in s.list <==> j == k || (j < |ms| && Eligible(ms[j], clock(2)(j))))
  {
    hide Scanned, Eligible, Check;
    var p := Check(ms[k], clock(0)(k));
    var s := Selection(ms[k := Check(p, clock(1)(k))], [k]);
    var f := Filter(Some(k), Unlimited, true);
    ScanAppends(s, clock(2), f, 0);
    ScanExact(s, clock(2), f, 0);
  }

  /** A name that is not in the table is never routed anywhere: the table stays
      as it is and no model is tried. */
  lemma UnknownNameNeverRouted(ms: seq<Profile>, default: string, smart: bool, name: string, clock: nat -> Readings, world: World)
    requires name != ""
    ensures RouteSelection(ms, default, smart, name, clock).list == []
       <==> forall k :: 0 <= k < |ms| ==> ms[k].name != name
    ensures (forall k :: 0 <= k < |ms| ==> ms[k].name != name) ==>
              Route(ms, default, smart, name, clock, world) == Routed(ms, None)
  {
    var k := FirstNamed(ms, name, 0);
    if k.Some? {
      assert ms[k.value].name == name;
      var p := Check(ms[k.value], clock(0)(k.value));
      var s := Selection(ms[k.value := Check(p, clock(1)(k.value))], [k.value]);
      ScanTakes(s, clock(2), Filter(k, Unlimited, true), 0, k.value);
    }
  }

  /** The gate lets the attempt out, and the transfer completes with whatever status. */
  predicate Completes(p: Profile, a: Attempt) {
    Refusal(p.health, a.first, a.second).None? && (a.outcome.Delivered? || a.outcome.HttpError?)
  }

  /** A model answers exactly if it is the first candidate whose transfer completes:
      an error status is an answer, only a transport error moves on. */
  lemma AnswersIffFirstCompleted(ms: seq<Profile>, default: string, smart: bool, name: string, clock: nat -> Readings, world: World, k: nat)
    ensures var s := RouteSelection(ms, default, smart, name, clock);
            && InTable(s.list, |s.models|)
            && (Route(ms, default, smart, name, clock, world).served == Some(k)
                <==> exists n :: 0 <= n < |s.list| && FirstCompleted(s.models, s.list, world, k, n))
  {
    hide RouteSelection, Failover, Completes, Distinct, InTable;
    SelectionSound(ms, default, smart, name, clock);
    var s := RouteSelection(ms, default, smart, name, clock);
    FailoverServesFirst(s.models, s.list, world);
    FirstServed(s.models, s.list, world, Failover(s.models, s.list, world, 0), k);
  }

  predicate FirstCompleted(ms: seq<Profile>, list: seq<nat>, world: World, k: nat, n: nat)
    requires InTable(list, |ms|) && n < |list|
  {
    && list[n] == k && Completes(ms[k], world(k))
    && forall i :: 0 <= i < n ==> !Completes(ms[list[i]], world(list[i]))
  }

  lemma FirstServed(ms: seq<Profile>, list: seq<nat>, world: World, r: Routed, k: nat)
    requires InTable(list, |ms|) && ServesFirst(ms, list, world, r)
    ensures r.served == Some(k) <==> exists n :: 0 <= n < |list| && FirstCompleted(ms, list, world, k, n)
  {
    hide TriedOnly, Refusal;
    forall m | 0 <= m < |list|
      ensures Completes(ms[list[m]], world(list[m])) == Succeeds(ms[list[m]], world(list[m]))
    {
    }
    hide Completes, Succeeds;
    if r.served.Some? {
      var a := r.served.value;
      var n :| 0 <= n < |list| && ServedAt(ms, list, world, r.models, a, n);
      forall i | 0 <= i < n ensures !Completes(ms[list[i]], world(list[i])) {
        assert list[..n][i] == list[i];
      }
      assert FirstCompleted(ms, list, world, a, n);
      forall m | 0 <= m < |list| && FirstCompleted(ms, list, world, k, m) ensures m == n {
        assert !(n < m) && !(m < n);
      }
    }
  }

  // ------------------------------------------------ models that are left alone

  predicate Retired(p: Profile) {
    p.health.state.Decommissioned?
  }

  lemma {:induction false} ScanKeepsRetired(s: Selection, at: Readings, f: Filter, i: nat, k: nat)
    requires i <= |s.models| && k < |s.models| && Retired(s.models[k])
    ensures var r := Scanned(s, at, f, i); k < |r.models| && r.models[k] == s.models[k]
    decreases |s.models| - i
  {
    if i < |s.models| && !(f.stopFull && |s.list| >= MAX_CANDIDATES) {
      if f.skip == Some(i) {
        ScanKeepsRetired(s, at, f, i + 1, k);
      } else {
        ScanKeepsRetired(Visited(s, at(i), f, i), at, f, i + 1, k);
      }
    }
  }

  lemma SelectionKeepsRetired(ms: seq<Profile>, default: string, smart: bool, name: string, clock: nat -> Readings, k: nat)
    requires k < |ms| && Retired(ms[k])
    ensures var s := RouteSelection(ms, default, smart, name, clock);
            k < |s.models| && s.models[k] == ms[k]
  {
    hide Scanned, Ranked, Tiered, LastResort;
    if name != "" {
      var n := FirstNamed(ms, name, 0);
      if n.Some? {
        var p := Check(ms[n.value], clock(0)(n.value));
        var s := Selection(ms[n.value := Check(p, clock(1)(n.value))], [n.value]);
        ScanKeepsRetired(s, clock(2), Filter(n, Unlimited, true), 0, k);
      }
    } else if smart {
      ScanKeepsRetired(Selection(ms, []), clock(0), EVERY_ELIGIBLE, 0, k);
      var s := RankedSelection(ms, clock(0), EVERY_ELIGIBLE);
      ScanKeepsRetired(Selection(s.models, []), clock(1), FIRST_ELIGIBLE, 0, k);
    }
  }

  /** No request is answered by a decommissioned model, even one that asks for
      it by name, nor changes anything about it. */
  lemma RetiredLeftAlone(ms: seq<Profile>, default: string, smart: bool, name: string, clock: nat -> Readings, world: World, k: nat)
    requires k < |ms| && Retired(ms[k])
    ensures var r := Route(ms, default, smart, name, clock, world);
            r.served != Some(k) && k < |r.models| && r.models[k] == ms[k]
  {
    hide RouteSelection, Failover;
    SelectionSound(ms, default, smart, name, clock);
    SelectionKeepsRetired(ms, default, smart, name, clock, k);
    var s := RouteSelection(ms, default, smart, name, clock);
    FailoverServesFirst(s.models, s.list, world);
  }

  /** Disabling a model, or taking away its key, does not keep a request that
      names it from being sent there: only an open circuit or a quarantine does. */
  lemma DisabledServesByName(ms: seq<Profile>, default: string, smart: bool, name: string, clock: nat -> Readings, world: World, k: nat)
    requires name != "" && FirstNamed(ms, name, 0) == Some(k) && k < |ms|
    requires ms[k].health.state.Disabled? || ms[k].health.state.MissingKey?
    requires !world(k).outcome.Transport?
    ensures Route(ms, default, smart, name, clock, world).served == Some(k)
       <==> !ms[k].health.circuitOpen && ms[k].health.quarantinedUntil <= world(k).second
  {
    hide RequestedSelection, Distinct;
    SelectionSound(ms, default, smart, name, clock);
    RequestedFirst(ms, name, clock, k);
    var s := RequestedSelection(ms, name, clock);
    RequestedKeepsIdle(ms, name, clock, k);
    assert Succeeds(ms[k], world(k)) <==>
      !ms[k].health.circuitOpen && ms[k].health.quarantinedUntil <= world(k).second;
    FailoverServesFirst(s.models, s.list, world);
    if !Succeeds(ms[k], world(k)) {
      NotServed(s.models, s.list, world, k);
    }
  }

  lemma NotServed(ms: seq<Profile>, list: seq<nat>, world: World, k: nat)
    requires InTable(list, |ms|) && Distinct(list) && k < |ms| && !Succeeds(ms[k], world(k))
    ensures Failover(ms, list, world, 0).served != Some(k)
  {
    hide Succeeds, Failover;
    FailoverServesFirst(ms, list, world);
  }

  lemma RequestedKeepsIdle(ms: seq<Profile>, name: string, clock: nat -> Readings, k: nat)
    requires FirstNamed(ms, name, 0) == Some(k) && k < |ms|
    requires ms[k].health.state.Disabled? || ms[k].health.state.MissingKey?
    ensures var s := RequestedSelection(ms, name, clock); k < |s.models| && s.models[k] == ms[k]
  {
    hide Scanned;
    var s := Selection(ms, [k]);
    assert ms[k := Check(Check(ms[k], clock(0)(k)), clock(1)(k))] == ms;
    ScanSkips(s, clock(2), Filter(Some(k), Unlimited, true), 0, k);
  }

  lemma {:induction false} ScanSkips(s: Selection, at: Readings, f: Filter, i: nat, k: nat)
    requires i <= |s.models| && k < |s.models| && f.skip == Some(k)
    ensures var r := Scanned(s, at, f, i); k < |r.models| && r.models[k] == s.models[k]
    decreases |s.models| - i
  {
    hide Eligible, Meets, Check;
    if i < |s.models| && !(f.stopFull && |s.list| >= MAX_CANDIDATES) {
      if f.skip == Some(i) {
        ScanSkips(s, at, f, i + 1, k);
      } else {
        ScanSkips(Visited(s, at(i), f, i), at, f, i + 1, k);
      }
    }
  }

  // --------------------------------------------- eligible, ranked and refused

  /** A model that a check has just let through is still refused exactly while its
      circuit's deadline, or that of a quarantine its state no longer shows, lies
      ahead; with a closed circuit the second reading of the clock decides. */
  lemma EligibleRefusedIff(p: Profile, now: Time, first: Time, second: Time)
    requires Eligible(p, now) && first <= second
    ensures Refusal(Check(p, now).health, first, second).Some? <==>
      if p.health.circuitOpen then p.health.circuitOpenUntil > first || p.health.quarantinedUntil > first
      else p.health.quarantinedUntil > second
  {
  }

  /** The circuit is open until `until`, and from `since` on checks let the model
      through. */
  ghost predicate Tripped(p: Profile, since: Time, until: Time) {
    && p.health.circuitOpen && p.health.circuitOpenUntil == until && p.tier >= 1
    && (p.health.state.Healthy? || p.health.state.Degraded?
        || (p.health.state.Quarantined? && p.health.quarantinedUntil <= since))
  }

  /** The failure that opens the circuit leaves the model so, unless an older
      quarantine still runs. */
  lemma FailureTrips(p: Profile, err: ErrorCode, now: Time)
    requires Trips(p.health, now) && !err.DecommissionedError? && !err.RateLimitError? && p.tier >= 1
    ensures Tripped(p.(health := AfterFailure(p.health, err, now)), now, now + 30)
       <==> p.health.quarantinedUntil <= now
  {
  }

  lemma TrippedStep(p: Profile, since: Time, until: Time, now: Time, a: Attempt)
    requires Tripped(p, since, until) && since <= now && a.first < until
    ensures Eligible(p, now) && Tripped(Check(p, now), since, until)
    ensures Refusal(Check(p, now).health, a.first, a.second) == Some(CircuitOpenError)
    ensures !Succeeds(Check(p, now), a) && Attempted(Check(p, now), a) == Check(p, now)
  {
  }

  /** One request without a name: the tripped model is ranked, is not the one that
      answers, and is as tripped as before. */
  lemma TrippedRankedNotServed(ms: seq<Profile>, default: string, clock: nat -> Readings, world: World, k: nat, since: Time, until: Time)
    requires k < |ms| && Tripped(ms[k], since, until)
    requires since <= clock(0)(k) && world(k).first < until
    ensures var s := SmartSelection(ms, default, clock);
            var r := Route(ms, default, true, "", clock, world);
            && k in s.list && r.served != Some(k)
            && k < |r.models| && Tripped(r.models[k], since, until)
  {
    TrippedStep(ms[k], since, until, clock(0)(k), world(k));
    hide Tripped, Succeeds, Score, Distinct, Failover, SmartSelection, Eligible, Attempted;
    assert Taken(ms, clock(0), EVERY_ELIGIBLE, k) && ms[k].tier >= 1 by {
      TrippedTier(ms[k], since, until);
    }
    hide Taken;
    SelectionSound(ms, default, true, "", clock);
    SmartRanking(ms, default, clock);
    var s := SmartSelection(ms, default, clock);
    FailoverServesFirst(s.models, s.list, world);
  }

  lemma TrippedTier(p: Profile, since: Time, until: Time)
    requires Tripped(p, since, until)
    ensures p.tier >= 1
  {
  }

  datatype Request = Request(clock: nat -> Readings, world: World)

  /** The tables before each of a series of such requests, and after the last. */
  function Served(ms: seq<Profile>, default: string, rs: seq<Request>): (tables: seq<seq<Profile>>)
    ensures |tables| == |rs| + 1 && tables[0] == ms
    decreases |rs|
  {
    if rs == [] then [ms]
    else [ms] + Served(Route(ms, default, true, "", rs[0].clock, rs[0].world).models, default, rs[1..])
  }

  /** Until the circuit's deadline, every request of any series ranks the model
      and none is answered by it. */
  lemma {:induction false} TrippedModelStaysCandidate(ms: seq<Profile>, default: string, rs: seq<Request>, k: nat, since: Time, until: Time, i: nat)
    requires k < |ms| && Tripped(ms[k], since, until) && i < |rs|
    requires forall n :: 0 <= n < |rs| ==> since <= rs[n].clock(0)(k) && rs[n].world(k).first < until
    ensures var now := Served(ms, default, rs)[i];
            && k in SmartSelection(now, default, rs[i].clock).list
            && Route(now, default, true, "", rs[i].clock, rs[i].world).served != Some(k)
    decreases |rs|
  {
    hide Tripped, Route, SmartSelection;
    TrippedRankedNotServed(ms, default, rs[0].clock, rs[0].world, k, since, until);
    if i > 0 {
      var next := Route(ms, default, true, "", rs[0].clock, rs[0].world).models;
      TrippedModelStaysCandidate(next, default, rs[1..], k, since, until, i - 1);
      assert Served(ms, default, rs)[i] == Served(next, default, rs[1..])[i - 1];
      assert rs[1..][i - 1] == rs[i];
    }
  }
}
