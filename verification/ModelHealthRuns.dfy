/** Bounds over whole runs of the health record of src/ai/prompt_router.c. */
module ModelHealthRuns {
  import opened CMachine
  import opened ModelHealth

  /** One locked region each. An attempt holds the model's own lock from `Begin`
      to `Finish`; the other steps take the router's lock and may come between. */
  datatype Event =
    | Check(now: Time)
    | Begin(first: Time, second: Time)
    | Finish(now: Time, success: bool, err: ErrorCode)
    | SetState(now: Time, state: ModelState)
    | HotReload(now: Time, keySet: bool)

  /** `busy`: an attempt has passed the gate and has not been accounted for yet. */
  datatype Sys = Sys(h: Health, busy: bool)

  const START := Sys(FRESH, false)

  function StartOf(e: Event): Time {
    if e.Begin? then e.first else e.now
  }

  function EndOf(e: Event): Time {
    if e.Begin? then e.second else e.now
  }

  predicate Passes(s: Sys, e: Event) {
    e.Begin? && Refusal(s.h, e.first, e.second).None?
  }

  function Step(s: Sys, e: Event): Sys {
    match e
    case Check(now) => s.(h := Checked(s.h, now).0)
    case Begin(first, second) => if Passes(s, e) then s.(busy := true) else s
    case Finish(now, success, err) => Sys(Updated(s.h, success, err, now), false)
    case SetState(_, state) => s.(h := s.h.(state := state))
    case HotReload(_, keySet) => s.(h := Reloaded(s.h, keySet))
  }

  /** The lock allows the step, and the clock neither stands at zero, nor runs
      backwards, nor outgrows 64 bits of microseconds. */
  ghost predicate Possible(s: Sys, clock: Time, e: Event) {
    && 0 < clock <= StartOf(e) <= EndOf(e)
    && EndOf(e) * US_PER_S < TWO_64
    && (e.Begin? ==> !s.busy)
    && (e.Finish? ==> s.busy)
  }

  ghost predicate Run(s: Sys, clock: Time, es: seq<Event>)
    decreases |es|
  {
    es == [] || (Possible(s, clock, es[0]) && Run(Step(s, es[0]), EndOf(es[0]), es[1..]))
  }

  function Final(s: Sys, es: seq<Event>): Sys
    decreases |es|
  {
    if es == [] then s else Final(Step(s, es[0]), es[1..])
  }

  /** The times at which attempts passed the gate. */
  function Contacts(s: Sys, es: seq<Event>): seq<Time>
    decreases |es|
  {
    if es == [] then []
    else (if Passes(s, es[0]) then [EndOf(es[0])] else []) + Contacts(Step(s, es[0]), es[1..])
  }

  /** An attempt in flight began after every deadline then set. */
  ghost predicate Sound(s: Sys, clock: Time) {
    && s.h.windowStartUs <= clock * US_PER_S
    && (s.busy ==> s.h.quarantinedUntil <= clock && (s.h.circuitOpen ==> s.h.circuitOpenUntil <= clock))
  }

  lemma SoundStep(s: Sys, clock: Time, e: Event)
    requires Sound(s, clock) && Possible(s, clock, e)
    ensures Sound(Step(s, e), EndOf(e))
  {
  }

  // ------------------------------------------------ deadlines are respected

  /** No later step undercuts the deadline `d`. */
  ghost predicate Guarded(s: Sys, clock: Time, d: Time) {
    d <= clock || (!s.busy && (s.h.quarantinedUntil >= d || (s.h.circuitOpen && s.h.circuitOpenUntil >= d)))
  }

  lemma {:induction false} GuardedContacts(s: Sys, clock: Time, es: seq<Event>, d: Time)
    requires Run(s, clock, es) && Guarded(s, clock, d)
    ensures forall k :: 0 <= k < |Contacts(s, es)| ==> Contacts(s, es)[k] >= d
    decreases |es|
  {
    if es != [] {
      GuardedContacts(Step(s, es[0]), EndOf(es[0]), es[1..], d);
    }
  }

  lemma DeadlinesKept(s: Sys, clock: Time, es: seq<Event>)
    requires Sound(s, clock) && Run(s, clock, es)
    ensures forall k :: 0 <= k < |Contacts(s, es)| ==>
              && Contacts(s, es)[k] >= s.h.quarantinedUntil
              && (s.h.circuitOpen ==> Contacts(s, es)[k] >= s.h.circuitOpenUntil)
  {
    GuardedContacts(s, clock, es, s.h.quarantinedUntil);
    if s.h.circuitOpen {
      GuardedContacts(s, clock, es, s.h.circuitOpenUntil);
    }
  }

  /** The clock after a run. */
  function ClockAfter(clock: Time, es: seq<Event>): Time {
    if es == [] then clock else EndOf(es[|es| - 1])
  }

  lemma {:induction false} SoundRun(s: Sys, clock: Time, es: seq<Event>)
    requires Sound(s, clock) && Run(s, clock, es)
    ensures Sound(Final(s, es), ClockAfter(clock, es))
    decreases |es|
  {
    hide Step, Sound, Possible;
    if es != [] {
      SoundStep(s, clock, es[0]);
      SoundRun(Step(s, es[0]), EndOf(es[0]), es[1..]);
    }
  }

  /** Whatever a model has gone through, and under every later step, administrative
      ones included, no attempt goes out before the quarantine deadline then set or
      before the deadline of a circuit then open. */
  lemma DeadlinesRespected(clock: Time, past: seq<Event>, es: seq<Event>)
    requires Run(START, clock, past)
    requires Run(Final(START, past), ClockAfter(clock, past), es)
    ensures var s := Final(START, past);
      forall k :: 0 <= k < |Contacts(s, es)| ==>
        && Contacts(s, es)[k] >= s.h.quarantinedUntil
        && (s.h.circuitOpen ==> Contacts(s, es)[k] >= s.h.circuitOpenUntil)
  {
    SoundRun(START, clock, past);
    DeadlinesKept(Final(START, past), ClockAfter(clock, past), es);
  }

  // ---------------------------------------------------- decommissioned models

  /** Routing and sending only: no administrative step. */
  ghost predicate RoutingOnly(es: seq<Event>) {
    forall i :: 0 <= i < |es| ==> !es[i].SetState? && !es[i].HotReload?
  }

  lemma {:induction false} IdleDecommissionedStays(s: Sys, clock: Time, es: seq<Event>)
    requires s.h.state.Decommissioned? && !s.busy
    requires RoutingOnly(es) && Run(s, clock, es)
    ensures Contacts(s, es) == []
    decreases |es|
  {
    if es != [] {
      assert RoutingOnly(es[1..]);
      IdleDecommissionedStays(Step(s, es[0]), EndOf(es[0]), es[1..]);
    }
  }

  lemma OneMore(s: Sys, e: Event, es: seq<Event>)
    ensures Contacts(s, [e] + es)
         == (if Passes(s, e) then [EndOf(e)] else []) + Contacts(Step(s, e), es)
  {
    assert ([e] + es)[1..] == es;
  }

  /** An attempt still in flight overwrites the mark when it ends rate limited. */
  lemma InFlightRevives(s: Sys, clock: Time) returns (es: seq<Event>)
    requires s.busy && Sound(s, clock) && 0 < clock && (clock + 10) * US_PER_S < TWO_64
    ensures RoutingOnly(es) && Run(s, clock, es) && Contacts(s, es) != []
  {
    var finish, check := Finish(clock, false, RateLimitError), Check(clock + 10);
    var begin := Begin(clock + 10, clock + 10);
    var s1 := Step(s, finish);
    var s2 := Step(s1, check);
    assert s2.h.state == Healthy && Passes(s2, begin);
    es := [finish, check, begin];
    assert es[1..] == [check, begin] && es[1..][1..] == [begin] && es[1..][1..][1..] == [];
    assert Run(s2, clock + 10, [begin]);
    assert Run(s1, clock, [check, begin]);
    OneMore(s2, begin, []);
    OneMore(s1, check, [begin]);
  }

  /** A model marked DECOMMISSIONED is never contacted again by routing and
      sending exactly when no attempt was in flight. */
  lemma DecommissionedIffIdle(s: Sys, clock: Time)
    requires s.h.state.Decommissioned?
    requires Sound(s, clock) && 0 < clock && (clock + 10) * US_PER_S < TWO_64
    ensures (forall es :: RoutingOnly(es) && Run(s, clock, es) ==> Contacts(s, es) == []) <==> !s.busy
  {
    if s.busy {
      var es := InFlightRevives(s, clock);
    } else {
      forall es | RoutingOnly(es) && Run(s, clock, es) ensures Contacts(s, es) == [] {
        IdleDecommissionedStays(s, clock, es);
      }
    }
  }

  // ------------------------------------------------ pace of a failing model

  /** Eligibility checks and attempts that all fail, none of them reported as
      rate limited or decommissioned. */
  ghost predicate Failing(e: Event) {
    match e
    case Check(_) => true
    case Begin(_, _) => true
    case Finish(_, success, err) => !success && !err.RateLimitError? && !err.DecommissionedError?
    case _ => false
  }

  ghost predicate AllFailing(es: seq<Event>) {
    forall i :: 0 <= i < |es| ==> Failing(es[i])
  }

  ghost predicate Spaced(c: seq<Time>) {
    forall k :: 0 <= k < |c| - 2 ==> c[k + 2] >= c[k] + 60
  }

  /** The contact `back` places before the end of `past`, or a minute before time began. */
  ghost function Back(past: seq<Time>, back: nat): int {
    if 0 < back <= |past| then past[|past| - back] else -QUARANTINE_DURATION
  }

  /** The contacts already accounted for. */
  ghost function Settled(s: Sys, past: seq<Time>): seq<Time> {
    if s.busy && past != [] then past[..|past| - 1] else past
  }

  /** What keeps a failing model's contacts apart. With exactly one fresh failure
      the quarantine deadline is a minute after the contact before last, otherwise
      a minute after the last; and unless that one failure is also the only one of
      its window, the window ends before the quarantine does. */
  ghost predicate Paced(s: Sys, past: seq<Time>, clock: Time) {
    && Sound(s, clock) && Spaced(past)
    && Ascending(past)
    && (forall k :: 0 <= k < |past| ==> past[k] <= clock)
    && (s.busy ==> past != [] && past[|past| - 1] >= s.h.quarantinedUntil)
    && (s.h.state == Healthy || s.h.state == Quarantined)
    && (s.h.state == Quarantined ==> s.h.failures >= 2)
    && !s.h.circuitOpen && s.h.circuitFailures <= 2
    && (s.h.windowStartUs == 0 ==> s.h.failures == 0 && Settled(s, past) == [])
    && s.h.quarantinedUntil >= Back(Settled(s, past), if s.h.failures == 1 then 2 else 1) + QUARANTINE_DURATION
    && (s.h.windowStartUs != 0 && (s.h.failures != 1 || s.h.circuitFailures >= 2) ==>
          s.h.quarantinedUntil * US_PER_S >= s.h.windowStartUs + CIRCUIT_WINDOW_US)
  }

  function Extended(s: Sys, past: seq<Time>, e: Event): seq<Time> {
    if Passes(s, e) then past + [EndOf(e)] else past
  }

  lemma PacedBegin(s: Sys, past: seq<Time>, clock: Time, e: Event)
    requires Paced(s, past, clock) && Possible(s, clock, e) && e.Begin?
    ensures Paced(Step(s, e), Extended(s, past, e), EndOf(e))
  {
    var t := EndOf(e);
    if Passes(s, e) {
      GateWaits(s.h, e.first, e.second);
      Begun(s, past, clock, t);
    } else {
      Waited(s, past, clock, t);
    }
  }

  lemma GateWaits(h: Health, first: Time, second: Time)
    requires first <= second && Refusal(h, first, second).None? && !h.circuitOpen
    ensures h.quarantinedUntil <= second
  {
  }

  lemma Waited(s: Sys, past: seq<Time>, clock: Time, t: Time)
    requires Paced(s, past, clock) && clock <= t
    ensures Paced(s, past, t)
  {
    hide Spaced, Ascending, Settled, Back;
  }

  lemma Begun(s: Sys, past: seq<Time>, clock: Time, t: Time)
    requires Paced(s, past, clock) && clock <= t && !s.busy && s.h.quarantinedUntil <= t
    ensures Paced(s.(busy := true), past + [t], t)
  {
    hide Spaced, Ascending, Back, Settled;
    SettledBegun(s, past, t);
    BackOnce(past);
    SpacedExtended(past, t);
  }

  lemma SettledBegun(s: Sys, past: seq<Time>, t: Time)
    requires !s.busy
    ensures Settled(s, past) == Settled(s.(busy := true), past + [t]) == past
  {
  }

  /** A gate that has opened is past the last deadline, and with it a minute past
      the contact before last. */
  lemma SpacedExtended(past: seq<Time>, t: Time)
    requires Spaced(past) && Ascending(past)
    requires forall k :: 0 <= k < |past| ==> past[k] <= t
    requires |past| >= 2 ==> t >= past[|past| - 2] + QUARANTINE_DURATION
    ensures Spaced(past + [t]) && Ascending(past + [t])
  {
  }

  lemma BackOnce(past: seq<Time>)
    requires Ascending(past)
    ensures Back(past, 2) <= Back(past, 1)
    ensures |past| >= 2 ==> Back(past, 2) == past[|past| - 2]
  {
  }

  lemma PacedFinish(s: Sys, past: seq<Time>, clock: Time, e: Event)
    requires Paced(s, past, clock) && Possible(s, clock, e) && Failing(e) && e.Finish?
    ensures Paced(Step(s, e), past, EndOf(e))
  {
    var s' := Step(s, e);
    assert Settled(s', past) == past && Settled(s, past) == past[..|past| - 1];
    assert Back(past, 2) == Back(Settled(s, past), 1);
    assert !InWindow(s.h, e.now) || (s.h.failures == 1 && s.h.circuitFailures <= 1);
  }

  lemma PacedStep(s: Sys, past: seq<Time>, clock: Time, e: Event)
    requires Paced(s, past, clock) && Possible(s, clock, e) && Failing(e)
    ensures Paced(Step(s, e), Extended(s, past, e), EndOf(e))
  {
    if e.Begin? {
      PacedBegin(s, past, clock, e);
    } else if e.Finish? {
      PacedFinish(s, past, clock, e);
    }
  }

  ghost predicate Ascending(c: seq<Time>) {
    forall i, j :: 0 <= i <= j < |c| ==> c[i] <= c[j]
  }

  lemma PacedBase(s: Sys, past: seq<Time>, clock: Time)
    requires Paced(s, past, clock)
    ensures Spaced(past) && Ascending(past) && !s.h.circuitOpen
  {
  }

  lemma {:induction false} PacedRun(s: Sys, past: seq<Time>, clock: Time, es: seq<Event>)
    requires Paced(s, past, clock) && Run(s, clock, es) && AllFailing(es)
    ensures Spaced(past + Contacts(s, es)) && Ascending(past + Contacts(s, es))
    ensures !Final(s, es).h.circuitOpen
    decreases |es|
  {
    hide Paced, Step, Passes, Possible, Spaced, Ascending, Failing;
    if es == [] {
      PacedBase(s, past, clock);
      assert past + Contacts(s, es) == past;
    } else {
      PacedStep(s, past, clock, es[0]);
      PacedRun(Step(s, es[0]), Extended(s, past, es[0]), EndOf(es[0]), es[1..]);
      assert past + Contacts(s, es) == Extended(s, past, es[0]) + Contacts(Step(s, es[0]), es[1..]);
    }
  }

  /** A model that only fails is contacted at most twice in any minute, and its
      circuit never opens: the quarantine always outlasts the failure window. */
  lemma FailingModelPaced(clock: Time, es: seq<Event>)
    requires Run(START, clock, es) && AllFailing(es)
    ensures Spaced(Contacts(START, es))
    ensures !Final(START, es).h.circuitOpen
  {
    PacedRun(START, [], clock, es);
    assert [] + Contacts(START, es) == Contacts(START, es);
  }

  lemma {:induction false} SpacedPairs(c: seq<Time>, i: nat, j: nat)
    requires Spaced(c) && Ascending(c) && i <= j < |c|
    ensures c[j] >= c[i] + (j - i) / 2 * 60
    decreases j - i
  {
    if j - i >= 2 {
      SpacedPairs(c, i + 2, j);
      assert (j - i) / 2 == (j - (i + 2)) / 2 + 1;
    }
  }

  /** So the contacts numbered `i` to `j` that fall into `t` seconds are at most
      2 * (t / 60 + 1). */
  lemma FailingModelRate(clock: Time, es: seq<Event>, i: nat, j: nat, t: nat)
    requires Run(START, clock, es) && AllFailing(es)
    requires i <= j < |Contacts(START, es)| && Contacts(START, es)[j] - Contacts(START, es)[i] <= t
    ensures j - i + 1 <= 2 * (t / 60 + 1)
  {
    var c := Contacts(START, es);
    PacedRun(START, [], clock, es);
    assert [] + c == c;
    SpacedPairs(c, i, j);
    assert (j - i) / 2 <= t / 60;
  }

  // ------------------------------------------------- how the circuit opens

  /** An administrative step that takes a model out of DECOMMISSIONED. */
  ghost predicate Revives(s: Sys, e: Event) {
    s.h.state.Decommissioned? && !s.busy && !Step(s, e).h.state.Decommissioned?
  }

  ghost predicate RateLimits(e: Event) {
    e.Finish? && e.err.RateLimitError?
  }

  /** No rate-limit error is reported and no decommissioned model is revived. */
  ghost predicate Undisturbed(s: Sys, es: seq<Event>)
    decreases |es|
  {
    es == [] || (!RateLimits(es[0]) && !Revives(s, es[0]) && Undisturbed(Step(s, es[0]), es[1..]))
  }

  /** Three failures in a row can still fall into one failure window: two have, and
      the model can be tried again before the window ends. */
  ghost predicate Ripe(s: Sys, clock: Time) {
    && !s.h.circuitOpen && s.h.failures >= 2
    && s.h.windowStartUs != 0 && s.h.circuitFailures >= 2
    && (s.h.state.Decommissioned? ==> s.busy)
    && clock * US_PER_S < s.h.windowStartUs + CIRCUIT_WINDOW_US
    && s.h.quarantinedUntil * US_PER_S < s.h.windowStartUs + CIRCUIT_WINDOW_US
  }

  /** The step opens the circuit on the third failure in a row or a later one. */
  ghost predicate OpensLate(s: Sys, e: Event) {
    !s.h.circuitOpen && Step(s, e).h.circuitOpen && Step(s, e).h.failures >= 3
  }

  lemma UnripeStep(s: Sys, clock: Time, e: Event)
    requires Sound(s, clock) && !Ripe(s, clock) && Possible(s, clock, e)
    requires !RateLimits(e) && !Revives(s, e)
    ensures !Ripe(Step(s, e), EndOf(e)) && !OpensLate(s, e)
  {
  }

  lemma {:induction false} UnripeRun(s: Sys, clock: Time, es: seq<Event>)
    requires Sound(s, clock) && !Ripe(s, clock) && Run(s, clock, es) && Undisturbed(s, es)
    ensures Sound(Final(s, es), ClockAfter(clock, es)) && !Ripe(Final(s, es), ClockAfter(clock, es))
    decreases |es|
  {
    hide Step, Sound, Ripe, Possible;
    if es != [] {
      SoundStep(s, clock, es[0]);
      UnripeStep(s, clock, es[0]);
      UnripeRun(Step(s, es[0]), EndOf(es[0]), es[1..]);
    }
  }

  /** An undisturbed continuation whose last step opens the circuit late. */
  ghost predicate LateRun(s: Sys, clock: Time, es: seq<Event>, e: Event) {
    && Run(s, clock, es) && Undisturbed(s, es)
    && Possible(Final(s, es), ClockAfter(clock, es), e)
    && !RateLimits(e) && !Revives(Final(s, es), e)
    && OpensLate(Final(s, es), e)
  }

  /** The quickest way there: wait for the quarantine, try, and fail. */
  lemma RipeOpensLate(s: Sys, clock: Time) returns (es: seq<Event>, e: Event)
    requires Sound(s, clock) && Ripe(s, clock) && 0 < clock && (clock + 60) * US_PER_S < TWO_64
    ensures LateRun(s, clock, es, e)
  {
    var t := if clock < s.h.quarantinedUntil then s.h.quarantinedUntil else clock;
    e := Finish(t, false, ApiFailure);
    if s.busy {
      es := [];
    } else {
      var begin := Begin(t, t);
      assert [begin][1..] == [];
      if s.h.state.RateLimited? {
        es := [Check(t), begin];
        assert es[1..] == [begin];
        var s1 := Step(s, Check(t));
        assert Passes(s1, begin) && Step(s1, begin) == s1.(busy := true);
        assert Run(s1, t, [begin]) && Undisturbed(s1, [begin]);
        assert Final(s1, [begin]) == Final(s1.(busy := true), []);
      } else {
        es := [begin];
        assert Final(s, es) == s.(busy := true);
      }
    }
  }

  /** From a state that a run can reach, some undisturbed continuation opens the
      circuit on the third failure in a row or later exactly if the state is ripe. */
  lemma OpensLateIffRipe(s: Sys, clock: Time)
    requires Sound(s, clock) && 0 < clock && (clock + 60) * US_PER_S < TWO_64
    ensures (exists es, e :: LateRun(s, clock, es, e)) <==> Ripe(s, clock)
  {
    if Ripe(s, clock) {
      var es, e := RipeOpensLate(s, clock);
    } else {
      forall es, e
        ensures !LateRun(s, clock, es, e)
      {
        if LateRun(s, clock, es, e) {
          UnripeRun(s, clock, es);
          UnripeStep(Final(s, es), ClockAfter(clock, es), e);
        }
      }
    }
  }

  /** A fresh model is not ripe, so whenever the circuit opens in an undisturbed
      run, it is on the first or the second failure in a row. */
  lemma CircuitOpensEarly(clock: Time, es: seq<Event>, e: Event)
    requires 0 < clock && Run(START, clock, es) && Undisturbed(START, es)
    requires Possible(Final(START, es), ClockAfter(clock, es), e)
    requires !RateLimits(e) && !Revives(Final(START, es), e)
    ensures var s := Final(START, es);
      !s.h.circuitOpen && Step(s, e).h.circuitOpen ==> 1 <= Step(s, e).h.failures <= 2
  {
    UnripeRun(START, clock, es);
    UnripeStep(Final(START, es), ClockAfter(clock, es), e);
  }

  lemma {:induction false} Append(s: Sys, clock: Time, es: seq<Event>, e: Event)
    requires Run(s, clock, es) && Possible(Final(s, es), ClockAfter(clock, es), e)
    ensures Run(s, clock, es + [e])
    ensures Final(s, es + [e]) == Step(Final(s, es), e)
    decreases |es|
  {
    if es == [] {
      assert [e][1..] == [];
    } else {
      Append(Step(s, es[0]), EndOf(es[0]), es[1..], e);
      assert (es + [e])[1..] == es[1..] + [e];
    }
  }

  /** One step of a run under construction. */
  lemma Then(es: seq<Event>, e: Event) returns (es': seq<Event>, s: Sys)
    requires Run(START, 1, es) && Possible(Final(START, es), ClockAfter(1, es), e)
    ensures es' == es + [e] && Run(START, 1, es') && ClockAfter(1, es') == EndOf(e)
    ensures s == Final(START, es') == Step(Final(START, es), e)
  {
    Append(START, 1, es, e);
    es', s := es + [e], Final(START, es + [e]);
  }

  /** Two failures in one window with a success between them. */
  lemma TwoFailures() returns (es: seq<Event>, s: Sys)
    ensures Run(START, 1, es) && ClockAfter(1, es) == 1 && s == Final(START, es)
    ensures s == Sys(Health(Healthy, 1, 0, 1, 1, 0, false, 0, 2, US_PER_S), false)
  {
    var begin, failed := Begin(1, 1), Finish(1, false, ApiFailure);
    es, s := Then([], begin);
    es, s := Then(es, failed);
    es, s := Then(es, begin);
    es, s := Then(es, Finish(1, true, NoError));
    es, s := Then(es, begin);
    es, s := Then(es, failed);
  }

  /** Either disturbance alone makes a model ripe: a rate-limit error, whose ten
      seconds replace the minute of quarantine, or a decommissioning that is
      taken back. */
  lemma DisturbedCircuitOpensLate(err: ErrorCode) returns (es: seq<Event>, late: seq<Event>, e: Event)
    requires err == RateLimitError || err == DecommissionedError
    ensures Run(START, 1, es) && Ripe(Final(START, es), ClockAfter(1, es))
    ensures LateRun(Final(START, es), ClockAfter(1, es), late, e)
  {
    var s: Sys;
    es, s := TwoFailures();
    es, s := Then(es, Begin(1, 1));
    es, s := Then(es, Finish(1, false, err));
    es, s := Then(es, if err == RateLimitError then Check(11) else SetState(11, Healthy));
    late, e := RipeOpensLate(s, 11);
  }

  // ------------------------------------------------------------ half-open probe

  /** Whether the next attempt at an open circuit goes out. */
  lemma ProbePassesIff(s: Sys, first: Time, second: Time)
    requires s.h.circuitOpen && first <= second
    ensures Passes(s, Begin(first, second)) <==>
      && s.h.quarantinedUntil <= first && s.h.circuitOpenUntil <= first
      && (s.h.state.Healthy? || s.h.state.Degraded? || s.h.state.Quarantined?)
  {
  }

  /** Once its deadlines have passed, a model with an open circuit gets a probe.
      One success restores it: whatever it went through, it then behaves in every
      run as a fresh model, failures in a row and windows included. */
  lemma {:induction false} ProbeRestores(s: Sys, finish: Time, es: seq<Event>)
    requires s.h.circuitOpen && s.busy && Possible(s, 1, Finish(finish, true, NoError))
    ensures var restored := Step(s, Finish(finish, true, NoError));
      && (Run(restored, finish, es) <==> Run(START, finish, es))
      && Contacts(restored, es) == Contacts(START, es)
      && SameConduct(Final(restored, es), Final(START, es))
  {
    SameRun(Step(s, Finish(finish, true, NoError)), START, finish, es);
  }

  /** Equal up to what is only counted or noted. */
  ghost predicate SameConduct(a: Sys, b: Sys) {
    && a.busy == b.busy
    && SameHealth(a.h, b.h)
  }

  lemma SameStep(a: Sys, b: Sys, clock: Time, e: Event)
    requires SameConduct(a, b)
    ensures SameConduct(Step(a, e), Step(b, e))
    ensures Passes(a, e) == Passes(b, e) && (Possible(a, clock, e) <==> Possible(b, clock, e))
  {
    match e {
      case Finish(now, success, err) =>
        SameUpdate(a.h, b.h, success, err, now);
      case _ =>
        hide AfterSuccess, AfterFailure;
    }
  }

  ghost predicate SameHealth(a: Health, b: Health) {
    a.(successes := 0, lastFailure := 0, lastSuccess := 0) == b.(successes := 0, lastFailure := 0, lastSuccess := 0)
  }

  lemma SameUpdate(a: Health, b: Health, success: bool, err: ErrorCode, now: Time)
    requires SameHealth(a, b)
    ensures SameHealth(Updated(a, success, err, now), Updated(b, success, err, now))
  {
    hide Wrap64;
  }

  lemma {:induction false} SameRun(a: Sys, b: Sys, clock: Time, es: seq<Event>)
    requires SameConduct(a, b)
    ensures Run(a, clock, es) <==> Run(b, clock, es)
    ensures Contacts(a, es) == Contacts(b, es) && SameConduct(Final(a, es), Final(b, es))
    decreases |es|
  {
    hide SameConduct, Step, Passes, Possible;
    if es != [] {
      SameStep(a, b, clock, es[0]);
      SameRun(Step(a, es[0]), Step(b, es[0]), EndOf(es[0]), es[1..]);
    }
  }
}
