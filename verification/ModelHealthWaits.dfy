/** How long a model of src/ai/prompt_router.c is left alone after each way an
    attempt can end, in seconds of the clock. */
module ModelHealthWaits {
  import opened CMachine
  import opened ModelHealth
  import opened ModelHealthRuns

  /** Some run of routing and sending contacts the model at `u`. */
  ghost predicate Reached(s: Sys, clock: Time, u: Time) {
    exists es :: RoutingOnly(es) && Run(s, clock, es) && u in Contacts(s, es)
  }

  /** Routing and sending can contact the model exactly from `d` on. */
  ghost predicate OpenFrom(s: Sys, clock: Time, d: Time) {
    forall u: Time :: u * 1000000 < TWO_64 ==> (Reached(s, clock, u) <==> u >= d)
  }

  ghost predicate NeverReached(s: Sys, clock: Time) {
    forall u: Time :: !Reached(s, clock, u)
  }

  /** What the gate of an idle model waits for. */
  ghost function Deadline(h: Health, clock: Time): Time {
    var d := if h.quarantinedUntil > clock then h.quarantinedUntil else clock;
    if h.circuitOpen && h.circuitOpenUntil > d then h.circuitOpenUntil else d
  }

  /** A model that nobody has retired, or one that is refused neither for its mark
      nor for its circuit. */
  ghost predicate Reachable(h: Health) {
    !h.state.Decommissioned? && (h.circuitOpen ==> !h.state.Disabled? && !h.state.MissingKey?)
  }

  lemma ContactAt(s: Sys, clock: Time, u: Time)
    requires !s.busy && Reachable(s.h) && 0 < clock && u >= Deadline(s.h, clock) && u * US_PER_S < TWO_64
    ensures Reached(s, clock, u)
  {
    var check, begin := Check(u), Begin(u, u);
    var es := [check, begin];
    var s1 := Step(s, check);
    assert Passes(s1, begin);
    assert es[1..] == [begin] && [begin][1..] == [];
    assert Run(s1, u, [begin]);
    assert Contacts(s1, [begin]) == [u] + Contacts(Step(s1, begin), []);
    assert Contacts(s, es) == [] + Contacts(s1, [begin]);
    assert u in Contacts(s, es);
  }

  lemma OpenFromDeadline(s: Sys, clock: Time)
    requires !s.busy && Reachable(s.h) && 0 < clock
    ensures OpenFrom(s, clock, Deadline(s.h, clock))
  {
    hide Reachable, Run, Contacts;
    var d := Deadline(s.h, clock);
    forall u: Time | u * 1000000 < TWO_64
      ensures Reached(s, clock, u) <==> u >= d
    {
      if u >= d {
        ContactAt(s, clock, u);
      }
      if Reached(s, clock, u) {
        var es :| RoutingOnly(es) && Run(s, clock, es) && u in Contacts(s, es);
        NoneBefore(s, clock, es);
      }
    }
  }

  lemma NoneBefore(s: Sys, clock: Time, es: seq<Event>)
    requires !s.busy && Run(s, clock, es)
    ensures forall u :: u in Contacts(s, es) ==> u >= Deadline(s.h, clock)
  {
    GuardedContacts(s, clock, es, Deadline(s.h, clock));
    NotEarlier(s, clock, es);
  }

  lemma {:induction false} NotEarlier(s: Sys, clock: Time, es: seq<Event>)
    requires Run(s, clock, es)
    ensures forall u :: u in Contacts(s, es) ==> u >= clock
    decreases |es|
  {
    hide Step, Passes;
    if es != [] {
      NotEarlier(Step(s, es[0]), EndOf(es[0]), es[1..]);
    }
  }

  /** An attempt can end at `t`. */
  ghost predicate CanEnd(s: Sys, clock: Time, t: Time) {
    Sound(s, clock) && Possible(s, clock, Finish(t, false, NoError))
  }

  /** A rate-limit error costs ten seconds, whatever the record held. */
  lemma RateLimitWait(s: Sys, clock: Time, t: Time)
    requires CanEnd(s, clock, t)
    ensures OpenFrom(Step(s, Finish(t, false, RateLimitError)), t, t + 10)
  {
    hide OpenFrom;
    OpenFromDeadline(Step(s, Finish(t, false, RateLimitError)), t);
  }

  /** An error that is neither a rate limit nor a decommissioning. */
  ghost predicate Plain(err: ErrorCode) {
    !err.RateLimitError? && !err.DecommissionedError?
  }

  /** The third failure within sixty seconds of the first. */
  ghost predicate ThirdInWindow(h: Health, t: Time) {
    h.windowStartUs != 0 && h.circuitFailures >= 2 && t * 1000000 - h.windowStartUs < 60000000
  }

  lemma WindowIs(h: Health, clock: Time, t: Time)
    requires h.windowStartUs <= clock * US_PER_S && clock <= t && t * US_PER_S < TWO_64
    ensures InWindow(h, t) <==> h.windowStartUs != 0 && t * 1000000 - h.windowStartUs < 60000000
  {
  }

  /** A plain failure costs thirty seconds if it is the third of its window, else
      sixty if it is not the first in a row, else nothing. */
  lemma FailureWait(s: Sys, clock: Time, t: Time, err: ErrorCode)
    requires CanEnd(s, clock, t) && Plain(err)
    ensures var s' := Step(s, Finish(t, false, err));
      if ThirdInWindow(s.h, t) then OpenFrom(s', t, t + 30)
      else if s.h.failures >= 1 then OpenFrom(s', t, t + 60)
      else if Reachable(s.h) then OpenFrom(s', t, t)
      else NeverReached(s', t)
  {
    hide OpenFrom, NeverReached;
    WindowIs(s.h, clock, t);
    Waits(Step(s, Finish(t, false, err)), t);
  }

  /** A success costs nothing, and the next attempt passes without a check before
      it; one that still reports a rate limit costs five seconds. */
  lemma SuccessWait(s: Sys, clock: Time, t: Time, err: ErrorCode)
    requires CanEnd(s, clock, t)
    ensures var s' := Step(s, Finish(t, true, err));
      if err.RateLimitError? then OpenFrom(s', t, t + 5)
      else if s.h.circuitOpen || !s.h.state.Decommissioned? then OpenFrom(s', t, t) && Passes(s', Begin(t, t))
      else NeverReached(s', t)
  {
    hide OpenFrom, NeverReached;
    Waits(Step(s, Finish(t, true, err)), t);
  }

  /** A decommissioning is for good as far as routing and sending go. */
  lemma DecommissionedWait(s: Sys, clock: Time, t: Time)
    requires CanEnd(s, clock, t)
    ensures NeverReached(Step(s, Finish(t, false, DecommissionedError)), t)
  {
    hide OpenFrom, NeverReached;
    Waits(Step(s, Finish(t, false, DecommissionedError)), t);
  }

  /** What a refusal says: the mark of a decommissioned model, else an open circuit,
      else a deadline still ahead at the second reading, else the rate limit. */
  lemma RefusalSays(h: Health, first: Time, second: Time)
    requires first <= second
    ensures var gone := h.state.Decommissioned?;
      var held := h.quarantinedUntil > first || h.circuitOpenUntil > first || h.state.RateLimited?
                  || h.state.Disabled? || h.state.MissingKey?;
      var r := Refusal(h, first, second);
      && (r == Some(DecommissionedError) <==> gone)
      && (r == Some(CircuitOpenError) <==> !gone && h.circuitOpen && held)
      && (r == Some(QuarantinedError) <==> !gone && !h.circuitOpen && h.quarantinedUntil > second)
      && (r == Some(RateLimitError) <==>
            !gone && !h.circuitOpen && h.quarantinedUntil <= second && h.state.RateLimited?)
      && (r.Some? ==> r.value in {DecommissionedError, CircuitOpenError, QuarantinedError, RateLimitError})
  {
  }

  lemma Waits(s: Sys, clock: Time)
    requires !s.busy && 0 < clock
    ensures if Reachable(s.h) then OpenFrom(s, clock, Deadline(s.h, clock)) else NeverReached(s, clock)
  {
    if Reachable(s.h) {
      OpenFromDeadline(s, clock);
    } else {
      forall es | RoutingOnly(es) && Run(s, clock, es)
        ensures Contacts(s, es) == []
      {
        NoContact(s, clock, es);
      }
    }
  }

  lemma {:induction false} NoContact(s: Sys, clock: Time, es: seq<Event>)
    requires !s.busy && !Reachable(s.h) && RoutingOnly(es) && Run(s, clock, es)
    ensures Contacts(s, es) == []
    decreases |es|
  {
    if es != [] {
      assert RoutingOnly(es[1..]);
      NoContact(Step(s, es[0]), EndOf(es[0]), es[1..]);
    }
  }

  // ------------------------------------------------------ failures in a row

  /** The record after a check, an attempt and a plain failure at `u`. */
  function FailedAgain(s: Sys, u: Time, err: ErrorCode): Sys {
    Step(Step(Step(s, Check(u)), Begin(u, u)), Finish(u, false, err))
  }

  /** A plain failure that follows another failure, rate limited or not, is the
      second in a row and costs sixty seconds, and one that follows a success or
      a served quarantine is the first and free; but for the third of a window,
      which costs thirty. */
  lemma NextFailureWait(s: Sys, clock: Time, t: Time, success: bool, end: ErrorCode, u: Time, err: ErrorCode)
    requires CanEnd(s, clock, t) && Plain(err) && (success ==> Plain(end))
    requires !end.DecommissionedError? && Reachable(s.h)
    requires t <= u && u * US_PER_S < TWO_64
    requires Reached(Step(s, Finish(t, success, end)), t, u)
    ensures var s' := Step(s, Finish(t, success, end));
      if ThirdInWindow(s'.h, u) then OpenFrom(FailedAgain(s', u, err), u, u + 30)
      else if success || s'.h.state.Quarantined? then OpenFrom(FailedAgain(s', u, err), u, u)
      else OpenFrom(FailedAgain(s', u, err), u, u + 60)
  {
    var s' := Step(s, Finish(t, success, end));
    SoundStep(s, clock, Finish(t, success, end));
    AfterWaiting(s', t, u);
    var s2 := Step(Step(s', Check(u)), Begin(u, u));
    hide OpenFrom, NeverReached, Reached;
    FailureWait(s2, u, u, err);
  }

  /** An attempt passes at any time at which the model can be contacted. */
  lemma AfterWaiting(s: Sys, clock: Time, u: Time)
    requires Sound(s, clock) && !s.busy && Reachable(s.h) && 0 < clock <= u && u * US_PER_S < TWO_64
    requires Reached(s, clock, u)
    ensures var s2 := Step(Step(s, Check(u)), Begin(u, u));
      && s2 == Sys(Checked(s.h, u).0, true) && CanEnd(s2, u, u)
      && u >= Deadline(s.h, clock)
  {
    var es :| RoutingOnly(es) && Run(s, clock, es) && u in Contacts(s, es);
    NoneBefore(s, clock, es);
  }

  // -------------------------------------------------- failures in a window

  datatype Attempt = Attempt(at: Time, success: bool) {
    function Error(): ErrorCode {
      if success then NoError else ApiFailure
    }
  }

  /** Attempts one after another, each of which ends as soon as it begins. */
  function Attempts(row: seq<Attempt>): seq<Event> {
    if row == [] then []
    else
      var a := row[0];
      [Begin(a.at, a.at), Finish(a.at, a.success, a.Error())] + Attempts(row[1..])
  }

  lemma AttemptStep(s: Sys, clock: Time, row: seq<Attempt>)
    requires row != [] && !s.busy && Passes(s, Begin(row[0].at, row[0].at))
    requires 0 < clock <= row[0].at && row[0].at * US_PER_S < TWO_64
    ensures var a, rest := row[0], Attempts(row[1..]);
      var s' := Sys(Updated(s.h, a.success, a.Error(), a.at), false);
      && (Run(s, clock, Attempts(row)) <==> Run(s', a.at, rest))
      && Final(s, Attempts(row)) == Final(s', rest)
      && Contacts(s, Attempts(row)) == [a.at] + Contacts(s', rest)
  {
    hide Updated;
    var es, rest := Attempts(row), Attempts(row[1..]);
    assert es[1..][1..] == rest;
    var mid := Step(s, es[0]);
    assert Contacts(mid, es[1..]) == [] + Contacts(Step(mid, es[1]), rest);
  }

  /** Failures at `t1`, `t2` and `t3`, with successes between them. */
  function Mixed(t1: Time, t2: Time, t3: Time): seq<Attempt> {
    [Attempt(t1, false), Attempt(t1, true), Attempt(t2, false), Attempt(t2, true), Attempt(t3, false)]
  }

  /** They open the circuit exactly if the third comes less than sixty seconds
      after the first; the model is then left alone for thirty seconds. */
  lemma ThreeFailuresIff(t1: Time, t2: Time, t3: Time)
    requires 0 < t1 <= t2 <= t3 && t3 * US_PER_S < TWO_64
    ensures var es := Attempts(Mixed(t1, t2, t3));
      && Run(START, t1, es) && Contacts(START, es) == [t1, t1, t2, t2, t3]
      && (Final(START, es).h.circuitOpen <==> t3 < t1 + 60)
      && OpenFrom(Final(START, es), t3, if t3 < t1 + 60 then t3 + 30 else t3)
  {
    hide Attempts, Run, Contacts, Final, OpenFrom, NeverReached, Updated, Passes;
    var r5 := [Attempt(t3, false)];
    var r4 := [Attempt(t2, true)] + r5;
    var r3 := [Attempt(t2, false)] + r4;
    var r2 := [Attempt(t1, true)] + r3;
    var r1 := [Attempt(t1, false)] + r2;
    assert r1 == Mixed(t1, t2, t3);
    var h1, h2, h3, h4 := MixedRecords(t1, t2, t3);
    var s5 := Sys(Updated(h4, false, ApiFailure, t3), false);
    NoMore(s5, t3);
    assert r5[1..] == [] && r4[1..] == r5 && r3[1..] == r4 && r2[1..] == r3 && r1[1..] == r2;
    AttemptStep(Sys(h4, false), t2, r5);
    AttemptStep(Sys(h3, false), t2, r4);
    AttemptStep(Sys(h2, false), t1, r3);
    AttemptStep(Sys(h1, false), t1, r2);
    AttemptStep(START, t1, r1);
    ThirdFailure(h4, t1, t2, t3);
  }

  /** The records along the way. */
  lemma MixedRecords(t1: Time, t2: Time, t3: Time) returns (h1: Health, h2: Health, h3: Health, h4: Health)
    requires 0 < t1 <= t2 <= t3 && t3 * US_PER_S < TWO_64
    ensures h1 == Updated(FRESH, false, ApiFailure, t1) && h2 == Updated(h1, true, NoError, t1)
    ensures h3 == Updated(h2, false, ApiFailure, t2) && h4 == Updated(h3, true, NoError, t2)
    ensures Passes(START, Begin(t1, t1)) && Passes(Sys(h1, false), Begin(t1, t1))
    ensures Passes(Sys(h2, false), Begin(t2, t2)) && Passes(Sys(h3, false), Begin(t2, t2))
    ensures Passes(Sys(h4, false), Begin(t3, t3))
    ensures MixedRecord(h4, t1, t2)
  {
    h1 := Health(Healthy, 1, 0, t1, 0, 0, false, 0, 1, t1 * US_PER_S);
    h2 := Health(Healthy, 0, 1, t1, t1, 0, false, 0, 1, t1 * US_PER_S);
    WindowIs(h2, t1, t2);
    h3 := Updated(h2, false, ApiFailure, t2);
    h4 := Updated(h3, true, NoError, t2);
  }

  /** After two failures, `t1` and `t2`, and two successes. */
  ghost predicate MixedRecord(h: Health, t1: Time, t2: Time) {
    && h.state == Healthy && h.quarantinedUntil == 0 && !h.circuitOpen && h.failures == 0
    && (if t2 < t1 + 60 then h.circuitFailures == 2 && h.windowStartUs == t1 * 1000000
        else h.circuitFailures == 1 && h.windowStartUs == t2 * 1000000)
  }

  lemma ThirdFailure(h: Health, t1: Time, t2: Time, t3: Time)
    requires 0 < t1 <= t2 <= t3 && t3 * US_PER_S < TWO_64 && MixedRecord(h, t1, t2)
    ensures var s := Sys(Updated(h, false, ApiFailure, t3), false);
      && (s.h.circuitOpen <==> t3 < t1 + 60)
      && OpenFrom(s, t3, if t3 < t1 + 60 then t3 + 30 else t3)
  {
    hide OpenFrom, NeverReached;
    WindowIs(h, t2, t3);
    Waits(Sys(Updated(h, false, ApiFailure, t3), false), t3);
  }

  lemma NoMore(s: Sys, clock: Time)
    ensures Run(s, clock, Attempts([])) && Contacts(s, Attempts([])) == [] && Final(s, Attempts([])) == s
  {
  }

  // ------------------------------------------------------ the pace is reached

  /** Two failures as soon as the quarantine is over. */
  function Round(t: Time): seq<Event> {
    var begin, failed := Begin(t, t), Finish(t, false, ApiFailure);
    [Check(t), begin, failed, begin, failed]
  }

  function Rounds(t: Time, n: nat): seq<Event>
    decreases n
  {
    if n == 0 then [] else Round(t) + Rounds(t + 60, n - 1)
  }

  function Pairs(t: Time, n: nat): (c: seq<Time>)
    ensures |c| == 2 * n
    ensures forall i :: 0 <= i < 2 * n ==> c[i] == t + i / 2 * 60
    decreases n
  {
    if n == 0 then [] else [t, t] + Pairs(t + 60, n - 1)
  }

  /** Before a round at `t`: fresh, or with a quarantine that ends then. */
  ghost predicate Due(s: Sys, t: Time) {
    && !s.busy && !s.h.circuitOpen && s.h.quarantinedUntil <= t
    && (s.h == FRESH
        || (s.h.state.Quarantined? && 0 < s.h.windowStartUs && s.h.windowStartUs + 60000000 <= t * 1000000))
  }

  lemma RoundRecord(s: Sys, t: Time) returns (s1: Sys, s2: Sys, s3: Sys, s4: Sys, s5: Sys)
    requires Due(s, t) && 0 < t && t * US_PER_S < TWO_64
    ensures var begin, failed := Begin(t, t), Finish(t, false, ApiFailure);
      && s1 == Step(s, Check(t)) && s2 == Step(s1, begin) && s3 == Step(s2, failed)
      && s4 == Step(s3, begin) && s5 == Step(s4, failed)
      && Passes(s1, begin) && Passes(s3, begin) && !s1.busy && s2.busy && !s3.busy && s4.busy
    ensures Due(s5, t + 60)
  {
    var begin, failed := Begin(t, t), Finish(t, false, ApiFailure);
    s1 := Step(s, Check(t));
    s2 := Step(s1, begin);
    if s.h != FRESH {
      WindowIs(s2.h, t, t);
    }
    s3 := Step(s2, failed);
    WindowIs(s3.h, t, t);
    s4 := Step(s3, begin);
    s5 := Step(s4, failed);
  }

  lemma RoundStep(s: Sys, clock: Time, t: Time, es: seq<Event>) returns (s': Sys)
    requires Due(s, t) && 0 < clock <= t && t * US_PER_S < TWO_64
    ensures Due(s', t + 60)
    ensures Run(s, clock, Round(t) + es) <==> Run(s', t, es)
    ensures Contacts(s, Round(t) + es) == [t, t] + Contacts(s', es)
  {
    var s1, s2, s3, s4, s5 := RoundRecord(s, t);
    s' := s5;
    hide Step, Passes, Due, Run, Contacts;
    var begin, failed := Begin(t, t), Finish(t, false, ApiFailure);
    assert Round(t) + es == [Check(t)] + ([begin] + ([failed] + ([begin] + ([failed] + es))));
    First(s4, t, failed, es);
    First(s3, t, begin, [failed] + es);
    First(s2, t, failed, [begin] + ([failed] + es));
    First(s1, t, begin, [failed] + ([begin] + ([failed] + es)));
    First(s, clock, Check(t), [begin] + ([failed] + ([begin] + ([failed] + es))));
    NoPass(s, Check(t));
    NoPass(s2, failed);
    NoPass(s4, failed);
  }

  lemma RoundFails(t: Time)
    ensures AllFailing(Round(t))
  {
  }

  lemma NoPass(s: Sys, e: Event)
    requires !e.Begin?
    ensures !Passes(s, e)
  {
  }

  lemma First(s: Sys, clock: Time, e: Event, es: seq<Event>)
    ensures Run(s, clock, [e] + es) <==> Possible(s, clock, e) && Run(Step(s, e), EndOf(e), es)
    ensures Contacts(s, [e] + es) == (if Passes(s, e) then [EndOf(e)] else []) + Contacts(Step(s, e), es)
  {
    assert ([e] + es)[1..] == es;
  }

  /** Two contacts a minute are reached, for any number of minutes: the second
      chance after a quarantine is a whole one. */
  lemma {:induction false} PaceReached(s: Sys, clock: Time, t: Time, n: nat)
    requires Due(s, t) && 0 < clock <= t && (t + 60 * n) * US_PER_S < TWO_64
    ensures Run(s, clock, Rounds(t, n)) && AllFailing(Rounds(t, n))
    ensures Contacts(s, Rounds(t, n)) == Pairs(t, n)
    decreases n
  {
    hide Round, Due;
    if n > 0 {
      var s' := RoundStep(s, clock, t, Rounds(t + 60, n - 1));
      PaceReached(s', t, t + 60, n - 1);
      RoundFails(t);
    }
  }

  // ------------------------------------------------------------ a lost key

  /** While its key is gone no check lets a model through. When the key is back
      it does from the old deadlines on, whatever mark the model had before: even
      a decommissioned one is eligible again. Having a key throughout changes
      nothing. */
  lemma KeyLostAndBack(h: Health, u: Time)
    ensures var lost, back := Reloaded(h, false), Reloaded(Reloaded(h, false), true);
      && lost == h.(state := MissingKey) && back == h.(state := Healthy)
      && Checked(lost, u) == (lost, false)
      && Checked(back, u) == (back, true)
      && (Usable(back, u) <==> u >= Deadline(h, 0))
      && (!h.state.MissingKey? ==> Reloaded(h, true) == h)
  {
  }
}
