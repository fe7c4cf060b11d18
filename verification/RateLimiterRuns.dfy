/** What the rate limiter of src/ratelimiter.c promises over whole runs of calls:
    keys do not disturb each other, and the cost and the number of requests
    admitted for one key in any interval of time are bounded. */
module RateLimiterRuns {
  import opened CMachine
  import opened RateLimiting

  datatype Call = Call(key: Key, now: U64, cost: U64)

  /** The clock never runs backwards. */
  ghost predicate Timely(calls: seq<Call>) {
    forall i, j :: 0 <= i < j < |calls| ==> calls[i].now <= calls[j].now
  }

  /** The answers of the limiter to a sequence of calls. */
  function Decisions(c: Config, t: Table, calls: seq<Call>): (ds: seq<bool>)
    ensures |ds| == |calls|
    decreases |calls|
  {
    if calls == [] then []
    else
      var (t', ok) := TableStep(c, t, calls[0].key, calls[0].now, calls[0].cost);
      [ok] + Decisions(c, t', calls[1..])
  }

  /** The cost admitted for `key` by the calls made at times from `s` to `e`. */
  function Admitted(calls: seq<Call>, ds: seq<bool>, key: Key, s: nat, e: nat): nat
    requires |ds| == |calls|
  {
    if calls == [] then 0
    else
      (if ds[0] && calls[0].key == key && s <= calls[0].now <= e then calls[0].cost else 0)
      + Admitted(calls[1..], ds[1..], key, s, e)
  }

  /** The number of requests admitted for `key` at times from `s` to `e`. */
  function AdmittedCount(calls: seq<Call>, ds: seq<bool>, key: Key, s: nat, e: nat): nat
    requires |ds| == |calls|
  {
    if calls == [] then 0
    else
      (if ds[0] && calls[0].key == key && s <= calls[0].now <= e then 1 else 0)
      + AdmittedCount(calls[1..], ds[1..], key, s, e)
  }

  // ----------------------------------------------------------- key isolation

  ghost predicate Fits(key: Key) {
    |key| <= KEY_CAPACITY
  }

  /** `caller` is stored, cut off, as `key` and in the same chain. */
  ghost predicate Aliases(caller: Key, key: Key) {
    caller != key && StoredKey(caller) == key && Slot(caller) == Slot(key)
  }

  /** The key fits, and no caller of the run is stored under it. */
  ghost predicate Unaliased(calls: seq<Call>, key: Key) {
    Fits(key) && forall i :: 0 <= i < |calls| ==> !Aliases(calls[i].key, key)
  }

  /** Keys that leave a byte of the array unused have no aliases. */
  lemma ShortKeysUnaliased(calls: seq<Call>, key: Key)
    requires |key| < KEY_CAPACITY
    ensures Unaliased(calls, key)
  {
  }

  /** A call steps the bucket of its own key, and no other key's bucket unless
      it is stored under that key, whatever chains they share. */
  lemma StepLookup(c: Config, t: Table, caller: Key, now: U64, cost: U64, key: Key)
    requires Fits(key) && !Aliases(caller, key)
    ensures var (t', ok) := TableStep(c, t, caller, now, cost);
      if caller == key then (Lookup(t', key), ok) == BucketStep(c, Lookup(t, key), now, cost)
      else Lookup(t', key) == Lookup(t, key)
  {
    hide Refilled, Rolled, Slot, FindKey;
    var chain := t[Slot(caller)];
    var chain' := ChainStep(c, chain, caller, now, cost).0;
    var j := FindKey(chain, caller);
    if j < |chain| {
      FindKeyUnique(chain', caller, j);
      SameKeys(chain, chain', key);
    } else if cost <= c.bucketSize {
      FindInFront(chain'[0], chain, key);
    }
  }

  lemma FindInFront(e: Entry, chain: Chain, key: Key)
    ensures FindKey([e] + chain, key) == if e.key == key then 0 else 1 + FindKey(chain, key)
  {
    assert ([e] + chain)[1..] == chain;
  }

  lemma SameKeys(a: Chain, b: Chain, key: Key)
    requires |a| == |b| && forall i :: 0 <= i < |a| ==> a[i].key == b[i].key
    ensures FindKey(a, key) == FindKey(b, key)
  {
    FindKeyUnique(b, key, FindKey(a, key));
  }

  /** The calls made with one key, in order. */
  function Own(calls: seq<Call>, key: Key): (own: seq<Call>)
    ensures forall i :: 0 <= i < |own| ==> own[i].key == key
  {
    if calls == [] then []
    else (if calls[0].key == key then [calls[0]] else []) + Own(calls[1..], key)
  }

  /** The answers given to those calls. */
  function OwnDecisions(calls: seq<Call>, ds: seq<bool>, key: Key): (own: seq<bool>)
    requires |ds| == |calls|
    ensures |own| == |Own(calls, key)|
  {
    if calls == [] then []
    else (if calls[0].key == key then [ds[0]] else []) + OwnDecisions(calls[1..], ds[1..], key)
  }

  /** A single bucket served on its own. */
  function Alone(c: Config, b: Option<Bucket>, calls: seq<Call>): (ds: seq<bool>)
    ensures |ds| == |calls|
    decreases |calls|
  {
    if calls == [] then []
    else
      var (b', ok) := BucketStep(c, b, calls[0].now, calls[0].cost);
      [ok] + Alone(c, b', calls[1..])
  }

  /** In an interleaved run over any keys the answers for a key that nobody else
      is stored under are those its own calls would get alone: the hash chains
      refine a map from key to bucket. */
  lemma {:induction false} KeyIsolation(c: Config, t: Table, calls: seq<Call>, key: Key)
    requires Unaliased(calls, key)
    ensures OwnDecisions(calls, Decisions(c, t, calls), key) == Alone(c, Lookup(t, key), Own(calls, key))
    decreases |calls|
  {
    hide TableStep, BucketStep, Lookup;
    if calls != [] {
      var call, rest := calls[0], calls[1..];
      var (t', ok) := TableStep(c, t, call.key, call.now, call.cost);
      StepLookup(c, t, call.key, call.now, call.cost, key);
      KeyIsolation(c, t', rest, key);
      assert Decisions(c, t, calls)[1..] == Decisions(c, t', rest);
      if call.key == key {
        assert Own(calls, key)[1..] == Own(rest, key);
      } else {
        assert Own(calls, key) == Own(rest, key);
      }
    }
  }

  /** A key that does not fit is never found again: every call inserts a fresh,
      full bucket, so each call whose cost fits the bucket is admitted. */
  lemma {:induction false} OverlongKeyNeverLimited(c: Config, t: Table, calls: seq<Call>, key: Key)
    requires !Fits(key)
    requires FindKey(t[Slot(key)], key) == |t[Slot(key)]|
    requires forall i :: 0 <= i < |calls| ==> calls[i].key == key
    ensures forall i :: 0 <= i < |calls| ==> (Decisions(c, t, calls)[i] <==> calls[i].cost <= c.bucketSize)
    decreases |calls|
  {
    hide TableStep, Slot, FindKey;
    if calls != [] {
      var rest := calls[1..];
      var (t', ok) := TableStep(c, t, key, calls[0].now, calls[0].cost);
      OverlongKeyMissesAgain(c, t, key, calls[0].now, calls[0].cost);
      OverlongKeyNeverLimited(c, t', rest, key);
      forall i | 0 < i < |calls|
        ensures Decisions(c, t, calls)[i] <==> calls[i].cost <= c.bucketSize
      {
        assert calls[i] == rest[i - 1] && Decisions(c, t, calls)[i] == Decisions(c, t', rest)[i - 1];
      }
    }
  }

  lemma OverlongKeyMissesAgain(c: Config, t: Table, key: Key, now: U64, cost: U64)
    requires !Fits(key)
    requires FindKey(t[Slot(key)], key) == |t[Slot(key)]|
    ensures var (t', ok) := TableStep(c, t, key, now, cost);
      (ok <==> cost <= c.bucketSize) && FindKey(t'[Slot(key)], key) == |t'[Slot(key)]|
  {
    StepOnMiss(c, t, key, now, cost);
    var chain := t[Slot(key)];
    if cost <= c.bucketSize {
      var chain' := TableStep(c, t, key, now, cost).0[Slot(key)];
      assert chain'[1..] == chain && |chain'[0].key| == KEY_CAPACITY;
    }
  }

  /** Sums over a run depend only on a key's own calls. */
  lemma {:induction false} AdmittedOwn(calls: seq<Call>, ds: seq<bool>, key: Key, s: nat, e: nat)
    requires |ds| == |calls|
    ensures Admitted(calls, ds, key, s, e) == Admitted(Own(calls, key), OwnDecisions(calls, ds, key), key, s, e)
    ensures AdmittedCount(calls, ds, key, s, e)
         == AdmittedCount(Own(calls, key), OwnDecisions(calls, ds, key), key, s, e)
  {
    if calls != [] {
      AdmittedOwn(calls[1..], ds[1..], key, s, e);
      if calls[0].key == key {
        assert Own(calls, key)[1..] == Own(calls[1..], key);
        assert OwnDecisions(calls, ds, key)[1..] == OwnDecisions(calls[1..], ds[1..], key);
      } else {
        assert Own(calls, key) == Own(calls[1..], key);
        assert OwnDecisions(calls, ds, key) == OwnDecisions(calls[1..], ds[1..], key);
      }
    }
  }

  /** So the sums of a whole run are those of one bucket and its own calls. */
  lemma ReduceToOwn(c: Config, calls: seq<Call>, key: Key, s: nat, e: nat)
    requires Unaliased(calls, key)
    ensures var own := Own(calls, key);
      && Admitted(calls, Decisions(c, EmptyTable(), calls), key, s, e)
           == Admitted(own, Alone(c, None, own), key, s, e)
      && AdmittedCount(calls, Decisions(c, EmptyTable(), calls), key, s, e)
           == AdmittedCount(own, Alone(c, None, own), key, s, e)
  {
    KeyIsolation(c, EmptyTable(), calls, key);
    AdmittedOwn(calls, Decisions(c, EmptyTable(), calls), key, s, e);
  }

  /** How often the clock runs backwards from one call to the next, beginning
      at `prev`: two threads read it before they take the lock. */
  function Inversions(calls: seq<Call>, prev: nat): nat {
    if calls == [] then 0
    else (if calls[0].now < prev then 1 else 0) + Inversions(calls[1..], calls[0].now)
  }

  lemma {:induction false} OwnTimely(calls: seq<Call>, key: Key, prev: nat)
    requires Timely(calls) && forall i :: 0 <= i < |calls| ==> prev <= calls[i].now
    ensures Inversions(Own(calls, key), prev) == 0
  {
    if calls != [] {
      var own := Own(calls, key);
      if calls[0].key == key {
        assert own[1..] == Own(calls[1..], key);
        OwnTimely(calls[1..], key, calls[0].now);
      } else {
        assert own == Own(calls[1..], key);
        OwnTimely(calls[1..], key, prev);
      }
    }
  }

  /** What the first call of a run adds to the sums. */
  lemma Unroll(c: Config, b: Option<Bucket>, calls: seq<Call>, key: Key, s: nat, e: nat)
    requires calls != [] && calls[0].key == key
    ensures var (b', ok) := BucketStep(c, b, calls[0].now, calls[0].cost);
      var rest, counted := calls[1..], ok && s <= calls[0].now <= e;
      && Admitted(calls, Alone(c, b, calls), key, s, e)
           == (if counted then calls[0].cost else 0) + Admitted(rest, Alone(c, b', rest), key, s, e)
      && AdmittedCount(calls, Alone(c, b, calls), key, s, e)
           == (if counted then 1 else 0) + AdmittedCount(rest, Alone(c, b', rest), key, s, e)
  {
    assert Alone(c, b, calls)[1..] == Alone(c, BucketStep(c, b, calls[0].now, calls[0].cost).0, calls[1..]);
  }

  // ------------------------------------------------------- token-bucket bound

  /** 1000 times the tokens earned in `ms` milliseconds. */
  ghost function Earned(c: Config, ms: nat): nat {
    ms * c.tokensPerSec
  }

  /** The same as the code computes it, from wrapping differences and products. */
  ghost function Credit(c: Config, ms: int): nat {
    Wrap64(Wrap64(ms) * c.tokensPerSec)
  }

  ghost predicate Sane(c: Config, b: Option<Bucket>) {
    b.Some? ==> b.value.tokens <= c.bucketSize
  }

  /** 1000 times the tokens a bucket holds, with the part of a token that no
      refill has credited yet. */
  ghost function Worth(c: Config, b: Bucket, now: int): nat {
    1000 * b.tokens + Credit(c, now - b.lastFill)
  }

  lemma EarnedSum(c: Config, x: nat, y: nat)
    ensures Earned(c, x + y) == Earned(c, x) + Earned(c, y)
  {
  }

  /** Time earns no more than the product says; where the product wraps, less. */
  lemma CreditElapsed(c: Config, ms: int, later: nat)
    ensures Credit(c, ms + later) <= Credit(c, ms) + Earned(c, later)
  {
    var r: int := c.tokensPerSec;
    WrapProduct(ms, r);
    WrapProduct(ms + later, r);
    assert (ms + later) * r == ms * r + later * r;
    WrapSum(ms * r, later * r);
  }

  /** A refill credits whole tokens only, keeps the fraction when it credits
      nothing, and drops it when it credits some. */
  lemma RefillWorth(c: Config, b: Bucket, now: U64)
    requires Sane(c, Some(b))
    ensures var r := Refilled(c, b, now);
      && Sane(c, Some(r)) && Worth(c, r, now) <= Worth(c, b, now)
      && Worth(c, r, now) <= 1000 * c.bucketSize + 999
  {
    hide Wrap64;
    var credit := Credit(c, now - b.lastFill);
    NoCredit(c);
    WrapBelow(b.tokens + credit / 1000);
  }

  lemma NoCredit(c: Config)
    ensures Credit(c, 0) == 0
  {
  }

  lemma WrapBelow(n: nat)
    ensures Wrap64(n) <= n
  {
  }

  /** One call, at any reading of the clock: what it admits is paid out of the
      bucket's worth. */
  lemma StepWorth(c: Config, b: Option<Bucket>, now: U64, cost: U64)
    requires Sane(c, b)
    ensures var (b', ok) := BucketStep(c, b, now, cost);
      && Sane(c, b')
      && (ok || b.Some? ==> b'.Some?)
      && (b'.Some? ==>
            var after := (if ok then 1000 * cost else 0) + Worth(c, b'.value, now);
            && after <= 1000 * c.bucketSize + 999
            && (if b.Some? then after <= Worth(c, b.value, now) else after == 1000 * c.bucketSize))
  {
    hide Refilled, Credit;
    NoCredit(c);
    if b.Some? {
      RefillWorth(c, b.value, now);
    }
  }

  /** Beyond the fraction of a token, what a full bucket and the interval give. */
  ghost function Allowance(c: Config, s: nat, e: nat): nat
    requires s <= e
  {
    1000 * c.bucketSize + 999 + Earned(c, e - s)
  }

  /** What calls from the reading `now` on may still be admitted between `s` and
      `e` while the clock does not run backwards. */
  ghost function Budget(c: Config, b: Option<Bucket>, s: nat, e: nat, now: nat): nat
    requires s <= e
  {
    if now > e then 0
    else if now < s || b.None? then Allowance(c, s, e)
    else Worth(c, b.value, now) + Earned(c, e - now)
  }

  lemma BudgetStep(c: Config, b: Option<Bucket>, s: nat, e: nat, prev: nat, now: U64, cost: U64)
    requires Sane(c, b) && s <= e
    ensures var (b', ok) := BucketStep(c, b, now, cost);
      Sane(c, b') &&
      (if ok && s <= now <= e then 1000 * cost else 0) + Budget(c, b', s, e, now)
        <= Budget(c, b, s, e, prev) + (if now < prev then Allowance(c, s, e) else 0)
  {
    hide BucketStep, Earned, Credit;
    StepWorth(c, b, now, cost);
    if s <= now <= e {
      var (b', ok) := BucketStep(c, b, now, cost);
      EarnedSum(c, now - s, e - now);
      assert now - s + (e - now) == e - s;
      assert (if ok then 1000 * cost else 0) + Budget(c, b', s, e, now) <= Allowance(c, s, e);
      if s <= prev <= now && b.Some? {
        EarnedSum(c, now - prev, e - now);
        assert now - prev + (e - now) == e - prev;
        CreditElapsed(c, prev - b.value.lastFill, now - prev);
        assert prev - b.value.lastFill + (now - prev) == now - b.value.lastFill;
      }
    }
  }

  lemma {:induction false} Budgeted(c: Config, b: Option<Bucket>, calls: seq<Call>, key: Key, s: nat, e: nat, prev: nat)
    requires Sane(c, b) && s <= e && forall i :: 0 <= i < |calls| ==> calls[i].key == key
    ensures 1000 * Admitted(calls, Alone(c, b, calls), key, s, e)
         <= Budget(c, b, s, e, prev) + Inversions(calls, prev) * Allowance(c, s, e)
    decreases |calls|
  {
    hide BucketStep, Allowance, Budget;
    if calls != [] {
      var call, rest := calls[0], calls[1..];
      var (b', ok) := BucketStep(c, b, call.now, call.cost);
      Unroll(c, b, calls, key, s, e);
      BudgetStep(c, b, s, e, prev, call.now, call.cost);
      Budgeted(c, b', rest, key, s, e, call.now);
      OneMore(Inversions(rest, call.now), Allowance(c, s, e));
    }
  }

  lemma OneMore(n: nat, a: nat)
    ensures (n + 1) * a == n * a + a
  {
  }

  /** Token bucket, for a clock that may run backwards: every inversion between a
      key's calls lets the whole allowance of the interval through once more. */
  lemma TokenBoundInverted(c: Config, calls: seq<Call>, key: Key, s: nat, e: nat)
    requires Unaliased(calls, key) && s <= e
    ensures 1000 * Admitted(calls, Decisions(c, EmptyTable(), calls), key, s, e)
         <= (Inversions(Own(calls, key), 0) + 1) * (1000 * c.bucketSize + 999 + Earned(c, e - s))
  {
    hide Inversions, Earned, Admitted, AdmittedCount, Decisions, Alone, Own, Unaliased;
    ReduceToOwn(c, calls, key, s, e);
    Budgeted(c, None, Own(calls, key), key, s, e, 0);
    var n := Inversions(Own(calls, key), 0);
    OneMore(n, Allowance(c, s, e));
    assert Budget(c, None, s, e, 0) <= Allowance(c, s, e);
  }

  /** Token bucket: in any run over any keys, the cost admitted for one key
      between two times is less than the bucket, one token and the refill of the
      elapsed time together. */
  lemma TokenBound(c: Config, calls: seq<Call>, key: Key, s: nat, e: nat)
    requires Unaliased(calls, key) && Timely(calls) && s <= e
    ensures 1000 * Admitted(calls, Decisions(c, EmptyTable(), calls), key, s, e)
          < 1000 * (c.bucketSize + 1) + Earned(c, e - s)
  {
    hide Inversions, Earned, Admitted, AdmittedCount, Decisions, Alone, Own, Unaliased;
    OwnTimely(calls, key, 0);
    TokenBoundInverted(c, calls, key, s, e);
  }

  lemma {:induction false} FirstCallBoundAlone(c: Config, calls: seq<Call>, key: Key, s: nat, e: nat)
    requires s <= e && Inversions(calls, s) == 0
    requires forall i :: 0 <= i < |calls| ==> calls[i].key == key
    ensures 1000 * Admitted(calls, Alone(c, None, calls), key, s, e)
         <= 1000 * c.bucketSize + Earned(c, e - s)
    decreases |calls|
  {
    hide BucketStep, Credit, Earned;
    if calls != [] {
      var first, rest := calls[0], calls[1..];
      var (b, ok) := BucketStep(c, None, first.now, first.cost);
      Unroll(c, None, calls, key, s, e);
      StepWorth(c, None, first.now, first.cost);
      if b.None? {
        LaterFirst(rest, s, first.now);
        FirstCallBoundAlone(c, rest, key, s, e);
      } else {
        Budgeted(c, b, rest, key, s, e, first.now);
        if first.now <= e {
          EarnedSum(c, first.now - s, e - first.now);
        }
      }
    }
  }

  lemma LaterFirst(calls: seq<Call>, s: nat, now: nat)
    requires s <= now && Inversions(calls, now) == 0
    ensures Inversions(calls, s) == 0
  {
  }

  /** Counted from the key's first call no fraction is carried in: at most the
      bucket and the whole tokens earned since. */
  lemma FirstCallBound(c: Config, calls: seq<Call>, key: Key, e: nat)
    requires Unaliased(calls, key) && Timely(calls)
    requires Own(calls, key) != [] && Own(calls, key)[0].now <= e
    ensures var first := Own(calls, key)[0].now;
      Admitted(calls, Decisions(c, EmptyTable(), calls), key, first, e)
        <= c.bucketSize + Earned(c, e - first) / 1000
  {
    hide Earned, Admitted, Decisions, Alone, Own;
    var own := Own(calls, key);
    ReduceToOwn(c, calls, key, own[0].now, e);
    OwnTimely(calls, key, 0);
    assert Inversions(own, own[0].now) == 0;
    FirstCallBoundAlone(c, own, key, own[0].now, e);
  }

  // ------------------------------------------------------------ window bound

  ghost predicate WithinQuota(c: Config, b: Option<Bucket>) {
    b.Some? ==> b.value.windowCount <= c.maxRequests
  }

  /** One call counts into the current window, or into a window it has just
      opened; it opens one only if more than `windowMs` had passed, or if the
      clock has run backwards. */
  lemma WindowStep(c: Config, b: Option<Bucket>, now: U64, cost: U64)
    requires c.maxRequests >= 1 && WithinQuota(c, b)
    ensures var (b', ok) := BucketStep(c, b, now, cost);
      && WithinQuota(c, b')
      && (ok || b.Some? ==> b'.Some?)
      && (b'.Some? ==>
            var admitted := if ok then 1 else 0;
            if b.Some? && Wrap64(now - b.value.windowStart) <= c.windowMs then
              && b'.value.windowStart == b.value.windowStart
              && b'.value.windowCount == b.value.windowCount + admitted
            else
              b'.value.windowStart == now && b'.value.windowCount == admitted)
  {
    hide Wrap64;
    if b.Some? {
      RefillWindow(c, b.value, now);
      var n := Rolled(c, Refilled(c, b.value, now), now).windowCount;
      if n < c.maxRequests {
        WrapId(n + 1);
      }
    }
  }

  lemma RefillWindow(c: Config, b: Bucket, now: U64)
    ensures var r := Refilled(c, b, now);
      r.windowStart == b.windowStart && r.windowCount == b.windowCount
  {
  }

  lemma WrapId(n: int)
    requires 0 <= n < TWO_64
    ensures Wrap64(n) == n
  {
  }

  /** What calls from the reading `now` on may still be admitted up to `e`: a
      window opened since `s` outlasts `e`. */
  ghost function Quota(c: Config, b: Option<Bucket>, s: nat, e: nat, now: nat): int {
    if now > e then 0
    else if now < s || b.None? then 2 * c.maxRequests
    else if s <= b.value.windowStart <= now then c.maxRequests - b.value.windowCount
    else 2 * c.maxRequests - b.value.windowCount
  }

  lemma QuotaStep(c: Config, b: Option<Bucket>, s: nat, e: nat, prev: nat, now: U64, cost: U64)
    requires c.maxRequests >= 1 && WithinQuota(c, b) && e - s <= c.windowMs
    ensures var (b', ok) := BucketStep(c, b, now, cost);
      WithinQuota(c, b') &&
      (if ok && s <= now <= e then 1 else 0) + Quota(c, b', s, e, now)
        <= Quota(c, b, s, e, prev) + (if now < prev then 2 * c.maxRequests else 0)
  {
    hide BucketStep, Wrap64;
    WindowStep(c, b, now, cost);
    if b.Some? && b.value.windowStart <= now {
      WrapId(now - b.value.windowStart);
    }
    if s <= now <= e {
      var (b', ok) := BucketStep(c, b, now, cost);
      assert (if ok then 1 else 0) + Quota(c, b', s, e, now) <= 2 * c.maxRequests;
    }
  }

  lemma {:induction false} QuotaBound(c: Config, b: Option<Bucket>, calls: seq<Call>, key: Key, s: nat, e: nat, prev: nat)
    requires c.maxRequests >= 1 && WithinQuota(c, b) && e - s <= c.windowMs
    requires forall i :: 0 <= i < |calls| ==> calls[i].key == key
    ensures AdmittedCount(calls, Alone(c, b, calls), key, s, e)
         <= Quota(c, b, s, e, prev) + Inversions(calls, prev) * (2 * c.maxRequests)
    decreases |calls|
  {
    hide BucketStep, Quota;
    if calls == [] {
      QuotaPositive(c, b, s, e, prev);
    } else {
      var call, rest := calls[0], calls[1..];
      var (b', ok) := BucketStep(c, b, call.now, call.cost);
      Unroll(c, b, calls, key, s, e);
      QuotaStep(c, b, s, e, prev, call.now, call.cost);
      QuotaBound(c, b', rest, key, s, e, call.now);
      OneMore(Inversions(rest, call.now), 2 * c.maxRequests);
    }
  }

  lemma QuotaPositive(c: Config, b: Option<Bucket>, s: nat, e: nat, now: nat)
    requires WithinQuota(c, b)
    ensures 0 <= Quota(c, b, s, e, now) <= 2 * c.maxRequests
  {
  }

  /** Fixed window, for a clock that may run backwards. */
  lemma WindowBoundInverted(c: Config, calls: seq<Call>, key: Key, s: nat, e: nat)
    requires Unaliased(calls, key) && c.maxRequests >= 1 && e - s <= c.windowMs
    ensures AdmittedCount(calls, Decisions(c, EmptyTable(), calls), key, s, e)
         <= (Inversions(Own(calls, key), 0) + 1) * (2 * c.maxRequests)
  {
    hide Inversions;
    ReduceToOwn(c, calls, key, s, e);
    QuotaBound(c, None, Own(calls, key), key, s, e, 0);
    QuotaPositive(c, None, s, e, 0);
    OneMore(Inversions(Own(calls, key), 0), 2 * c.maxRequests);
  }

  /** Fixed window: any interval no longer than the window admits at most twice
      the configured number of requests for a key. */
  lemma WindowBound(c: Config, calls: seq<Call>, key: Key, s: nat, e: nat)
    requires Unaliased(calls, key) && Timely(calls) && c.maxRequests >= 1
    requires e - s <= c.windowMs
    ensures AdmittedCount(calls, Decisions(c, EmptyTable(), calls), key, s, e) <= 2 * c.maxRequests
  {
    hide Inversions;
    OwnTimely(calls, key, 0);
    WindowBoundInverted(c, calls, key, s, e);
  }

  /** One inversion is enough to get past both limits: the differences wrap, so
      the call finds a full bucket and a new window. */
  lemma InvertedCallUnlimited(c: Config, b: Bucket, now: U64, cost: U64)
    requires now < b.lastFill && now < b.windowStart && b.windowStart - now < TWO_64 - c.windowMs
    requires Sane(c, Some(b)) && cost <= c.bucketSize && c.maxRequests >= 1
    requires Credit(c, now - b.lastFill) >= 1000 * c.bucketSize >= 1000
    requires b.tokens + Credit(c, now - b.lastFill) / 1000 < TWO_64
    ensures BucketStep(c, Some(b), now, cost) == (Some(Bucket(c.bucketSize - cost, now, now, 1)), true)
  {
    hide Wrap64;
    WrapNegative(now - b.windowStart);
    WrapId(b.tokens + Credit(c, now - b.lastFill) / 1000);
    WrapId(0 + 1);
  }

  /** Calls whose readings of the clock go down from `n` to 0, each for the whole
      bucket of 100 tokens. */
  function Descending(key: Key, n: nat): seq<Call>
    requires n < TWO_64
  {
    [Call(key, n, 100)] + if n == 0 then [] else Descending(key, n - 1)
  }

  const HUNDRED := Config(100, 100, 1000, 1000, 1024)

  lemma SpentThenInverted(now: U64)
    requires now + 1 < TWO_64
    ensures BucketStep(HUNDRED, Some(Bucket(0, now + 1, now + 1, 1)), now, 100) == (Some(Bucket(0, now, now, 1)), true)
  {
    var b := Bucket(0, now + 1, now + 1, 1);
    assert Credit(HUNDRED, -1) == TWO_64 - 100 by {
      WrapNegative(-1);
      WrapShift(-100, 100);
      assert (TWO_64 - 1) * 100 == -100 + 100 * TWO_64;
      WrapNegative(-100);
    }
    hide Credit, BucketStep;
    assert now - b.lastFill == -1;
    InvertedCallUnlimited(HUNDRED, b, now, 100);
  }

  lemma {:induction false} DescendingCalls(key: Key, n: nat, prev: nat)
    requires n < TWO_64
    ensures var calls := Descending(key, n);
      && calls != [] && calls[0] == Call(key, n, 100)
      && calls[1..] == (if n == 0 then [] else Descending(key, n - 1))
      && Own(calls, key) == calls
      && Inversions(calls, prev) == n + (if n < prev then 1 else 0)
  {
    var calls := Descending(key, n);
    if n > 0 {
      assert calls[1..] == Descending(key, n - 1);
      DescendingCalls(key, n - 1, n);
    } else {
      assert calls[1..] == [];
    }
  }

  /** The bucket before the reading `n`: none at first, then one spent at `n` + 1. */
  function SpentBefore(n: nat, first: bool): Option<Bucket>
    requires n + 1 < TWO_64
  {
    if first then None else Some(Bucket(0, n + 1, n + 1, 1))
  }

  lemma SpentAgain(n: nat, first: bool)
    requires n + 1 < TWO_64
    ensures BucketStep(HUNDRED, SpentBefore(n, first), n, 100) == (Some(Bucket(0, n, n, 1)), true)
  {
    if !first {
      hide BucketStep;
      SpentThenInverted(n);
    }
  }

  lemma {:induction false} DescendingAdmitted(key: Key, n: nat, e: nat, first: bool)
    requires n <= e && n + 1 < TWO_64
    ensures var calls := Descending(key, n);
      Admitted(calls, Alone(HUNDRED, SpentBefore(n, first), calls), key, 0, e) == (n + 1) * 100
  {
    hide BucketStep, Alone, Admitted, Descending;
    var calls := Descending(key, n);
    DescendingCalls(key, n, 0);
    SpentAgain(n, first);
    Unroll(HUNDRED, SpentBefore(n, first), calls, key, 0, e);
    if n > 0 {
      DescendingAdmitted(key, n - 1, e, false);
    } else {
      NothingAdmitted(HUNDRED, Some(Bucket(0, 0, 0, 1)), key, 0, e);
    }
  }

  lemma NothingAdmitted(c: Config, b: Option<Bucket>, key: Key, s: nat, e: nat)
    ensures Admitted([], Alone(c, b, []), key, s, e) == 0
  {
  }

  /** The factor is reached: n inversions can let n + 1 buckets out, n milliseconds
      after one another. */
  lemma InversionsReachFactor(key: Key, n: nat) returns (calls: seq<Call>)
    requires |key| < KEY_CAPACITY && n + 1 < TWO_64
    ensures Unaliased(calls, key) && Inversions(Own(calls, key), 0) == n
    ensures Admitted(calls, Decisions(HUNDRED, EmptyTable(), calls), key, 0, n) == (n + 1) * HUNDRED.bucketSize
  {
    calls := Descending(key, n);
    ShortKeysUnaliased(calls, key);
    DescendingCalls(key, n, 0);
    DescendingAdmitted(key, n, n, true);
    hide Unaliased, Decisions, Admitted, Alone, Own;
    ReduceToOwn(HUNDRED, calls, key, 0, n);
  }

  /** The plain token bound holds in every run in which the clock runs backwards
      between a key's calls at most `n` times. */
  ghost predicate BoundedDespite(c: Config, key: Key, n: nat) {
    forall calls: seq<Call>, s: nat, e: nat :: Inversions(Own(calls, key), 0) <= n && s <= e ==>
      1000 * Admitted(calls, Decisions(c, EmptyTable(), calls), key, s, e)
        < 1000 * (c.bucketSize + 1) + Earned(c, e - s)
  }

  /** It does under every configuration exactly if the clock must not. */
  lemma BoundedIffNoInversion(key: Key, n: nat)
    requires |key| < KEY_CAPACITY
    ensures (forall c: Config :: BoundedDespite(c, key, n)) <==> n == 0
  {
    hide Inversions, Own, Decisions, Admitted;
    if n == 0 {
      forall c: Config
        ensures BoundedDespite(c, key, 0)
      {
        BoundedWithoutInversion(c, key);
      }
    } else {
      var calls := InversionsReachFactor(key, 1);
      assert Earned(HUNDRED, 1 - 0) == 100;
      assert 1000 * Admitted(calls, Decisions(HUNDRED, EmptyTable(), calls), key, 0, 1)
          >= 1000 * (HUNDRED.bucketSize + 1) + Earned(HUNDRED, 1 - 0);
      assert !BoundedDespite(HUNDRED, key, n);
    }
  }

  lemma BoundedWithoutInversion(c: Config, key: Key)
    requires |key| < KEY_CAPACITY
    ensures BoundedDespite(c, key, 0)
  {
    hide Inversions, Own, Decisions, Admitted, Earned, Unaliased;
    forall calls: seq<Call>, s: nat, e: nat | Inversions(Own(calls, key), 0) <= 0 && s <= e
      ensures 1000 * Admitted(calls, Decisions(c, EmptyTable(), calls), key, s, e)
            < 1000 * (c.bucketSize + 1) + Earned(c, e - s)
    {
      ShortKeysUnaliased(calls, key);
      TokenBoundInverted(c, calls, key, s, e);
    }
  }

  lemma WrapNegative(n: int)
    requires -TWO_64 < n < 0
    ensures Wrap64(n) == n + TWO_64
  {
  }

  // --------------------------------------------------------------- liveness

  /** No product or sum of a refill after `ms` milliseconds wraps. */
  ghost predicate Ample(c: Config, ms: nat) {
    c.bucketSize + Earned(c, ms) < TWO_64
  }

  function Min(a: int, b: int): int {
    if a < b then a else b
  }

  /** Within 64 bits the arithmetic of a refill is exact. */
  lemma RefillExact(c: Config, b: Bucket, now: U64, earned: nat)
    requires Sane(c, Some(b)) && b.lastFill <= now
    requires earned == Earned(c, now - b.lastFill) && Ample(c, now - b.lastFill)
    ensures Refilled(c, b, now) ==
      if earned / 1000 > 0 then b.(tokens := Min(b.tokens + earned / 1000, c.bucketSize), lastFill := now) else b
  {
    WrapId(now - b.lastFill);
    WrapId(earned);
    WrapId(b.tokens + earned / 1000);
  }

  /** The limiter does not starve: once a key has been idle long enough to earn a
      full bucket and to leave its window, it is served as on its first call. */
  lemma IdleKeyRecovers(c: Config, b: Bucket, now: U64, cost: U64)
    requires Sane(c, Some(b)) && b.lastFill <= now && Ample(c, now - b.lastFill)
    requires c.maxRequests >= 1 && c.bucketSize >= 1
    requires Earned(c, now - b.lastFill) >= 1000 * c.bucketSize && now - b.windowStart > c.windowMs
    ensures BucketStep(c, Some(b), now, cost) ==
      if cost <= c.bucketSize then (BucketStep(c, None, now, cost).0, true)
      else (Some(Bucket(c.bucketSize, now, now, 0)), false)
  {
    hide Earned, Refilled, Wrap64;
    RefillExact(c, b, now, Earned(c, now - b.lastFill));
    WrapId(now - b.windowStart);
    WrapId(0 + 1);
    var r := Refilled(c, b, now);
    assert r.tokens == c.bucketSize && r.lastFill == now;
    assert Rolled(c, r, now) == Bucket(c.bucketSize, now, now, 0);
  }
}
