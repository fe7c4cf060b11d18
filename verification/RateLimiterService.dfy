/** What the rate limiter of src/ratelimiter.c grants: exactly when it refuses a
    call, in plain arithmetic, and a lower bound on what it admits. */
module RateLimiterService {
  import opened CMachine
  import opened RateLimiting
  import opened RateLimiterRuns

  // --------------------------------------------------------- one call exactly

  /** The tokens a bucket has at `now`: what it held and the whole tokens earned
      since its last refill, up to its size. */
  function Available(c: Config, b: Bucket, now: nat): int {
    Min(b.tokens + (now - b.lastFill) * c.tokensPerSec / 1000, c.bucketSize)
  }

  /** The requests admitted in the window that `now` falls into. */
  function Used(c: Config, b: Bucket, now: nat): nat {
    if now - b.windowStart > c.windowMs then 0 else b.windowCount
  }

  /** Within 64 bits a call is refused exactly if its cost exceeds the tokens there
      are, or the requests of the window are used up; and what it leaves. */
  lemma StepExact(c: Config, b: Bucket, now: U64, cost: U64)
    requires b.tokens <= c.bucketSize
    requires b.lastFill <= now && b.windowStart <= now
    requires c.bucketSize + (now - b.lastFill) * c.tokensPerSec < TWO_64
    ensures var (b', ok) := BucketStep(c, Some(b), now, cost);
      && (ok <==> cost <= Available(c, b, now) && Used(c, b, now) < c.maxRequests)
      && b'.Some?
      && b'.value.tokens == Available(c, b, now) - (if ok then cost else 0)
      && b'.value.lastFill == (if (now - b.lastFill) * c.tokensPerSec >= 1000 then now else b.lastFill)
      && b'.value.windowStart == (if now - b.windowStart > c.windowMs then now else b.windowStart)
      && b'.value.windowCount == Used(c, b, now) + (if ok then 1 else 0)
  {
    hide Wrap64, Earned;
    EarnedIs(c, now - b.lastFill);
    RefillExact(c, b, now, Earned(c, now - b.lastFill));
    WrapId(now - b.windowStart);
    if Used(c, b, now) < c.maxRequests {
      WrapId(Used(c, b, now) + 1);
    }
  }

  lemma EarnedIs(c: Config, ms: nat)
    ensures Earned(c, ms) == ms * c.tokensPerSec
  {
  }

  // ------------------------------------------------------ one call of a run

  function BucketAfter(c: Config, b: Option<Bucket>, calls: seq<Call>): Option<Bucket>
    decreases |calls|
  {
    if calls == [] then b else BucketAfter(c, BucketStep(c, b, calls[0].now, calls[0].cost).0, calls[1..])
  }

  function TableAfter(c: Config, t: Table, calls: seq<Call>): Table
    decreases |calls|
  {
    if calls == [] then t
    else TableAfter(c, TableStep(c, t, calls[0].key, calls[0].now, calls[0].cost).0, calls[1..])
  }

  lemma {:induction false} LookupAfter(c: Config, t: Table, calls: seq<Call>, key: Key)
    requires Unaliased(calls, key)
    ensures Lookup(TableAfter(c, t, calls), key) == BucketAfter(c, Lookup(t, key), Own(calls, key))
    decreases |calls|
  {
    hide TableStep, BucketStep, Lookup;
    if calls != [] {
      var x, rest := calls[0], calls[1..];
      StepLookup(c, t, x.key, x.now, x.cost, key);
      LookupAfter(c, TableStep(c, t, x.key, x.now, x.cost).0, rest, key);
      if x.key == key {
        assert Own(calls, key)[1..] == Own(rest, key);
      } else {
        assert Own(calls, key) == Own(rest, key);
      }
    }
  }

  lemma {:induction false} LastDecision(c: Config, t: Table, calls: seq<Call>, x: Call)
    ensures Decisions(c, t, calls + [x])
         == Decisions(c, t, calls) + [TableStep(c, TableAfter(c, t, calls), x.key, x.now, x.cost).1]
    decreases |calls|
  {
    hide TableStep;
    if calls == [] {
      assert [] + [x] == [x] && [x][1..] == [];
    } else {
      assert (calls + [x])[1..] == calls[1..] + [x];
      LastDecision(c, TableStep(c, t, calls[0].key, calls[0].now, calls[0].cost).0, calls[1..], x);
    }
  }

  /** A bucket's clock readings lie in the past, and it is within its limits. */
  ghost predicate Kept(c: Config, b: Option<Bucket>, now: nat) {
    b.Some? ==>
      && b.value.tokens <= c.bucketSize && b.value.windowCount <= c.maxRequests
      && b.value.lastFill <= now && b.value.windowStart <= now
  }

  lemma KeptStep(c: Config, b: Option<Bucket>, now: U64, cost: U64, prev: nat)
    requires Kept(c, b, prev) && prev <= now && c.maxRequests >= 1
    ensures Kept(c, BucketStep(c, b, now, cost).0, now)
  {
    StepWorth(c, b, now, cost);
    WindowStep(c, b, now, cost);
    if b.Some? {
      FillStep(c, b.value, now, cost);
    }
  }

  lemma FillStep(c: Config, b: Bucket, now: U64, cost: U64)
    ensures var b' := BucketStep(c, Some(b), now, cost).0.value;
      b'.lastFill == now || b'.lastFill == b.lastFill
  {
  }

  lemma {:induction false} KeptAfter(c: Config, b: Option<Bucket>, calls: seq<Call>, prev: nat, last: nat)
    requires Kept(c, b, prev) && prev <= last && c.maxRequests >= 1 && Timely(calls)
    requires forall i :: 0 <= i < |calls| ==> prev <= calls[i].now <= last
    ensures Kept(c, BucketAfter(c, b, calls), last)
    decreases |calls|
  {
    hide BucketStep;
    if calls != [] {
      KeptStep(c, b, calls[0].now, calls[0].cost, prev);
      KeptAfter(c, BucketStep(c, b, calls[0].now, calls[0].cost).0, calls[1..], calls[0].now, last);
    }
  }

  /** A window's count is the number of requests admitted since it began. */
  lemma {:induction false} CountIsAdmitted(c: Config, b: Option<Bucket>, calls: seq<Call>, key: Key, prev: nat, last: nat)
    requires Kept(c, b, prev) && prev <= last && c.maxRequests >= 1 && Timely(calls)
    requires forall i :: 0 <= i < |calls| ==> calls[i].key == key && prev <= calls[i].now <= last
    ensures var a := BucketAfter(c, b, calls);
      && (b.Some? ==> a.Some?)
      && (a.Some? ==>
            var same := b.Some? && a.value.windowStart == b.value.windowStart;
            && (same || b.None? || a.value.windowStart > b.value.windowStart + c.windowMs)
            && a.value.windowCount
                 == AdmittedCount(calls, Alone(c, b, calls), key, a.value.windowStart, last)
                    + (if same then b.value.windowCount else 0)
            && (b.None? ==> exists i :: 0 <= i < |calls| && a.value.windowStart >= calls[i].now))
    decreases |calls|
  {
    hide BucketStep;
    if calls != [] {
      var x, rest := calls[0], calls[1..];
      var b' := BucketStep(c, b, x.now, x.cost).0;
      KeptStep(c, b, x.now, x.cost, prev);
      WindowStep(c, b, x.now, x.cost);
      if b.Some? {
        WrapId(x.now - b.value.windowStart);
      }
      CountIsAdmitted(c, b', rest, key, x.now, last);
      var a := BucketAfter(c, b', rest);
      if a.Some? {
        Unroll(c, b, calls, key, a.value.windowStart, last);
      }
    }
  }

  lemma {:induction false} OwnLast(calls: seq<Call>, x: Call)
    ensures Own(calls + [x], x.key) == Own(calls, x.key) + [x]
  {
    if calls == [] {
      assert [] + [x] == [x] && [x][1..] == [];
    } else {
      assert (calls + [x])[1..] == calls[1..] + [x];
      OwnLast(calls[1..], x);
    }
  }

  lemma {:induction false} OwnBefore(calls: seq<Call>, key: Key, last: nat)
    requires Timely(calls) && forall i :: 0 <= i < |calls| ==> calls[i].now <= last
    ensures var own := Own(calls, key); Timely(own) && forall i :: 0 <= i < |own| ==> own[i].now <= last
    ensures forall i :: 0 <= i < |Own(calls, key)| ==> calls != [] && calls[0].now <= Own(calls, key)[i].now
  {
    if calls != [] {
      OwnBefore(calls[1..], key, last);
    }
  }

  lemma NothingStored(key: Key)
    ensures Lookup(EmptyTable(), key) == None
  {
    hide Slot;
    assert EmptyTable()[Slot(key)] == [];
  }

  /** The cost exceeds the tokens there are, or the window is not over and `used`
      requests have used up its quota. */
  ghost predicate Refuses(c: Config, b: Bucket, now: nat, cost: nat, used: nat) {
    || cost > Min(b.tokens + (now - b.lastFill) * c.tokensPerSec / 1000, c.bucketSize)
    || (now - b.windowStart <= c.windowMs && used >= c.maxRequests)
  }

  /** The last call of any timely run within 64 bits: it is refused exactly if its
      cost exceeds the tokens there are, or the quota has been admitted since the
      window began and the window is not over; on a key's first call, if it
      exceeds the bucket. */
  lemma LastCallRefusedIff(c: Config, calls: seq<Call>, x: Call)
    requires Unaliased(calls + [x], x.key) && Timely(calls + [x]) && c.maxRequests >= 1
    requires Ample(c, x.now)
    ensures var b := BucketAfter(c, None, Own(calls, x.key));
      var ds := Decisions(c, EmptyTable(), calls);
      var admitted := Decisions(c, EmptyTable(), calls + [x])[|calls|];
      if b.None? then admitted <==> x.cost <= c.bucketSize
      else
        && b.value.lastFill <= x.now && b.value.windowStart <= x.now
        && (!admitted <==>
              Refuses(c, b.value, x.now, x.cost, AdmittedCount(calls, ds, x.key, b.value.windowStart, x.now)))
  {
    hide Decisions, BucketStep, Own, AdmittedCount, BucketAfter, Unaliased, Timely, Refuses, Ample;
    Shorter(calls, x);
    LastAnswer(c, calls, x);
    Standing(c, calls, x.key, x.now);
    var b := BucketAfter(c, None, Own(calls, x.key));
    if b.Some? {
      RefusedIff(c, b.value, x.now, x.cost);
    } else {
      FirstStep(c, x.now, x.cost);
    }
  }

  lemma RefusedIff(c: Config, b: Bucket, now: U64, cost: U64)
    requires Kept(c, Some(b), now) && c.maxRequests >= 1 && Ample(c, now)
    ensures !BucketStep(c, Some(b), now, cost).1 <==> Refuses(c, b, now, cost, b.windowCount)
  {
    hide BucketStep, Min;
    Faster(c, now - b.lastFill, now);
    StepExact(c, b, now, cost);
  }

  lemma LastAnswer(c: Config, calls: seq<Call>, x: Call)
    requires Unaliased(calls, x.key) && !Aliases(x.key, x.key)
    ensures Decisions(c, EmptyTable(), calls + [x])[|calls|]
         == BucketStep(c, BucketAfter(c, None, Own(calls, x.key)), x.now, x.cost).1
  {
    hide Decisions, TableStep, BucketStep, Lookup, Own, BucketAfter;
    NothingStored(x.key);
    LookupAfter(c, EmptyTable(), calls, x.key);
    LastDecision(c, EmptyTable(), calls, x);
    StepLookup(c, TableAfter(c, EmptyTable(), calls), x.key, x.now, x.cost, x.key);
  }

  /** What a key's bucket says of the run so far. */
  lemma Standing(c: Config, calls: seq<Call>, key: Key, last: nat)
    requires Unaliased(calls, key) && Timely(calls) && c.maxRequests >= 1
    requires forall i :: 0 <= i < |calls| ==> calls[i].now <= last
    ensures var b := BucketAfter(c, None, Own(calls, key));
      && Kept(c, b, last)
      && (b.Some? ==>
            b.value.windowCount
              == AdmittedCount(calls, Decisions(c, EmptyTable(), calls), key, b.value.windowStart, last))
  {
    hide Decisions, BucketStep, Own, AdmittedCount, Alone, BucketAfter, Unaliased;
    var own := Own(calls, key);
    OwnBefore(calls, key, last);
    KeptAfter(c, None, own, 0, last);
    CountIsAdmitted(c, None, own, key, 0, last);
    var b := BucketAfter(c, None, own);
    if b.Some? {
      ReduceToOwn(c, calls, key, b.value.windowStart, last);
    }
  }

  lemma Faster(c: Config, ms: nat, more: nat)
    requires ms <= more
    ensures ms * c.tokensPerSec <= more * c.tokensPerSec
  {
  }

  lemma FirstStep(c: Config, now: U64, cost: U64)
    ensures BucketStep(c, None, now, cost)
         == if cost <= c.bucketSize then (Some(Bucket(c.bucketSize - cost, now, now, 1)), true) else (None, false)
  {
  }

  lemma Shorter(calls: seq<Call>, x: Call)
    requires Unaliased(calls + [x], x.key) && Timely(calls + [x])
    ensures Unaliased(calls, x.key) && Timely(calls)
    ensures forall i :: 0 <= i < |calls| ==> calls[i].now <= x.now
    ensures !Aliases(x.key, x.key)
  {
    var more := calls + [x];
    assert forall i :: 0 <= i < |calls| ==> more[i] == calls[i];
    assert more[|calls|] == x;
  }

  // ------------------------------------------------------- the promised quota

  function Cost(calls: seq<Call>): nat {
    if calls == [] then 0 else calls[0].cost + Cost(calls[1..])
  }

  /** Within a window no refill's sum passes 64 bits. */
  ghost predicate NoSumWraps(c: Config) {
    forall ms: U64 :: ms <= c.windowMs ==> c.bucketSize + Credit(c, ms) / 1000 < TWO_64
  }

  /** The first `n` calls are within the quota, the bucket and a window. */
  ghost predicate Modest(c: Config, own: seq<Call>, n: nat) {
    && n <= |own| && n <= c.maxRequests && Cost(own[..n]) <= c.bucketSize
    && forall i :: 0 <= i < n ==> own[i].now - own[0].now <= c.windowMs
  }

  /** A bucket whose window began at `start`, with `left` requests and `owed`
      tokens still to be granted. */
  ghost predicate Owing(c: Config, b: Bucket, start: nat, now: nat, left: nat, owed: nat) {
    && owed <= b.tokens <= c.bucketSize && b.windowCount + left <= c.maxRequests
    && b.windowStart == start && start <= b.lastFill <= now
  }

  lemma OwedStep(c: Config, b: Bucket, start: nat, prev: nat, left: nat, owed: nat, now: U64, cost: U64)
    requires Owing(c, b, start, prev, left, owed) && prev <= now && now - start <= c.windowMs
    requires NoSumWraps(c) && left >= 1 && cost <= owed
    ensures var (b', ok) := BucketStep(c, Some(b), now, cost);
      ok && b'.Some? && Owing(c, b'.value, start, now, left - 1, owed - cost)
  {
    hide Wrap64, Credit;
    var ms := now - b.lastFill;
    assert ms <= c.windowMs;
    WrapId(now - start);
    WrapId(ms);
    assert c.bucketSize + Credit(c, ms) / 1000 < TWO_64;
    CreditIs(c, ms);
    WrapId(b.tokens + Credit(c, ms) / 1000);
    WrapId(b.windowCount + 1);
  }

  lemma CreditIs(c: Config, ms: int)
    ensures Credit(c, ms) == Wrap64(Wrap64(ms) * c.tokensPerSec)
  {
  }

  lemma {:induction false} OwedServed(c: Config, b: Bucket, start: nat, prev: nat, calls: seq<Call>, n: nat)
    requires n <= |calls| && Timely(calls) && NoSumWraps(c)
    requires forall i :: 0 <= i < n ==> prev <= calls[i].now && calls[i].now - start <= c.windowMs
    requires Owing(c, b, start, prev, n, Cost(calls[..n]))
    ensures forall i :: 0 <= i < n ==> Alone(c, Some(b), calls)[i]
    decreases n
  {
    hide BucketStep, NoSumWraps;
    if n > 0 {
      var x, rest := calls[0], calls[1..];
      assert calls[..n][1..] == rest[..n - 1];
      OwedStep(c, b, start, prev, n, Cost(calls[..n]), x.now, x.cost);
      OwedServed(c, BucketStep(c, Some(b), x.now, x.cost).0.value, start, x.now, rest, n - 1);
    }
  }

  /** The first calls of a run of one key. */
  lemma ModestServedAlone(c: Config, own: seq<Call>, n: nat)
    requires Timely(own) && Modest(c, own, n) && (n <= 1 || NoSumWraps(c))
    ensures forall i :: 0 <= i < n ==> Alone(c, None, own)[i]
  {
    hide BucketStep, NoSumWraps;
    if n > 0 {
      var x, rest := own[0], own[1..];
      assert own[..n][1..] == rest[..n - 1];
      FirstStep(c, x.now, x.cost);
      if n > 1 {
        OwedServed(c, Bucket(c.bucketSize - x.cost, x.now, x.now, 1), x.now, x.now, rest, n - 1);
      }
    }
  }

  /** Lower bound: in every timely run of an unaliased key from the empty table,
      the first calls with the key are all admitted while they are within the
      quota, cost no more than the bucket and lie within one window of the first. */
  lemma FirstQuotaServed(c: Config, calls: seq<Call>, key: Key, n: nat)
    requires Unaliased(calls, key) && Timely(calls)
    requires Modest(c, Own(calls, key), n) && (c.maxRequests <= 1 || NoSumWraps(c))
    ensures forall i :: 0 <= i < n ==> OwnDecisions(calls, Decisions(c, EmptyTable(), calls), key)[i]
  {
    hide Decisions, Alone, Own, OwnDecisions, Lookup, NoSumWraps;
    NothingStored(key);
    KeyIsolation(c, EmptyTable(), calls, key);
    OwnBefore(calls, key, if calls == [] then 0 else calls[|calls| - 1].now);
    ModestServedAlone(c, Own(calls, key), n);
  }

  ghost predicate AlwaysServed(c: Config, key: Key) {
    forall calls: seq<Call>, n: nat ::
      Unaliased(calls, key) && Timely(calls) && Modest(c, Own(calls, key), n) ==>
        forall i :: 0 <= i < n ==> OwnDecisions(calls, Decisions(c, EmptyTable(), calls), key)[i]
  }

  /** And it holds of no wider class of settings: where a sum can wrap, a full
      bucket is lost and the next call that needs it is refused. */
  lemma AlwaysServedIff(c: Config, key: Key)
    requires Fits(key)
    ensures AlwaysServed(c, key) <==> c.maxRequests <= 1 || NoSumWraps(c)
  {
    hide Decisions, Own, OwnDecisions, Unaliased, Timely;
    if c.maxRequests <= 1 || NoSumWraps(c) {
      forall calls: seq<Call>, n: nat | Unaliased(calls, key) && Timely(calls) && Modest(c, Own(calls, key), n)
        ensures forall i :: 0 <= i < n ==> OwnDecisions(calls, Decisions(c, EmptyTable(), calls), key)[i]
      {
        FirstQuotaServed(c, calls, key, n);
      }
    } else {
      var ms: U64 :| ms <= c.windowMs && c.bucketSize + Credit(c, ms) / 1000 >= TWO_64;
      WrappedRefill(c, key, ms);
    }
  }

  lemma WrappedRefill(c: Config, key: Key, ms: U64)
    requires Fits(key) && c.maxRequests >= 2 && ms <= c.windowMs && c.bucketSize + Credit(c, ms) / 1000 >= TWO_64
    ensures var calls := [Call(key, 0, 0), Call(key, ms, c.bucketSize)];
      && Unaliased(calls, key) && Timely(calls) && Modest(c, Own(calls, key), 2)
      && !OwnDecisions(calls, Decisions(c, EmptyTable(), calls), key)[1]
  {
    hide Decisions, OwnDecisions, Lookup, BucketStep;
    var calls := [Call(key, 0, 0), Call(key, ms, c.bucketSize)];
    KeyIsolation(c, EmptyTable(), calls, key);
    NothingStored(key);
    OwnAll(calls, key);
    assert calls[1..] == [calls[1]] && [calls[1]][1..] == [];
    assert calls[..2] == calls;
    assert Cost(calls) == Cost([calls[1]]) == c.bucketSize;
    FirstStep(c, 0, 0);
    WrappedStep(c, ms);
  }

  lemma {:induction false} OwnAll(calls: seq<Call>, key: Key)
    requires forall i :: 0 <= i < |calls| ==> calls[i].key == key
    ensures Own(calls, key) == calls
  {
    if calls != [] {
      OwnAll(calls[1..], key);
    }
  }

  lemma WrappedStep(c: Config, ms: U64)
    requires c.bucketSize + Credit(c, ms) / 1000 >= TWO_64
    ensures !BucketStep(c, Some(Bucket(c.bucketSize, 0, 0, 1)), ms, c.bucketSize).1
  {
    hide Wrap64, Credit;
    WrapId(ms);
    CreditIs(c, ms);
    var sum := c.bucketSize + Credit(c, ms) / 1000;
    WrapShift(sum - TWO_64, 1);
    WrapId(sum - TWO_64);
  }

  // ---------------------------------------------------------------- the hash

  /** The published FNV-1a 64-bit values of the empty text and of "a". */
  lemma FnvVectors()
    ensures HashFrom(FNV_OFFSET, []) == 0xcbf29ce484222325
    ensures HashFrom(FNV_OFFSET, [97]) == 0xaf63dc4c8601ec8c
  {
    assert Xor(114812351869895750, 0) == 114812351869895750;
    assert Xor(229624703739791500, 1) == 229624703739791501;
    assert Xor(459249407479583001, 3) == 459249407479583002;
    assert Xor(918498814959166002, 6) == 918498814959166004;
    assert Xor(1836997629918332004, 12) == 1836997629918332008;
    assert Xor(3673995259836664009, 24) == 3673995259836664017;
    assert Xor(7347990519673328018, 48) == 7347990519673328034;
    assert Xor(14695981039346656037, 97) == 14695981039346656068;
    assert [97][1..] == [];
  }
}
