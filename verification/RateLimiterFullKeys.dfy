/** Keys of exactly 127 bytes under a limit of at most one request per window, in
    src/ratelimiter.c: an alias then brings tokens, but uses up the request of the
    window it opens. */
module RateLimiterFullKeys {
  import opened CMachine
  import opened RateLimiting
  import opened RateLimiterRuns
  import opened RateLimiterAliases

  /** What any caller does to the bucket of a key that fits: its own call steps
      it, an alias may put a new one in its place, and others leave it. */
  lemma StepAnyCaller(c: Config, t: Table, caller: Key, now: U64, cost: U64, key: Key)
    requires Fits(key)
    ensures var (t', ok) := TableStep(c, t, caller, now, cost);
      if caller == key then (Lookup(t', key), ok) == BucketStep(c, Lookup(t, key), now, cost)
      else
        || Lookup(t', key) == Lookup(t, key)
        || (cost <= c.bucketSize && Lookup(t', key) == Some(Bucket(c.bucketSize - cost, now, now, 1)))
  {
    hide Slot, FindKey, BucketStep;
    if !Aliases(caller, key) {
      StepLookup(c, t, caller, now, cost, key);
    } else if Missing(t, caller) && cost <= c.bucketSize {
      AliasRefills(c, t, caller, key, now, cost);
    } else if Missing(t, caller) {
      StepOnMiss(c, t, caller, now, cost);
    } else {
      var chain := t[Slot(caller)];
      SameKeys(chain, ChainStep(c, chain, caller, now, cost).0, key);
      OtherEntry(chain, caller, key);
    }
  }

  lemma OtherEntry(chain: Chain, caller: Key, key: Key)
    requires caller != key && FindKey(chain, caller) < |chain|
    ensures FindKey(chain, caller) != FindKey(chain, key)
  {
  }

  // ------------------------------------------------------------- window bound

  lemma QuotaOfAlias(c: Config, b: Option<Bucket>, s: nat, e: nat, prev: nat, now: U64, cost: U64)
    requires c.maxRequests == 1 && WithinQuota(c, b) && prev <= now && cost <= c.bucketSize
    ensures Quota(c, Some(Bucket(c.bucketSize - cost, now, now, 1)), s, e, now) <= Quota(c, b, s, e, prev)
  {
    QuotaPositive(c, b, s, e, prev);
  }

  lemma {:induction false} QuotaInCompany(c: Config, t: Table, calls: seq<Call>, key: Key, s: nat, e: nat, prev: nat)
    requires Fits(key) && c.maxRequests == 1 && WithinQuota(c, Lookup(t, key)) && e - s <= c.windowMs
    requires Inversions(calls, prev) == 0
    ensures AdmittedCount(calls, Decisions(c, t, calls), key, s, e) <= Quota(c, Lookup(t, key), s, e, prev)
    decreases |calls|
  {
    hide TableStep, Lookup, BucketStep, Quota;
    var b := Lookup(t, key);
    QuotaPositive(c, b, s, e, prev);
    if calls != [] {
      var x, rest := calls[0], calls[1..];
      var (t', ok) := TableStep(c, t, x.key, x.now, x.cost);
      assert calls == [x] + rest;
      FirstCall(c, t, x, rest, key, s, e);
      StepAnyCaller(c, t, x.key, x.now, x.cost, key);
      if x.key == key {
        QuotaStep(c, b, s, e, prev, x.now, x.cost);
      } else if Lookup(t', key) == b {
        QuotaFalls(c, b, s, e, prev, x.now);
      } else {
        QuotaOfAlias(c, b, s, e, prev, x.now, x.cost);
      }
      QuotaInCompany(c, t', rest, key, s, e, x.now);
    }
  }

  lemma QuotaFalls(c: Config, b: Option<Bucket>, s: nat, e: nat, prev: nat, now: nat)
    requires prev <= now && WithinQuota(c, b)
    ensures Quota(c, b, s, e, now) <= Quota(c, b, s, e, prev)
  {
    QuotaPositive(c, b, s, e, prev);
  }

  lemma {:induction false} TimelyInversions(calls: seq<Call>, prev: nat)
    requires Timely(calls) && forall i :: 0 <= i < |calls| ==> prev <= calls[i].now
    ensures Inversions(calls, prev) == 0
  {
    if calls != [] {
      TimelyInversions(calls[1..], calls[0].now);
    }
  }

  /** For every configuration and every key: the window bound holds exactly for
      short keys, and for those of 127 bytes if a window has one request. */
  lemma WindowBoundedIff(c: Config, key: Key)
    requires CString(key)
    ensures WindowBounded(c, key) <==>
      c.maxRequests >= 1 && (|key| < 127 || (|key| == 127 && c.maxRequests == 1))
  {
    hide Timely, AdmittedCount, Decisions, Lookup;
    if c.maxRequests == 0 {
      FirstRequestAdmitted(c, key);
    } else if |key| < KEY_CAPACITY {
      ShortKeysLimited(c, key);
    } else if |key| == KEY_CAPACITY && c.maxRequests == 1 {
      forall calls: seq<Call>, s: nat, e: nat | CStrings(calls) && Timely(calls) && e - s <= c.windowMs
        ensures AdmittedCount(calls, Decisions(c, EmptyTable(), calls), key, s, e) <= 2 * c.maxRequests
      {
        TimelyInversions(calls, 0);
        NothingThere(key);
        QuotaInCompany(c, EmptyTable(), calls, key, s, e, 0);
        QuotaPositive(c, None, s, e, 0);
      }
    } else {
      var requests := UnlimitedAtOnce(c, key, 0, 2 * c.maxRequests + 1);
      assert AdmittedCount(requests, Decisions(c, EmptyTable(), requests), key, 0, 0) > 2 * c.maxRequests;
    }
  }

  lemma NothingThere(key: Key)
    ensures Lookup(EmptyTable(), key) == None && Missing(EmptyTable(), key)
  {
  }

  /** Even a limit of no requests lets a key's first request through. */
  lemma FirstRequestAdmitted(c: Config, key: Key)
    requires CString(key) && c.maxRequests == 0
    ensures !WindowBounded(c, key)
  {
    var x := Call(key, 0, 0);
    StepOnMiss(c, EmptyTable(), key, 0, 0);
    assert AdmittedCount([x], Decisions(c, EmptyTable(), [x]), key, 0, 0) == 1;
    assert CStrings([x]) && Timely([x]);
  }

  // -------------------------------------------------------------- token bound

  /** The bucket and the clock are in order. */
  ghost predicate Orderly(c: Config, b: Option<Bucket>, prev: nat) {
    Sane(c, b) && WithinQuota(c, b) && (b.Some? ==> b.value.windowStart <= prev)
  }

  /** When the key can next be admitted, if nobody renews its bucket: with its
      window's request used up, not before the next window. */
  function NextStart(c: Config, b: Bucket, now: nat): nat {
    if b.windowCount == 0 || b.windowStart + c.windowMs < now then now else b.windowStart + c.windowMs + 1
  }

  /** What a bucket that is full by then and the time that is left give. */
  ghost function Awaited(c: Config, e: nat, start: nat): nat {
    if start > e then 0 else 1000 * c.bucketSize + 999 + Earned(c, e - start)
  }

  /** What may still be admitted up to `e`, now that this is known. */
  ghost function Prospect(c: Config, b: Option<Bucket>, s: nat, e: nat, now: nat): nat
    requires s <= e
  {
    var budget := Budget(c, b, s, e, now);
    if now < s || now > e || b.None? then budget
    else
      var awaited := Awaited(c, e, NextStart(c, b.value, now));
      if budget < awaited then budget else awaited
  }

  lemma AwaitedFalls(c: Config, e: nat, x: nat, y: nat)
    requires x <= y
    ensures Awaited(c, e, y) <= Awaited(c, e, x)
  {
    if y <= e {
      EarnedSum(c, y - x, e - y);
      assert y - x + (e - y) == e - x;
    }
  }

  /** The key's own call pays from its prospect. */
  lemma ProspectStep(c: Config, b: Option<Bucket>, s: nat, e: nat, prev: nat, now: U64, cost: U64)
    requires c.maxRequests == 1 && Orderly(c, b, prev) && prev <= now && s <= e
    ensures var (b', ok) := BucketStep(c, b, now, cost);
      Orderly(c, b', now) &&
      (if ok && s <= now <= e then 1000 * cost else 0) + Prospect(c, b', s, e, now) <= Prospect(c, b, s, e, prev)
  {
    hide BucketStep, Budget, Wrap64, Worth, Awaited;
    var (b', ok) := BucketStep(c, b, now, cost);
    BudgetStep(c, b, s, e, prev, now, cost);
    WindowStep(c, b, now, cost);
    if b.Some? {
      WrapId(now - b.value.windowStart);
      if s <= prev && now <= e {
        AwaitedStep(c, b.value, e, prev, now, cost);
        BudgetAt(c, b', s, e, now);
      }
    }
    BudgetOver(c, b', s, e, now);
  }

  lemma BudgetOver(c: Config, b: Option<Bucket>, s: nat, e: nat, now: nat)
    requires s <= e
    ensures now > e ==> Budget(c, b, s, e, now) == 0
  {
  }

  lemma BudgetAt(c: Config, b: Option<Bucket>, s: nat, e: nat, now: nat)
    requires s <= now <= e && b.Some?
    ensures Budget(c, b, s, e, now) == Worth(c, b.value, now) + Earned(c, e - now)
  {
  }

  lemma AwaitedStep(c: Config, b: Bucket, e: nat, prev: nat, now: U64, cost: U64)
    requires c.maxRequests == 1 && Orderly(c, Some(b), prev) && prev <= now <= e
    ensures var (b', ok) := BucketStep(c, Some(b), now, cost);
      && b'.Some?
      && var left := Worth(c, b'.value, now) + Earned(c, e - now);
         var more := Awaited(c, e, NextStart(c, b'.value, now));
         (if ok then 1000 * cost else 0) + (if left < more then left else more)
           <= Awaited(c, e, NextStart(c, b, prev))
  {
    hide BucketStep, Wrap64, Worth, Awaited, Earned;
    var (b', ok) := BucketStep(c, Some(b), now, cost);
    StepWorth(c, Some(b), now, cost);
    WindowStep(c, Some(b), now, cost);
    WrapId(now - b.windowStart);
    AwaitedNow(c, e, now);
    if now - b.windowStart > c.windowMs || b.windowCount == 0 {
      AwaitedFalls(c, e, NextStart(c, b, prev), now);
    } else {
      AwaitedFalls(c, e, NextStart(c, b, prev), NextStart(c, b'.value, now));
    }
  }

  lemma AwaitedNow(c: Config, e: nat, now: nat)
    requires now <= e
    ensures Awaited(c, e, now) == 1000 * c.bucketSize + 999 + Earned(c, e - now)
  {
  }

  /** What a window earns, in thousandths of a token. */
  ghost function WindowEarns(c: Config): nat {
    Earned(c, c.windowMs + 1)
  }

  /** An alias's call does not improve the prospect if a window earns a bucket. */
  lemma ProspectOfAlias(c: Config, b: Option<Bucket>, s: nat, e: nat, prev: nat, now: U64, cost: U64)
    requires c.maxRequests == 1 && Orderly(c, b, prev) && prev <= now && s <= e && cost <= c.bucketSize
    requires WindowEarns(c) >= 1000 * c.bucketSize + 999
    ensures var b' := Some(Bucket(c.bucketSize - cost, now, now, 1));
      Orderly(c, b', now) && Prospect(c, b', s, e, now) <= Prospect(c, b, s, e, prev)
  {
    var b' := Bucket(c.bucketSize - cost, now, now, 1);
    NoCredit(c);
    hide Credit, Earned;
    if s <= now <= e {
      EarnedSum(c, now - s, e - now);
      assert now - s + (e - now) == e - s;
      if s <= prev && b.Some? {
        EarnedSum(c, now - prev, e - now);
        assert now - prev + (e - now) == e - prev;
        var start := now + c.windowMs + 1;
        AwaitedFalls(c, e, NextStart(c, b.value, prev), start);
        if start <= e {
          EarnedSum(c, c.windowMs + 1, e - start);
          assert c.windowMs + 1 + (e - start) == e - now;
        }
      }
    }
  }

  lemma {:induction false} ProspectInCompany(c: Config, t: Table, calls: seq<Call>, key: Key, s: nat, e: nat, prev: nat)
    requires Fits(key) && c.maxRequests == 1 && Orderly(c, Lookup(t, key), prev) && s <= e
    requires WindowEarns(c) >= 1000 * c.bucketSize + 999
    requires Inversions(calls, prev) == 0
    ensures 1000 * Admitted(calls, Decisions(c, t, calls), key, s, e) <= Prospect(c, Lookup(t, key), s, e, prev)
    decreases |calls|
  {
    hide TableStep, Lookup, BucketStep, Prospect, Orderly, WindowEarns;
    if calls != [] {
      var b := Lookup(t, key);
      var x, rest := calls[0], calls[1..];
      var (t', ok) := TableStep(c, t, x.key, x.now, x.cost);
      assert calls == [x] + rest;
      FirstCall(c, t, x, rest, key, s, e);
      StepAnyCaller(c, t, x.key, x.now, x.cost, key);
      if x.key == key {
        ProspectStep(c, b, s, e, prev, x.now, x.cost);
        ProspectInCompany(c, t', rest, key, s, e, x.now);
      } else if Lookup(t', key) == b {
        LaterFirst(rest, prev, x.now);
        ProspectInCompany(c, t', rest, key, s, e, prev);
      } else {
        ProspectOfAlias(c, b, s, e, prev, x.now, x.cost);
        ProspectInCompany(c, t', rest, key, s, e, x.now);
      }
    }
  }

  /** With one request per window, the token bound holds of a key of 127 bytes if
      a window earns a whole bucket and one token more. */
  lemma FullKeyBoundedIfWindowEarns(c: Config, key: Key)
    requires |key| == 127 && c.maxRequests == 1
    requires WindowEarns(c) >= 1000 * c.bucketSize + 999
    ensures TokenBounded(c, key)
  {
    hide Timely, Admitted, Decisions, Lookup, WindowEarns, Earned;
    forall calls: seq<Call>, s: nat, e: nat | CStrings(calls) && Timely(calls) && s <= e
      ensures 1000 * Admitted(calls, Decisions(c, EmptyTable(), calls), key, s, e)
            < 1000 * (c.bucketSize + 1) + Earned(c, e - s)
    {
      TimelyInversions(calls, 0);
      NothingThere(key);
      ProspectInCompany(c, EmptyTable(), calls, key, s, e, 0);
    }
  }

  // -------------------------------------------------- how an alias breaks it

  /** Once a window: the alias brings what the window will not earn, and the key
      takes the whole bucket when the next window opens. */
  function Renewals(c: Config, caller: Key, key: Key, now: nat, n: nat): seq<Call>
    requires now + n * (c.windowMs + 1) < TWO_64
    decreases n
  {
    if n == 0 then []
    else
      var next := now + (c.windowMs + 1);
      OneWindow(c, now, n);
      [Call(caller, now, Topped(c)), Call(key, next, c.bucketSize)] + Renewals(c, caller, key, next, n - 1)
  }

  /** What the refill of a window will add to the alias's bucket, or all of it. */
  function Topped(c: Config): (x: U64)
    ensures x <= c.bucketSize
  {
    var added := Wrap64(Wrap64(c.windowMs + 1) * c.tokensPerSec) / 1000;
    if added < c.bucketSize then added else c.bucketSize
  }

  lemma OneWindow(c: Config, now: nat, n: nat)
    requires n > 0
    ensures now + n * (c.windowMs + 1) == now + (c.windowMs + 1) + (n - 1) * (c.windowMs + 1)
    ensures now + (c.windowMs + 1) <= now + n * (c.windowMs + 1)
  {
    OneMore(n - 1, c.windowMs + 1);
  }

  /** The renewed bucket is full when the next window opens. */
  lemma RenewedFull(c: Config, now: U64, next: U64)
    requires c.maxRequests == 1 && next == now + c.windowMs + 1
    ensures BucketStep(c, Some(Bucket(c.bucketSize - Topped(c), now, now, 1)), next, c.bucketSize).1
  {
    hide Wrap64;
    var b := Bucket(c.bucketSize - Topped(c), now, now, 1);
    assert next - now == c.windowMs + 1;
    var added := Wrap64(Wrap64(next - now) * c.tokensPerSec) / 1000;
    WrapId(next - now);
    WrapId(b.tokens + (if b.tokens + added < TWO_64 then added else 0));
    RefillWindow(c, b, next);
  }

  lemma {:induction false} RenewalsTimes(c: Config, caller: Key, key: Key, now: nat, n: nat)
    requires now + n * (c.windowMs + 1) < TWO_64
    ensures var calls := Renewals(c, caller, key, now, n);
      && Timely(calls) && (CString(caller) && CString(key) ==> CStrings(calls))
      && forall i :: 0 <= i < |calls| ==> now <= calls[i].now <= now + n * (c.windowMs + 1)
    decreases n
  {
    if n > 0 {
      OneWindow(c, now, n);
      RenewalsTimes(c, caller, key, now + (c.windowMs + 1), n - 1);
    }
  }

  lemma {:induction false} RenewalsAdmitted(c: Config, t: Table, caller: Key, key: Key, now: nat, n: nat, e: nat)
    requires c.maxRequests == 1 && Aliases(caller, key) && Missing(t, caller)
    requires now + n * (c.windowMs + 1) < TWO_64 && now + n * (c.windowMs + 1) <= e
    ensures var calls := Renewals(c, caller, key, now, n);
      Admitted(calls, Decisions(c, t, calls), key, 0, e) == n * c.bucketSize
    decreases n
  {
    hide TableStep, Lookup, Missing, Aliases, BucketStep, Topped;
    if n > 0 {
      OneWindow(c, now, n);
      var next := now + (c.windowMs + 1);
      var rest := Renewals(c, caller, key, next, n - 1);
      var x, y := Call(caller, now, Topped(c)), Call(key, next, c.bucketSize);
      AliasDiffers(caller, key);
      AliasRefills(c, t, caller, key, now, Topped(c));
      var t1 := TableStep(c, t, caller, now, Topped(c)).0;
      StepAnyCaller(c, t1, key, next, c.bucketSize, key);
      RenewedFull(c, now, next);
      StaysMissing(c, t1, caller, key, next, c.bucketSize);
      RenewalsAdmitted(c, TableStep(c, t1, key, next, c.bucketSize).0, caller, key, next, n - 1, e);
      hide Admitted, AdmittedCount, Decisions;
      FirstCall(c, t1, y, rest, key, 0, e);
      FirstCall(c, t, x, [y] + rest, key, 0, e);
      assert [x] + ([y] + rest) == [x, y] + rest;
      OneMore(n - 1, c.bucketSize);
    }
  }

  /** It does not hold if some number of windows that the clock has room for earns
      a token less than as many buckets. */
  lemma FullKeyUnboundedIfWindowsFallShort(c: Config, key: Key, n: nat)
    requires CString(key) && |key| == 127 && c.maxRequests == 1
    requires n * (c.windowMs + 1) < TWO_64
    requires n * (1000 * c.bucketSize) >= 1000 + n * WindowEarns(c)
    ensures !TokenBounded(c, key)
  {
    var caller := AliasExists(key);
    var first, rest := Call(key, 0, c.bucketSize), Renewals(c, caller, key, 0, n);
    var calls, e := [first] + rest, n * (c.windowMs + 1);
    RenewalsTimes(c, caller, key, 0, n);
    RenewedRun(c, caller, key, n);
    assert CStrings(calls) && Timely(calls);
    hide Renewals, Aliases, Admitted, Decisions, CStrings, Timely, WindowEarns, Earned;
    EarnedTimes(c, n);
    Thousands(n, c.bucketSize);
    assert 1000 * Admitted(calls, Decisions(c, EmptyTable(), calls), key, 0, e)
        >= 1000 * (c.bucketSize + 1) + Earned(c, e - 0);
  }

  lemma RenewedRun(c: Config, caller: Key, key: Key, n: nat)
    requires c.maxRequests == 1 && Aliases(caller, key) && n * (c.windowMs + 1) < TWO_64
    ensures var calls := [Call(key, 0, c.bucketSize)] + Renewals(c, caller, key, 0, n);
      Admitted(calls, Decisions(c, EmptyTable(), calls), key, 0, n * (c.windowMs + 1)) == n * c.bucketSize + c.bucketSize
  {
    var t, e := EmptyTable(), n * (c.windowMs + 1);
    NothingThere(key);
    NothingThere(caller);
    StepOnMiss(c, t, key, 0, c.bucketSize);
    StaysMissing(c, t, caller, key, 0, c.bucketSize);
    hide Renewals, Aliases, TableStep, Admitted, AdmittedCount, Decisions, Missing, Lookup;
    RenewalsAdmitted(c, TableStep(c, t, key, 0, c.bucketSize).0, caller, key, 0, n, e);
    FirstCall(c, t, Call(key, 0, c.bucketSize), Renewals(c, caller, key, 0, n), key, 0, e);
  }

  lemma EarnedTimes(c: Config, n: nat)
    ensures Earned(c, n * (c.windowMs + 1)) == n * WindowEarns(c)
  {
  }

  lemma Thousands(n: nat, b: nat)
    ensures 1000 * (n * b + b) == n * (1000 * b) + 1000 * b
  {
  }

  /** A limit of no requests lets only a first call through, which no alias renews. */
  lemma {:induction false} FirstCallOnly(c: Config, t: Table, calls: seq<Call>, key: Key, s: nat, e: nat)
    requires Fits(key) && c.maxRequests == 0
    ensures Admitted(calls, Decisions(c, t, calls), key, s, e) <= if Lookup(t, key).Some? then 0 else c.bucketSize
    decreases |calls|
  {
    hide TableStep, Lookup, Refilled, Rolled;
    if calls != [] {
      var x, rest := calls[0], calls[1..];
      assert calls == [x] + rest;
      FirstCall(c, t, x, rest, key, s, e);
      StepAnyCaller(c, t, x.key, x.now, x.cost, key);
      FirstCallOnly(c, TableStep(c, t, x.key, x.now, x.cost).0, rest, key, s, e);
    }
  }

  lemma FullKeyBoundedWithoutRequests(c: Config, key: Key)
    requires |key| == 127 && c.maxRequests == 0
    ensures TokenBounded(c, key)
  {
    hide Timely, Admitted, Decisions, Lookup;
    forall calls: seq<Call>, s: nat, e: nat | CStrings(calls) && Timely(calls) && s <= e
      ensures 1000 * Admitted(calls, Decisions(c, EmptyTable(), calls), key, s, e)
            < 1000 * (c.bucketSize + 1) + Earned(c, e - s)
    {
      FirstCallOnly(c, EmptyTable(), calls, key, s, e);
    }
  }
}
