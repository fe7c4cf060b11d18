/** Which keys the limiter of src/ratelimiter.c really limits. A key of more than
    127 bytes is stored cut off: it never finds itself again, and it can be stored
    in the chain, and under the name, of another key. */
module RateLimiterAliases {
  import opened CMachine
  import opened RateLimiting
  import opened RateLimiterRuns
  import opened Counting

  // ------------------------------------------- the hash runs back into itself

  lemma BitAndRest(b: nat, r: nat)
    requires b < 2
    ensures (b + 2 * r) % 2 == b && (b + 2 * r) / 2 == r
  {
  }

  lemma {:induction false} XorBits(x: nat, y: nat)
    ensures Xor(x, y) % 2 == (x % 2 + y % 2) % 2
    ensures Xor(x, y) / 2 == Xor(x / 2, y / 2)
  {
    if x > 0 && y > 0 {
      BitAndRest((x % 2 + y % 2) % 2, Xor(x / 2, y / 2));
    }
  }

  /** The lowest bit of a remainder, and the others. */
  lemma RemainderBits(x: nat, p: nat)
    requires p > 0
    ensures x % (2 * p) == x % 2 + 2 * (x / 2 % p)
  {
    var q, r := x / 2 / p, x / 2 % p;
    assert x / 2 == p * q + r;
    assert x == 2 * (p * q) + 2 * r + x % 2;
    assert 2 * p * q == 2 * (p * q);
    RemainderUnique(x, 2 * p, q, 2 * r + x % 2);
  }

  /** The low `k` bits. */
  function Low(x: nat, k: nat): nat {
    x % Pow2(k)
  }

  lemma LowBits(x: nat, k: nat)
    requires k > 0
    ensures Low(x, k) == x % 2 + 2 * Low(x / 2, k - 1)
  {
    RemainderBits(x, Pow2(k - 1));
  }

  lemma SameBit(x: nat, y: nat, z: nat, a: nat, b: nat)
    requires (x % 2 + z % 2) % 2 + 2 * a == (y % 2 + z % 2) % 2 + 2 * b
    ensures x % 2 == y % 2 && a == b
  {
  }

  /** Exclusive or with the same number can be taken back in the low `k` bits. */
  lemma {:induction false} XorCancels(x: nat, y: nat, z: nat, k: nat)
    requires Low(Xor(x, z), k) == Low(Xor(y, z), k)
    ensures Low(x, k) == Low(y, k)
    decreases k
  {
    if k > 0 {
      hide Xor, Low;
      LowBits(x, k);
      LowBits(y, k);
      LowBits(Xor(x, z), k);
      LowBits(Xor(y, z), k);
      XorBits(x, z);
      XorBits(y, z);
      SameBit(x, y, z, Low(Xor(x / 2, z / 2), k - 1), Low(Xor(y / 2, z / 2), k - 1));
      XorCancels(x / 2, y / 2, z / 2, k - 1);
    }
  }

  const PRIME := 1099511628211
  const INVERSE := 38267  // of PRIME, modulo 65536

  /** A product with an odd number can be taken back in the low 16 bits. */
  lemma ProductCancels(x: nat, y: nat)
    requires x * PRIME % 65536 == y * PRIME % 65536
    ensures x % 65536 == y % 65536
  {
    Unmultiplied(x);
    Unmultiplied(y);
  }

  lemma Unmultiplied(x: nat)
    ensures x % 65536 == (x * PRIME % 65536) * INVERSE % 65536
  {
    var q, r := x * PRIME / 65536, x * PRIME % 65536;
    var n := PRIME * INVERSE / 65536;
    assert PRIME * INVERSE == 65536 * n + 1;
    assert x * PRIME * INVERSE == x * (PRIME * INVERSE) == 65536 * (x * n) + x;
    assert x * PRIME == 65536 * q + r;
    assert x * PRIME * INVERSE == 65536 * (q * INVERSE) + r * INVERSE;
    assert x - r * INVERSE == 65536 * (q * INVERSE - x * n);
    Congruent(x, r * INVERSE, q * INVERSE - x * n);
  }

  lemma Congruent(a: nat, b: nat, k: int)
    requires a - b == 65536 * k
    ensures a % 65536 == b % 65536
  {
    RemainderUnique(a, 65536, b / 65536 + k, b % 65536);
  }

  lemma LowOfWrapped(n: nat)
    ensures Wrap64(n) % 65536 == n % 65536
  {
    var k := 0x1_0000_0000_0000 * (n / TWO_64);
    assert n == TWO_64 * (n / TWO_64) + Wrap64(n);
    Congruent(n, Wrap64(n), k);
  }

  /** The low 16 bits of a hash, which choose the chain, tell after one more byte
      what they were before it. */
  lemma MixInjective(x: U64, y: U64, b: Byte)
    requires Mix(x, b) % 65536 == Mix(y, b) % 65536
    ensures x % 65536 == y % 65536
  {
    LowOfWrapped(Xor(x, b) * PRIME);
    LowOfWrapped(Xor(y, b) * PRIME);
    ProductCancels(Xor(x, b), Xor(y, b));
    WordIsPower();
    XorCancels(x, y, b, 16);
  }

  /** The hash after `k` more bytes 'a'. */
  function Hashed(h: U64, k: nat): U64 {
    if k == 0 then h else Mix(Hashed(h, k - 1), 97)
  }

  function Padding(k: nat): Key {
    seq(k, _ => 97)
  }

  lemma {:induction false} HashFromAppend(h: U64, key: Key, k: nat)
    ensures HashFrom(h, key + Padding(k)) == Hashed(HashFrom(h, key), k)
    decreases |key|, k
  {
    if key != [] {
      assert (key + Padding(k))[1..] == key[1..] + Padding(k);
      HashFromAppend(Mix(h, key[0]), key[1..], k);
    } else if k > 0 {
      assert key + Padding(k) == Padding(k) == [97] + Padding(k - 1);
      assert Padding(k)[1..] == [] + Padding(k - 1);
      HashFromAppend(Mix(h, 97), [], k - 1);
      HashedFirst(h, k);
    }
  }

  lemma {:induction false} HashedFirst(h: U64, k: nat)
    requires k > 0
    ensures Hashed(h, k) == Hashed(Mix(h, 97), k - 1)
  {
    if k > 1 {
      HashedFirst(h, k - 1);
    }
  }

  lemma {:induction false} HashedBack(h: U64, i: nat, j: nat)
    requires i <= j && Hashed(h, i) % 65536 == Hashed(h, j) % 65536
    ensures Hashed(h, j - i) % 65536 == h % 65536
  {
    if i > 0 {
      MixInjective(Hashed(h, i - 1), Hashed(h, j - 1), 97);
      HashedBack(h, i - 1, j - 1);
    }
  }

  /** Appending 'a' often enough, and at most 65536 times, leads back to the chain. */
  lemma HashReturns(h: U64) returns (k: nat)
    ensures 0 < k <= RATE_HASH_SIZE && Hashed(h, k) % RATE_HASH_SIZE == h % RATE_HASH_SIZE
  {
    var n: nat := RATE_HASH_SIZE;
    var orbit: seq<nat> := seq(n + 1, i requires 0 <= i < n + 1 => Hashed(h, i) % RATE_HASH_SIZE);
    var i, j := Pigeonhole(orbit, n);
    HashedBack(h, i, j);
    k := j - i;
  }

  /** A text that a `char *` can point to. */
  ghost predicate CString(key: Key) {
    0 !in key
  }

  /** Every key that fills its array has an alias, which is a C string if the key
      is, and of a length that fits any memory. */
  lemma AliasExists(key: Key) returns (caller: Key)
    requires |key| == KEY_CAPACITY
    ensures Aliases(caller, key)
    ensures KEY_CAPACITY < |caller| <= KEY_CAPACITY + RATE_HASH_SIZE
    ensures CString(key) ==> CString(caller)
  {
    var k := HashReturns(HashFrom(FNV_OFFSET, key));
    caller := key + Padding(k);
    HashFromAppend(FNV_OFFSET, key, k);
  }

  /** Exactly the keys that fill their array have aliases. */
  lemma AliasedIffFull(key: Key)
    requires CString(key)
    ensures (exists caller :: CString(caller) && Aliases(caller, key)) <==> |key| == 127
  {
    if |key| == KEY_CAPACITY {
      var caller := AliasExists(key);
    }
  }

  // -------------------------------------------------- what an overlong key does

  /** Its entry is missing before every call. */
  ghost predicate Missing(t: Table, caller: Key) {
    FindKey(t[Slot(caller)], caller) == |t[Slot(caller)]|
  }

  /** Admitting an alias puts a new bucket in front of the key's own. */
  lemma AliasRefills(c: Config, t: Table, caller: Key, key: Key, now: U64, cost: U64)
    requires Aliases(caller, key) && Missing(t, caller) && cost <= c.bucketSize
    ensures var (t', ok) := TableStep(c, t, caller, now, cost);
      ok && Missing(t', caller) && Lookup(t', key) == Some(Bucket(c.bucketSize - cost, now, now, 1))
  {
    hide Slot, FindKey, BucketStep;
    StepOnMiss(c, t, caller, now, cost);
    var chain := t[Slot(caller)];
    var e := Entry(StoredKey(caller), Bucket(c.bucketSize - cost, now, now, 1));
    FindInFront(e, chain, key);
    FindInFront(e, chain, caller);
  }

  /** A call of any other key leaves it missing. */
  lemma StaysMissing(c: Config, t: Table, caller: Key, key: Key, now: U64, cost: U64)
    requires Aliases(caller, key) && Missing(t, caller)
    ensures Missing(TableStep(c, t, key, now, cost).0, caller)
  {
    hide Slot, FindKey, BucketStep;
    var chain := t[Slot(key)];
    var chain' := ChainStep(c, chain, key, now, cost).0;
    if FindKey(chain, key) < |chain| {
      SameKeys(chain, chain', caller);
    } else if |chain'| > |chain| {
      FindInFront(chain'[0], chain, caller);
    }
  }

  /** An alias that asks for nothing, then the key, `n` times at once. */
  function Pairs(caller: Key, key: Key, cost: U64, n: nat): seq<Call> {
    if n == 0 then [] else [Call(caller, 0, 0), Call(key, 0, cost)] + Pairs(caller, key, cost, n - 1)
  }

  ghost predicate AtOnce(calls: seq<Call>) {
    forall i :: 0 <= i < |calls| ==> calls[i].now == 0
  }

  /** Every caller's key is a C string. */
  ghost predicate CStrings(calls: seq<Call>) {
    forall i :: 0 <= i < |calls| ==> CString(calls[i].key)
  }

  /** What the first call adds to a run's sums. */
  lemma FirstCall(c: Config, t: Table, x: Call, rest: seq<Call>, key: Key, s: nat, e: nat)
    ensures var (t', ok) := TableStep(c, t, x.key, x.now, x.cost);
      var calls, counted := [x] + rest, ok && x.key == key && s <= x.now <= e;
      && Admitted(calls, Decisions(c, t, calls), key, s, e)
           == (if counted then x.cost else 0) + Admitted(rest, Decisions(c, t', rest), key, s, e)
      && AdmittedCount(calls, Decisions(c, t, calls), key, s, e)
           == (if counted then 1 else 0) + AdmittedCount(rest, Decisions(c, t', rest), key, s, e)
  {
    hide TableStep;
    var calls, t' := [x] + rest, TableStep(c, t, x.key, x.now, x.cost).0;
    assert calls[1..] == rest;
    assert Decisions(c, t, calls)[1..] == Decisions(c, t', rest);
  }

  lemma {:induction false} PairsCalls(caller: Key, key: Key, cost: U64, n: nat)
    ensures AtOnce(Pairs(caller, key, cost, n))
    ensures CString(caller) && CString(key) ==> CStrings(Pairs(caller, key, cost, n))
  {
    if n > 0 {
      PairsCalls(caller, key, cost, n - 1);
    }
  }

  lemma {:induction false} PairsAdmitted(c: Config, t: Table, caller: Key, key: Key, cost: U64, n: nat)
    requires Aliases(caller, key) && Missing(t, caller) && cost <= c.bucketSize && c.maxRequests >= 2
    ensures var calls := Pairs(caller, key, cost, n);
      && Admitted(calls, Decisions(c, t, calls), key, 0, 0) == n * cost
      && AdmittedCount(calls, Decisions(c, t, calls), key, 0, 0) == n
    decreases n
  {
    hide TableStep, Lookup, Missing, Aliases, BucketStep;
    if n > 0 {
      var rest := Pairs(caller, key, cost, n - 1);
      var x, y := Call(caller, 0, 0), Call(key, 0, cost);
      AliasDiffers(caller, key);
      AliasRefills(c, t, caller, key, 0, 0);
      var t1 := TableStep(c, t, caller, 0, 0).0;
      KeyServed(c, t1, key, cost);
      StaysMissing(c, t1, caller, key, 0, cost);
      PairsAdmitted(c, TableStep(c, t1, key, 0, cost).0, caller, key, cost, n - 1);
      hide Admitted, AdmittedCount, Decisions;
      FirstCall(c, t1, y, rest, key, 0, 0);
      FirstCall(c, t, x, [y] + rest, key, 0, 0);
      assert [x] + ([y] + rest) == [x, y] + rest;
      assert n * cost == (n - 1) * cost + cost;
    }
  }

  lemma AliasDiffers(caller: Key, key: Key)
    requires Aliases(caller, key)
    ensures caller != key && |key| == KEY_CAPACITY
  {
  }

  /** A key whose bucket has just been made full is served at once. */
  lemma KeyServed(c: Config, t: Table, key: Key, cost: U64)
    requires |key| == KEY_CAPACITY && Lookup(t, key) == Some(Bucket(c.bucketSize, 0, 0, 1))
    requires cost <= c.bucketSize && c.maxRequests >= 2
    ensures TableStep(c, t, key, 0, cost).1
  {
    StepLookup(c, t, key, 0, cost, key);
  }

  /** The same call `n` times at once. */
  function Repeated(key: Key, cost: U64, n: nat): seq<Call> {
    if n == 0 then [] else [Call(key, 0, cost)] + Repeated(key, cost, n - 1)
  }

  lemma {:induction false} RepeatedAdmitted(c: Config, t: Table, key: Key, cost: U64, n: nat)
    requires !Fits(key) && Missing(t, key) && cost <= c.bucketSize
    ensures var calls := Repeated(key, cost, n);
      && AtOnce(calls) && (CString(key) ==> CStrings(calls))
      && Admitted(calls, Decisions(c, t, calls), key, 0, 0) == n * cost
      && AdmittedCount(calls, Decisions(c, t, calls), key, 0, 0) == n
    decreases n
  {
    hide TableStep, FindKey;
    if n > 0 {
      OverlongKeyMissesAgain(c, t, key, 0, cost);
      var t' := TableStep(c, t, key, 0, cost).0;
      RepeatedAdmitted(c, t', key, cost, n - 1);
      hide Admitted, AdmittedCount, Decisions;
      FirstCall(c, t, Call(key, 0, cost), Repeated(key, cost, n - 1), key, 0, 0);
      assert n * cost == (n - 1) * cost + cost;
    }
  }

  // --------------------------------------------------- which keys are limited

  /** The token bound holds in every run over any keys that are C strings. */
  ghost predicate TokenBounded(c: Config, key: Key) {
    forall calls: seq<Call>, s: nat, e: nat :: CStrings(calls) && Timely(calls) && s <= e ==>
      1000 * Admitted(calls, Decisions(c, EmptyTable(), calls), key, s, e)
        < 1000 * (c.bucketSize + 1) + Earned(c, e - s)
  }

  /** The window bound holds in every such run. */
  ghost predicate WindowBounded(c: Config, key: Key) {
    forall calls: seq<Call>, s: nat, e: nat :: CStrings(calls) && Timely(calls) && e - s <= c.windowMs ==>
      AdmittedCount(calls, Decisions(c, EmptyTable(), calls), key, s, e) <= 2 * c.maxRequests
  }

  /** In every such run the key is served as it would be alone. */
  ghost predicate Isolated(c: Config, key: Key) {
    forall calls: seq<Call> :: CStrings(calls) ==>
      OwnDecisions(calls, Decisions(c, EmptyTable(), calls), key) == Alone(c, None, Own(calls, key))
  }

  /** A key that is too long, or that has an alias, gets any number of requests
      of any affordable cost admitted at once. */
  lemma UnlimitedAtOnce(c: Config, key: Key, cost: U64, n: nat) returns (calls: seq<Call>)
    requires |key| >= 127 && cost <= c.bucketSize
    requires c.maxRequests >= 2 || |key| > 127
    ensures Timely(calls) && (CString(key) ==> CStrings(calls))
    ensures Admitted(calls, Decisions(c, EmptyTable(), calls), key, 0, 0) == n * cost
    ensures AdmittedCount(calls, Decisions(c, EmptyTable(), calls), key, 0, 0) == n
  {
    if Fits(key) {
      var caller := AliasExists(key);
      calls := Pairs(caller, key, cost, n);
      PairsCalls(caller, key, cost, n);
      PairsAdmitted(c, EmptyTable(), caller, key, cost, n);
    } else {
      calls := Repeated(key, cost, n);
      RepeatedAdmitted(c, EmptyTable(), key, cost, n);
    }
  }

  lemma ShortKeysLimited(c: Config, key: Key)
    requires |key| < KEY_CAPACITY
    ensures TokenBounded(c, key) && (c.maxRequests >= 1 ==> WindowBounded(c, key))
  {
    hide Timely, Admitted, AdmittedCount, Decisions, Unaliased;
    forall calls: seq<Call>, s: nat, e: nat | CStrings(calls) && Timely(calls) && s <= e
      ensures 1000 * Admitted(calls, Decisions(c, EmptyTable(), calls), key, s, e)
            < 1000 * (c.bucketSize + 1) + Earned(c, e - s)
    {
      ShortKeysUnaliased(calls, key);
      TokenBound(c, calls, key, s, e);
    }
    forall calls: seq<Call>, s: nat, e: nat | CStrings(calls) && Timely(calls) && e - s <= c.windowMs && c.maxRequests >= 1
      ensures AdmittedCount(calls, Decisions(c, EmptyTable(), calls), key, s, e) <= 2 * c.maxRequests
    {
      ShortKeysUnaliased(calls, key);
      WindowBound(c, calls, key, s, e);
    }
  }

  /** Exactly the keys that do not fill their array are limited, in any company. */
  lemma LimitedIffShort(c: Config, key: Key)
    requires CString(key) && c.bucketSize >= 1 && c.maxRequests >= 1
    requires c.maxRequests >= 2 || |key| != 127
    ensures TokenBounded(c, key) <==> |key| < 127
    ensures WindowBounded(c, key) <==> |key| < 127
  {
    hide Timely, Admitted, AdmittedCount, Decisions, Unaliased;
    if |key| < KEY_CAPACITY {
      ShortKeysLimited(c, key);
    } else {
      var tokens := UnlimitedAtOnce(c, key, 1, c.bucketSize + 1);
      assert 1000 * Admitted(tokens, Decisions(c, EmptyTable(), tokens), key, 0, 0)
          >= 1000 * (c.bucketSize + 1) + Earned(c, 0 - 0);
      var requests := UnlimitedAtOnce(c, key, 0, 2 * c.maxRequests + 1);
      assert AdmittedCount(requests, Decisions(c, EmptyTable(), requests), key, 0, 0) > 2 * c.maxRequests;
    }
  }

  /** And exactly these are limited under every configuration. */
  lemma AlwaysLimitedIffShort(key: Key)
    requires CString(key)
    ensures (forall c: Config :: TokenBounded(c, key)) <==> |key| < 127
    ensures (forall c: Config :: c.maxRequests >= 1 ==> WindowBounded(c, key)) <==> |key| < 127
  {
    hide TokenBounded, WindowBounded;
    if |key| < KEY_CAPACITY {
      forall c: Config
        ensures TokenBounded(c, key) && (c.maxRequests >= 1 ==> WindowBounded(c, key))
      {
        ShortKeysLimited(c, key);
      }
    } else {
      LimitedIffShort(Config(100, 100, 1000, 1000, 1024), key);
    }
  }

  /** Exactly these keys are isolated from all others, themselves included. */
  lemma IsolatedIffShort(c: Config, key: Key)
    requires CString(key) && c.bucketSize >= 1
    ensures Isolated(c, key) <==> |key| < 127
  {
    if |key| < KEY_CAPACITY {
      forall calls: seq<Call> | CStrings(calls)
        ensures OwnDecisions(calls, Decisions(c, EmptyTable(), calls), key) == Alone(c, None, Own(calls, key))
      {
        ShortKeysUnaliased(calls, key);
        KeyIsolation(c, EmptyTable(), calls, key);
      }
    } else if Fits(key) {
      AliasSteals(c, key);
    } else {
      OverlongServedTwice(c, key);
    }
  }

  /** An alias that takes the whole bucket leaves none for the key's first call. */
  lemma AliasSteals(c: Config, key: Key)
    requires CString(key) && |key| == KEY_CAPACITY && c.bucketSize >= 1
    ensures !Isolated(c, key)
  {
    var caller := AliasExists(key);
    var t, cost := EmptyTable(), c.bucketSize;
    var x, y := Call(caller, 0, cost), Call(key, 0, cost);
    AliasRefills(c, t, caller, key, 0, cost);
    var t1 := TableStep(c, t, caller, 0, cost).0;
    StepLookup(c, t1, key, 0, cost, key);
    SpentBucket(c);
    hide TableStep, Lookup, Slot;
    PairDecisions(c, t, x, y, key);
    assert OwnDecisions([x, y], Decisions(c, t, [x, y]), key) == [false];
    assert Alone(c, None, [y])[0] && CStrings([x, y]);
  }

  lemma SpentBucket(c: Config)
    requires c.bucketSize >= 1
    ensures !BucketStep(c, Some(Bucket(0, 0, 0, 1)), 0, c.bucketSize).1
  {
  }

  lemma PairDecisions(c: Config, t: Table, x: Call, y: Call, key: Key)
    ensures var (t1, ok1) := TableStep(c, t, x.key, x.now, x.cost);
      var ok2 := TableStep(c, t1, y.key, y.now, y.cost).1;
      && Own([x, y], key) == (if x.key == key then [x] else []) + (if y.key == key then [y] else [])
      && OwnDecisions([x, y], Decisions(c, t, [x, y]), key)
         == (if x.key == key then [ok1] else []) + (if y.key == key then [ok2] else [])
  {
    hide TableStep;
    var (t1, ok1) := TableStep(c, t, x.key, x.now, x.cost);
    var ok2 := TableStep(c, t1, y.key, y.now, y.cost).1;
    assert [x, y][1..] == [y] && [y][1..] == [];
    assert Decisions(c, t1, [y]) == [ok2];
    assert Decisions(c, t, [x, y]) == [ok1, ok2] && [ok1, ok2][1..] == [ok2];
    assert Own([y], key) == if y.key == key then [y] else [];
    assert OwnDecisions([y], [ok2], key) == if y.key == key then [ok2] else [];
  }

  /** An overlong key is served twice from a bucket that holds one helping. */
  lemma OverlongServedTwice(c: Config, key: Key)
    requires CString(key) && !Fits(key) && c.bucketSize >= 1
    ensures !Isolated(c, key)
  {
    var t, cost := EmptyTable(), c.bucketSize;
    var x := Call(key, 0, cost);
    OverlongKeyMissesAgain(c, t, key, 0, cost);
    OverlongKeyMissesAgain(c, TableStep(c, t, key, 0, cost).0, key, 0, cost);
    SpentBucket(c);
    hide TableStep, Lookup, Slot;
    PairDecisions(c, t, x, x, key);
    assert OwnDecisions([x, x], Decisions(c, t, [x, x]), key) == [true, true];
    assert [x, x][1..] == [x] && CStrings([x, x]);
    assert Alone(c, None, [x, x])[1] == Alone(c, Some(Bucket(0, 0, 0, 1)), [x])[0];
  }
}
