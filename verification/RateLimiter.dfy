/** src/ratelimiter.c: a token bucket combined with a fixed request window, one
    bucket per key, in a chained hash table. */
module RateLimiting {
  import opened CMachine

  const RATE_HASH_SIZE := 65536
  const KEY_CAPACITY := 127  // char key[128], of which the last byte stays NUL

  type Key = Bytes

  datatype Config = Config(
    tokensPerSec: U64,
    bucketSize: U64,
    windowMs: U64,
    maxRequests: U64,
    maxConcurrent: U64)

  datatype Bucket = Bucket(tokens: U64, lastFill: U64, windowStart: U64, windowCount: U64)

  datatype Entry = Entry(key: Key, bucket: Bucket)

  type Chain = seq<Entry>

  type Table = t: seq<Chain> | |t| == RATE_HASH_SIZE witness seq(RATE_HASH_SIZE, _ => [])

  function EmptyTable(): (t: Table)
    ensures forall i :: 0 <= i < RATE_HASH_SIZE ==> t[i] == []
  {
    seq(RATE_HASH_SIZE, _ => [])
  }

  // ---------------------------------------------------------------- hashing

  /** Bitwise exclusive or. */
  function Xor(x: nat, y: nat): nat {
    if x == 0 then y
    else if y == 0 then x
    else (x % 2 + y % 2) % 2 + 2 * Xor(x / 2, y / 2)
  }

  function Mix(h: U64, c: Byte): U64 {
    Wrap64(Xor(h, c) * 1099511628211)
  }

  /** FNV-1a over the whole key, from an intermediate hash. */
  function HashFrom(h: U64, key: Key): U64
    decreases |key|
  {
    if key == [] then h else HashFrom(Mix(h, key[0]), key[1..])
  }

  const FNV_OFFSET: U64 := 14695981039346656037

  function Slot(key: Key): (i: nat)
    ensures i < RATE_HASH_SIZE
  {
    HashFrom(FNV_OFFSET, key) % RATE_HASH_SIZE
  }

  method HashKey(key: Key) returns (h: U64)
    ensures h == HashFrom(FNV_OFFSET, key)
  {
    h := FNV_OFFSET;
    var i := 0;
    while i < |key|
      invariant 0 <= i <= |key|
      invariant HashFrom(h, key[i..]) == HashFrom(FNV_OFFSET, key)
    {
      h := Mix(h, key[i]);
      i := i + 1;
    }
  }

  // ------------------------------------------------- specification functions

  /** What strncpy leaves in an entry's key array. */
  function StoredKey(key: Key): Key {
    if |key| <= KEY_CAPACITY then key else key[..KEY_CAPACITY]
  }

  function Refilled(c: Config, b: Bucket, now: U64): Bucket {
    var added := Wrap64(Wrap64(now - b.lastFill) * c.tokensPerSec) / 1000;
    if added > 0 then
      var tokens := Wrap64(b.tokens + added);
      b.(tokens := if tokens > c.bucketSize then c.bucketSize else tokens, lastFill := now)
    else
      b
  }

  function Rolled(c: Config, b: Bucket, now: U64): Bucket {
    if Wrap64(now - b.windowStart) > c.windowMs then b.(windowStart := now, windowCount := 0) else b
  }

  /** One request of `cost` tokens against a key's bucket, if it has one yet. */
  function BucketStep(c: Config, b: Option<Bucket>, now: U64, cost: U64): (Option<Bucket>, bool) {
    match b
    case None =>
      if cost > c.bucketSize then (None, false)
      else (Some(Bucket(c.bucketSize - cost, now, now, 1)), true)
    case Some(b0) =>
      var b1 := Rolled(c, Refilled(c, b0, now), now);
      if cost > b1.tokens || b1.windowCount >= c.maxRequests then (Some(b1), false)
      else (Some(b1.(tokens := b1.tokens - cost, windowCount := Wrap64(b1.windowCount + 1))), true)
  }

  /** The position of the first entry for `key`, or the chain's length. */
  function FindKey(chain: Chain, key: Key): (j: nat)
    ensures j <= |chain|
    ensures j < |chain| ==> chain[j].key == key
    ensures forall k :: 0 <= k < j ==> chain[k].key != key
  {
    if chain == [] then 0 else if chain[0].key == key then 0 else 1 + FindKey(chain[1..], key)
  }

  function Lookup(t: Table, key: Key): Option<Bucket> {
    var chain := t[Slot(key)];
    var j := FindKey(chain, key);
    if j < |chain| then Some(chain[j].bucket) else None
  }

  function ChainStep(c: Config, chain: Chain, key: Key, now: U64, cost: U64): (Chain, bool) {
    var j := FindKey(chain, key);
    if j < |chain| then
      var (b, ok) := BucketStep(c, Some(chain[j].bucket), now, cost);
      (chain[j := Entry(chain[j].key, b.value)], ok)
    else
      match BucketStep(c, None, now, cost)
      case (Some(b), ok) => ([Entry(StoredKey(key), b)] + chain, ok)
      case (None, ok) => (chain, ok)
  }

  function TableStep(c: Config, t: Table, key: Key, now: U64, cost: U64): (Table, bool) {
    var (chain, ok) := ChainStep(c, t[Slot(key)], key, now, cost);
    (t[Slot(key) := chain], ok)
  }

  // ------------------------------------------------------- the mutable table

  class BucketEntry {
    const key: Key
    var tokens: U64
    var lastFill: U64
    var windowStart: U64
    var windowCount: U64
    var active: bool
    var next: BucketEntry?
    ghost const slot: nat  // the chain the entry was put in
    ghost const rank: nat  // its distance from that chain's end

    constructor (key: Key, tokens: U64, now: U64, next: BucketEntry?, ghost slot: nat, ghost rank: nat)
      ensures this.key == key && this.next == next && this.slot == slot && this.rank == rank
      ensures active && View() == Entry(key, Bucket(tokens, now, now, 1))
    {
      this.key := key;
      this.tokens := tokens;
      this.lastFill := now;
      this.windowStart := now;
      this.windowCount := 1;
      this.active := true;
      this.next := next;
      this.slot := slot;
      this.rank := rank;
    }

    function View(): Entry
      reads this
    {
      Entry(key, Bucket(tokens, lastFill, windowStart, windowCount))
    }

    /** Refills, rolls the window, then admits or denies `cost` tokens. */
    method Charge(c: Config, cost: U64, now: U64) returns (ok: bool)
      modifies `tokens, `lastFill, `windowStart, `windowCount
      ensures (Some(View().bucket), ok) == BucketStep(c, Some(old(View()).bucket), now, cost)
    {
      var elapsed := Wrap64(now - lastFill);
      var tokensToAdd := Wrap64(elapsed * c.tokensPerSec) / 1000;
      if tokensToAdd > 0 {
        tokens := Wrap64(tokens + tokensToAdd);
        if tokens > c.bucketSize { tokens := c.bucketSize; }
        lastFill := now;
      }
      if Wrap64(now - windowStart) > c.windowMs {
        windowStart := now;
        windowCount := 0;
      }
      if cost > tokens { return false; }
      if windowCount >= c.maxRequests { return false; }
      tokens := tokens - cost;
      windowCount := Wrap64(windowCount + 1);
      return true;
    }
  }

  ghost function At(nodes: seq<BucketEntry>, j: nat): BucketEntry? {
    if j < |nodes| then nodes[j] else null
  }

  /** `nodes` is the linked list that starts at `head`; it is filed under `slot`
      and its entries hold the values in `chain`. */
  ghost predicate IsList(head: BucketEntry?, nodes: seq<BucketEntry>, slot: nat, chain: Chain)
    reads nodes
  {
    && head == At(nodes, 0)
    && |nodes| == |chain|
    && forall j :: 0 <= j < |nodes| ==>
         && nodes[j].next == At(nodes, j + 1)
         && nodes[j].active
         && nodes[j].slot == slot
         && nodes[j].rank == |nodes| - 1 - j
         && nodes[j].View() == chain[j]
  }

  lemma LinkFront(e: BucketEntry, nodes: seq<BucketEntry>, slot: nat, chain: Chain)
    requires IsList(e.next, nodes, slot, chain)
    requires e.active && e.slot == slot && e.rank == |nodes|
    ensures IsList(e, [e] + nodes, slot, [e.View()] + chain)
  {
    var all := [e] + nodes;
    forall j | 0 <= j < |all|
      ensures all[j].next == At(all, j + 1)
      ensures all[j].active && all[j].slot == slot && all[j].rank == |all| - 1 - j
    {
      if j > 0 {
        assert all[j] == nodes[j - 1] && At(all, j + 1) == At(nodes, j);
      } else {
        assert all[j] == e && At(all, 1) == At(nodes, 0);
      }
    }
  }

  lemma StepOnMiss(c: Config, t: Table, key: Key, now: U64, cost: U64)
    requires FindKey(t[Slot(key)], key) == |t[Slot(key)]|
    ensures cost > c.bucketSize ==> TableStep(c, t, key, now, cost) == (t, false)
    ensures cost <= c.bucketSize ==> TableStep(c, t, key, now, cost) == (
      t[Slot(key) := [Entry(StoredKey(key), Bucket(c.bucketSize - cost, now, now, 1))] + t[Slot(key)]], true)
  {
    assert t[Slot(key) := t[Slot(key)]] == t;
  }

  lemma StepOnHit(c: Config, t: Table, key: Key, now: U64, cost: U64, j: nat, e: Entry, ok: bool)
    requires j == FindKey(t[Slot(key)], key) && j < |t[Slot(key)]|
    requires e.key == t[Slot(key)][j].key
    requires (Some(e.bucket), ok) == BucketStep(c, Some(t[Slot(key)][j].bucket), now, cost)
    ensures TableStep(c, t, key, now, cost) == (t[Slot(key) := t[Slot(key)][j := e]], ok)
  {
  }

  class RateLimiter {
    var config: Config
    const buckets: array<BucketEntry?>
    ghost var Contents: Table
    ghost var chains: seq<seq<BucketEntry>>
    ghost var Repr: set<object>

    ghost predicate Valid()
      reads this, Repr
    {
      && this in Repr && buckets in Repr
      && buckets.Length == RATE_HASH_SIZE == |chains|
      && (forall i, j :: 0 <= i < |chains| && 0 <= j < |chains[i]| ==> chains[i][j] in Repr)
      && (forall i :: 0 <= i < |chains| ==> IsList(buckets[i], chains[i], i, Contents[i]))
    }

    constructor (cfg: Config)
      ensures Valid() && fresh(Repr)
      ensures Contents == EmptyTable()
      ensures config.tokensPerSec == (if cfg.tokensPerSec == 0 then 100 else cfg.tokensPerSec)
      ensures config.bucketSize == (if cfg.bucketSize == 0 then config.tokensPerSec else cfg.bucketSize)
      ensures config.windowMs == (if cfg.windowMs == 0 then 1000 else cfg.windowMs)
      ensures config.maxRequests == (if cfg.maxRequests == 0 then 1000 else cfg.maxRequests)
      ensures config.maxConcurrent == (if cfg.maxConcurrent == 0 then 1024 else cfg.maxConcurrent)
    {
      var c := cfg;
      if c.tokensPerSec == 0 { c := c.(tokensPerSec := 100); }
      if c.bucketSize == 0 { c := c.(bucketSize := c.tokensPerSec); }
      if c.windowMs == 0 { c := c.(windowMs := 1000); }
      if c.maxRequests == 0 { c := c.(maxRequests := 1000); }
      if c.maxConcurrent == 0 { c := c.(maxConcurrent := 1024); }
      config := c;
      buckets := new BucketEntry?[RATE_HASH_SIZE](_ => null);
      chains := seq(RATE_HASH_SIZE, _ => []);
      Contents := EmptyTable();
      new;
      Repr := {this, buckets};
    }

    method SetConfig(cfg: Config)
      requires Valid()
      modifies this`config
      ensures Valid() && config == cfg && Contents == old(Contents)
    {
      config := cfg;
    }

    /** Walks the chain for an active entry with the key. */
    method Search(idx: nat, key: Key) returns (e: BucketEntry?, ghost j: nat)
      requires Valid() && idx < RATE_HASH_SIZE
      ensures j == FindKey(Contents[idx], key)
      ensures e == At(chains[idx], FindKey(Contents[idx], key))
      ensures |chains[idx]| == |Contents[idx]|
      ensures e != null ==> e.View() == Contents[idx][j]
    {
      e := buckets[idx];
      j := 0;
      ghost var nodes := chains[idx];
      while e != null
        invariant 0 <= j <= |nodes|
        invariant IsList(buckets[idx], nodes, idx, Contents[idx])
        invariant e == At(nodes, j)
        invariant forall k :: 0 <= k < j ==> nodes[k].key != key
        decreases |nodes| - j
      {
        if e.active && e.key == key { break; }
        e := e.next;
        j := j + 1;
      }
      FindKeyUnique(Contents[idx], key, j);
    }

    /** Puts a new entry at the head of its chain. */
    method Link(e: BucketEntry, idx: nat)
      requires Valid() && idx < RATE_HASH_SIZE && e !in Repr
      requires e.active && e.slot == idx && e.rank == |chains[idx]| && e.next == buckets[idx]
      modifies `chains, `Contents, `Repr, buckets
      ensures Valid() && Repr == old(Repr) + {e}
      ensures Contents == old(Contents)[idx := [e.View()] + old(Contents[idx])]
    {
      ghost var nodes := chains[idx];
      LinkFront(e, nodes, idx, Contents[idx]);
      buckets[idx] := e;
      chains := chains[idx := [e] + nodes];
      Contents := Contents[idx := [e.View()] + Contents[idx]];
      Repr := Repr + {e};
    }

    method Insert(idx: nat, key: Key, cost: U64, now: U64)
      requires Valid() && idx < RATE_HASH_SIZE && cost <= config.bucketSize
      modifies Repr
      ensures Valid() && fresh(Repr - old(Repr)) && config == old(config)
      ensures Contents == old(Contents)[idx :=
          [Entry(StoredKey(key), Bucket(config.bucketSize - cost, now, now, 1))] + old(Contents[idx])]
    {
      hide IsList, Slot, HashFrom, Refilled, Rolled;
      var stored := if |key| <= KEY_CAPACITY then key else key[..KEY_CAPACITY];
      var e := new BucketEntry(stored, config.bucketSize - cost, now, buckets[idx], idx, |chains[idx]|);
      Link(e, idx);
    }

    /** Charging one entry in place leaves every other entry of the table alone. */
    method Charge(e: BucketEntry, cost: U64, now: U64, ghost idx: nat, ghost j: nat) returns (ok: bool)
      requires Valid() && idx < RATE_HASH_SIZE && j < |chains[idx]| && e == chains[idx][j]
      modifies e, `Contents
      ensures Valid()
      ensures (Some(e.View().bucket), ok) == BucketStep(config, Some(old(e.View()).bucket), now, cost)
      ensures Contents == old(Contents)[idx := old(Contents[idx])[j := e.View()]]
    {
      assert IsList(buckets[idx], chains[idx], idx, Contents[idx]);
      ok := e.Charge(config, cost, now);
      Contents := Contents[idx := Contents[idx][j := e.View()]];
      forall i | 0 <= i < |chains|
        ensures IsList(buckets[i], chains[i], i, Contents[i])
      {
        assert old(IsList(buckets[i], chains[i], i, Contents[i]));
        if i != idx {
          assert e !in chains[i];
        }
      }
    }

    method AllowN(key: Key, cost: U64, now: U64) returns (ok: bool)
      requires Valid()
      modifies Repr
      ensures Valid() && fresh(Repr - old(Repr)) && config == old(config)
      ensures Contents == TableStep(config, old(Contents), key, now, cost).0
      ensures ok == TableStep(config, old(Contents), key, now, cost).1
    {
      hide TableStep, BucketStep, IsList, FindKey, HashFrom, StoredKey;
      var h := HashKey(key);
      var idx := h % RATE_HASH_SIZE;
      ghost var t := Contents;
      var e, j := Search(idx, key);
      if e == null {
        StepOnMiss(config, t, key, now, cost);
        if cost > config.bucketSize { return false; }
        Insert(idx, key, cost, now);
        return true;
      }
      ok := Charge(e, cost, now, idx, j);
      StepOnHit(config, t, key, now, cost, j, e.View(), ok);
    }

    method Allow(key: Key, now: U64) returns (ok: bool)
      requires Valid()
      modifies Repr
      ensures Valid() && fresh(Repr - old(Repr)) && config == old(config)
      ensures Contents == TableStep(config, old(Contents), key, now, 1).0
      ensures ok == TableStep(config, old(Contents), key, now, 1).1
    {
      ok := AllowN(key, 1, now);
    }
  }

  lemma {:induction false} FindKeyUnique(chain: Chain, key: Key, j: nat)
    requires j <= |chain|
    requires j < |chain| ==> chain[j].key == key
    requires forall k :: 0 <= k < j ==> chain[k].key != key
    ensures FindKey(chain, key) == j
  {
    var f := FindKey(chain, key);
    assert !(f < j);
    assert !(j < f);
  }
}
