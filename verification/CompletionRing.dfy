/** src/iouring_engine.c: the completion ring shared with the kernel and the
    submission slots, with free-running 32-bit counters. */
module CompletionRings {
  import opened CMachine

  // ------------------------------------------------------------- the mask

  /** Bitwise "and" of two unsigned numbers. */
  function And(x: nat, m: nat): nat {
    if x == 0 || m == 0 then 0 else x % 2 * (m % 2) + 2 * And(x / 2, m / 2)
  }

  lemma AndOdd(x: nat, p: nat)
    requires x > 0 && p > 0
    ensures And(x, 2 * p - 1) == x % 2 + 2 * And(x / 2, p - 1)
  {
    assert (2 * p - 1) % 2 == 1 && (2 * p - 1) / 2 == p - 1;
  }

  function Rem(x: nat, d: nat): (r: nat)
    requires d > 0
    ensures r < d
  {
    x % d
  }

  lemma Trivial(x: nat, d: nat)
    requires d > 0
    ensures And(x, 0) == Rem(x, 1) == 0 && And(0, d - 1) == Rem(0, d) == 0
  {
  }

  /** Masking with one less than a power of two is the remainder by it. */
  lemma {:induction false} MaskIsRemainder(x: nat, k: nat)
    ensures And(x, Pow2(k) - 1) == Rem(x, Pow2(k))
    decreases k
  {
    hide And, Rem;
    Trivial(x, Pow2(k));
    if k > 0 && x > 0 {
      AndOdd(x, Pow2(k - 1));
      MaskIsRemainder(x / 2, k - 1);
      HalfRemainder(x, Pow2(k - 1));
    }
  }

  lemma HalfRemainder(x: nat, p: nat)
    requires p > 0
    ensures Rem(x, 2 * p) == x % 2 + 2 * Rem(x / 2, p)
  {
    var q := x / 2 / p;
    assert x / 2 == p * q + x / 2 % p;
    assert x == 2 * (x / 2) + x % 2;
    assert x == (2 * p) * q + (x % 2 + 2 * (x / 2 % p));
    RemainderUnique(x, 2 * p, q, x % 2 + 2 * (x / 2 % p));
  }

  lemma MulNonNegative(d: nat, k: nat)
    ensures d * k >= 0
  {
  }

  /** The slot of a free-running counter survives the counter's wrap-around,
      since the number of slots divides 2^32. */
  lemma SlotSurvivesWrap(c: nat, k: nat)
    requires k <= 32
    ensures And(Wrap32(c), Pow2(k) - 1) == Rem(c, Pow2(k))
  {
    MaskIsRemainder(Wrap32(c), k);
    PowSplit(k, 32 - k);
    WordIsPower();
    RemainderOfRemainder(c, Pow2(k), Pow2(32 - k));
  }

  lemma RemainderOfRemainder(c: nat, d: nat, e: nat)
    requires d > 0 && e > 0
    ensures c % (d * e) % d == c % d
  {
    var r := c % (d * e);
    var q := c / (d * e);
    assert c == d * e * q + r;
    assert r == d * (r / d) + r % d;
    assert c == d * (e * q + r / d) + r % d;
    RemainderUnique(c, d, e * q + r / d, r % d);
  }

  // ------------------------------------------------------- the ring as a value

  /** The 2^order completion slots, the head and tail words shared with the
      kernel, and the consumer's private count. */
  datatype Ring<T> = Ring(order: nat, slots: seq<T>, chead: U32, ctail: U32, cached: U32)

  /** The kernel offers rings of at most 2^16 slots. */
  ghost predicate Sized<T>(r: Ring<T>) {
    r.order <= 16 && |r.slots| == Pow2(r.order)
  }

  /** The slot of a counter: counter & (entries - 1). */
  function SlotOf(c: U32, order: nat): (i: nat)
    requires order <= 32
    ensures i < Pow2(order)
  {
    MaskIsRemainder(c, order);
    And(c, Pow2(order) - 1)
  }

  /** The kernel posts a completion unless the ring is full. */
  function Produced<T>(r: Ring<T>, x: T): (Ring<T>, bool)
    requires Sized(r)
  {
    if Wrap32(r.ctail - r.chead) < |r.slots| then
      (r.(slots := r.slots[SlotOf(r.ctail, r.order) := x], ctail := Wrap32(r.ctail + 1)), true)
    else (r, false)
  }

  /** iouring_get_cqe: the next completion, if there is one. */
  function Got<T>(r: Ring<T>): (Ring<T>, Option<T>)
    requires Sized(r)
  {
    if r.cached == r.ctail then (r, None)
    else (r.(cached := Wrap32(r.cached + 1)), Some(r.slots[SlotOf(r.cached, r.order)]))
  }

  /** iouring_cq_advance: hands the slots read so far back to the kernel. */
  function Advanced<T>(r: Ring<T>): Ring<T> {
    r.(chead := r.cached)
  }

  // ------------------------------------------------------------ interleavings

  datatype Op<T> = Produce(x: T) | Get | Advance

  /** A ring together with everything posted and everything read so far, and the
      number of completions handed back. */
  datatype Log<T> = Log(ring: Ring<T>, posted: seq<T>, read: seq<T>, published: nat)

  function Step<T>(l: Log<T>, op: Op<T>): (l': Log<T>)
    requires Sized(l.ring)
    ensures Sized(l'.ring) && l'.ring.order == l.ring.order
  {
    match op
    case Produce(x) =>
      var (r, ok) := Produced(l.ring, x);
      l.(ring := r, posted := if ok then l.posted + [x] else l.posted)
    case Get =>
      var (r, c) := Got(l.ring);
      l.(ring := r, read := if c.Some? then l.read + [c.value] else l.read)
    case Advance => l.(ring := Advanced(l.ring), published := |l.read|)
  }

  function Run<T>(l: Log<T>, ops: seq<Op<T>>): (l': Log<T>)
    requires Sized(l.ring)
    ensures Sized(l'.ring)
    decreases |ops|
  {
    if ops == [] then l else Run(Step(l, ops[0]), ops[1..])
  }

  /** The 32-bit words are the true counts, which never differ by more than the
      ring holds, and every slot not handed back still holds what was posted. */
  ghost predicate Faithful<T>(l: Log<T>) {
    && Sized(l.ring)
    && l.published <= |l.read| <= |l.posted| <= l.published + |l.ring.slots|
    && l.ring.chead == Wrap32(l.published)
    && l.ring.cached == Wrap32(|l.read|)
    && l.ring.ctail == Wrap32(|l.posted|)
    && l.read == l.posted[..|l.read|]
    && forall j :: l.published <= j < |l.posted| ==> Holds(l, j)
  }

  /** The slot of completion number `j` holds it. */
  ghost predicate Holds<T>(l: Log<T>, j: nat)
    requires Sized(l.ring) && j < |l.posted|
  {
    l.ring.slots[Rem(j, |l.ring.slots|)] == l.posted[j]
  }

  lemma {:induction false} SmallPow2(k: nat)
    requires k <= 16
    ensures Pow2(k) <= 65536
    decreases 16 - k
  {
    if k < 16 {
      SmallPow2(k + 1);
    } else {
      assert Pow2(8) == 256;
      PowSplit(8, 8);
    }
  }

  /** Counters that are close tell their distance, wrapped or not. */
  lemma Distance(a: nat, b: nat)
    requires b <= a <= b + 65537
    ensures Wrap32(Wrap32(a) - Wrap32(b)) == a - b
    ensures Wrap32(a) == Wrap32(b) <==> a == b
  {
  }

  lemma NextCount(c: nat)
    ensures Wrap32(Wrap32(c) + 1) == Wrap32(c + 1)
  {
  }

  /** Numbers less than a ring apart have different slots. */
  lemma SlotsDiffer(i: nat, j: nat, n: nat)
    requires i < j < i + n
    ensures Rem(i, n) != Rem(j, n)
  {
    if Rem(i, n) == Rem(j, n) {
      var p, q := i / n, j / n;
      assert i == n * p + i % n && j == n * q + j % n;
      assert j - i == n * (q - p) == -(n * (p - q));
      if q > p {
        MulAtLeast(n, q - p);
      } else {
        MulNonNegative(n, p - q);
      }
    }
  }

  lemma FaithfulProduce<T>(l: Log<T>, x: T)
    requires Faithful(l)
    ensures Faithful(Step(l, Produce(x)))
    ensures Produced(l.ring, x).1 <==> |l.posted| - l.published < |l.ring.slots|
  {
    hide Rem, And, Pow2, Wrap32;
    var n := |l.ring.slots|;
    SmallPow2(l.ring.order);
    Distance(|l.posted|, l.published);
    NextCount(|l.posted|);
    if |l.posted| - l.published < n {
      SlotSurvivesWrap(|l.posted|, l.ring.order);
      var l' := Step(l, Produce(x));
      forall j | l'.published <= j < |l'.posted|
        ensures Holds(l', j)
      {
        if j < |l.posted| {
          SlotsDiffer(j, |l.posted|, n);
          assert Holds(l, j);
        }
      }
    }
  }

  lemma FaithfulGet<T>(l: Log<T>)
    requires Faithful(l)
    ensures Faithful(Step(l, Get))
    ensures Got(l.ring).1 == if |l.read| == |l.posted| then None else Some(l.posted[|l.read|])
  {
    hide Rem, And, Pow2, Wrap32;
    SmallPow2(l.ring.order);
    Distance(|l.posted|, |l.read|);
    NextCount(|l.read|);
    if |l.read| < |l.posted| {
      SlotSurvivesWrap(|l.read|, l.ring.order);
      assert Holds(l, |l.read|);
      var l' := Step(l, Get);
      assert l'.read == l.posted[..|l.read|] + [l.posted[|l.read|]] == l.posted[..|l'.read|];
      assert forall j :: l.published <= j < |l.posted| ==> Holds(l, j) && (Holds(l, j) <==> Holds(l', j));
    }
  }

  lemma FaithfulPrefix<T>(l: Log<T>)
    requires Faithful(l)
    ensures Sized(l.ring) && Run(l, []) == l && |l.read| <= |l.posted| && l.read == l.posted[..|l.read|]
  {
  }

  lemma FaithfulStep<T>(l: Log<T>, op: Op<T>)
    requires Faithful(l)
    ensures Faithful(Step(l, op))
  {
    match op {
      case Produce(x) => FaithfulProduce(l, x);
      case Get => FaithfulGet(l);
      case Advance =>
        var l' := Step(l, Advance);
        assert forall j :: l'.published <= j < |l.posted| ==> Holds(l, j) && (Holds(l, j) <==> Holds(l', j));
    }
  }

  lemma {:induction false} FaithfulRun<T>(l: Log<T>, ops: seq<Op<T>>)
    requires Faithful(l)
    ensures Faithful(Run(l, ops))
    decreases |ops|
  {
    if ops != [] {
      FaithfulStep(l, ops[0]);
      FaithfulRun(Step(l, ops[0]), ops[1..]);
    }
  }

  /** The ring as iouring_ring_setup leaves it. */
  ghost function SetUp<T>(order: nat, slots: seq<T>): (l: Log<T>)
    requires order <= 16 && |slots| == Pow2(order)
    ensures Faithful(l)
  {
    Log(Ring(order, slots, 0, 0, 0), [], [], 0)
  }

  /** From a ring as it is set up, in every interleaving of posting, reading and
      handing back, across any number of wrap-arounds, completions are read exactly
      once and in the order they were posted, and a slot that was read but not
      handed back is intact. */
  lemma ExactlyOnceInOrder<T>(order: nat, slots: seq<T>, ops: seq<Op<T>>)
    requires order <= 16 && |slots| == Pow2(order)
    ensures var l := Run(SetUp(order, slots), ops);
      && |l.read| <= |l.posted|
      && l.read == l.posted[..|l.read|]
      && l.published <= |l.posted| <= l.published + Pow2(order)
      && |l.ring.slots| == Pow2(order)
      && forall j :: l.published <= j < |l.posted| ==> Holds(l, j)
  {
    FaithfulRun(SetUp(order, slots), ops);
    RunOrder(SetUp(order, slots), ops);
  }

  lemma {:induction false} RunOrder<T>(l: Log<T>, ops: seq<Op<T>>)
    requires Sized(l.ring)
    ensures Run(l, ops).ring.order == l.ring.order
    decreases |ops|
  {
    if ops != [] {
      RunOrder(Step(l, ops[0]), ops[1..]);
    }
  }

  lemma {:induction false} RunThen<T>(l: Log<T>, ops: seq<Op<T>>, op: Op<T>)
    requires Sized(l.ring)
    ensures Run(l, ops + [op]) == Step(Run(l, ops), op)
    decreases |ops|
  {
    hide Step;
    if ops == [] {
      assert [op][1..] == [];
    } else {
      RunThen(Step(l, ops[0]), ops[1..], op);
      assert (ops + [op])[1..] == ops[1..] + [op];
    }
  }

  // ------------------------------------------------------- the mutable ring

  class CompletionRing<T> {
    const order: nat
    const cqes: array<T>
    var chead: U32
    var ctail: U32
    var cachedCqe: U32

    ghost predicate Valid()
      reads this
    {
      order <= 16 && cqes.Length == Pow2(order)
    }

    ghost function View(): Ring<T>
      reads this, cqes
    {
      Ring(order, cqes[..], chead, ctail, cachedCqe)
    }

    constructor (order: nat, slots: array<T>)
      requires order <= 16 && slots.Length == Pow2(order)
      ensures Valid() && cqes == slots && View() == Ring(order, slots[..], 0, 0, 0)
    {
      this.order, this.cqes := order, slots;
      chead, ctail, cachedCqe := 0, 0, 0;
    }

    /** The kernel's side of the ring. */
    method Post(x: T) returns (ok: bool)
      requires Valid()
      modifies cqes, `ctail
      ensures Valid() && (View(), ok) == Produced(old(View()), x)
    {
      ok := Wrap32(ctail - chead) < cqes.Length;
      if ok {
        cqes[SlotOf(ctail, order)] := x;
        ctail := Wrap32(ctail + 1);
      }
    }

    /** iouring_cq_ready: how many completions wait, wrapped counters or not. */
    method CqReady(ghost l: Log<T>) returns (n: int)
      requires Valid() && Faithful(l) && l.ring == View()
      ensures n == |l.posted| - |l.read|
    {
      SmallPow2(order);
      Distance(|l.posted|, |l.read|);
      n := Wrap32(ctail - cachedCqe);
    }

    method GetCqe() returns (c: Option<T>)
      requires Valid()
      modifies `cachedCqe
      ensures Valid() && (View(), c) == Got(old(View()))
    {
      var tail := ctail;
      if cachedCqe == tail { return None; }
      c := Some(cqes[SlotOf(cachedCqe, order)]);
      cachedCqe := Wrap32(cachedCqe + 1);
    }

    method CqAdvance()
      modifies `chead
      ensures View() == Advanced(old(View()))
    {
      chead := cachedCqe;
    }

    /** The ring is where the steps `ops` lead from `l`. */
    ghost predicate Reached(l: Log<T>, ops: seq<Op<T>>)
      reads this, cqes
    {
      Sized(l.ring) && Faithful(Run(l, ops)) && Run(l, ops).ring == View()
    }

    /** The kernel posts a batch, as far as there is room. */
    method PostAll(batch: seq<T>, ghost l: Log<T>, ghost ops: seq<Op<T>>) returns (ghost ops': seq<Op<T>>)
      requires Valid() && Sized(l.ring) && Reached(l, ops)
      modifies cqes, `ctail
      ensures Valid() && Reached(l, ops')
      ensures Run(l, ops').read == Run(l, ops).read && Run(l, ops).posted <= Run(l, ops').posted
    {
      hide Faithful, Run, Sized;
      ops' := ops;
      var i := 0;
      while i < |batch|
        invariant 0 <= i <= |batch| && Valid() && Sized(l.ring) && Reached(l, ops')
        invariant Run(l, ops').read == Run(l, ops).read && Run(l, ops).posted <= Run(l, ops').posted
      {
        RunThen(l, ops', Produce(batch[i]));
        FaithfulStep(Run(l, ops'), Produce(batch[i]));
        var ok := Post(batch[i]);
        ops' := ops' + [Produce(batch[i])];
        i := i + 1;
      }
    }

    /** One look at the ring, which reads the next completion if there is one. */
    method Look(ghost l: Log<T>, ghost ops: seq<Op<T>>) returns (c: Option<T>, ghost ops': seq<Op<T>>)
      requires Valid() && Sized(l.ring) && Reached(l, ops)
      modifies `cachedCqe
      ensures Valid() && Reached(l, ops')
      ensures var before, after := Run(l, ops), Run(l, ops');
        && after.posted == before.posted
        && |before.read| <= |before.posted| && |after.read| <= |after.posted|
        && after.read == before.read + (if c.Some? then [c.value] else [])
        && (c.None? ==> |after.read| == |after.posted|)
    {
      hide Faithful, Run, Sized;
      FaithfulPrefix(Run(l, ops));
      FaithfulGet(Run(l, ops));
      RunThen(l, ops, Get);
      c := GetCqe();
      ops' := ops + [Get];
      FaithfulPrefix(Run(l, ops'));
    }

    /** Hands back everything read. */
    method HandBack(ghost l: Log<T>, ghost ops: seq<Op<T>>) returns (ghost ops': seq<Op<T>>)
      requires Valid() && Sized(l.ring) && Reached(l, ops)
      modifies `chead
      ensures Valid() && Reached(l, ops')
      ensures var before, after := Run(l, ops), Run(l, ops');
        after.posted == before.posted && after.read == before.read && after.published == |after.read|
    {
      hide Faithful, Run, Sized;
      FaithfulStep(Run(l, ops), Advance);
      RunThen(l, ops, Advance);
      CqAdvance();
      ops' := ops + [Advance];
    }

    /** The loop of iouring_handle_cqes, while the kernel goes on posting:
        `arrivals` come in before its first look at the ring, before its second,
        and so on. Everything posted before the last look is handled, exactly once
        and in order, and its slots are handed back. */
    method HandleCqes(arrivals: seq<seq<T>>, ghost l: Log<T>) returns (handled: seq<T>, ghost ops: seq<Op<T>>)
      requires Valid() && Faithful(l) && l.ring == View()
      modifies cqes, `ctail, `cachedCqe, `chead
      ensures Valid()
      ensures var l' := Run(l, ops);
        && Faithful(l') && l'.ring == View()
        && l.posted <= l'.posted && |l.read| <= |l'.posted|
        && l'.read == l'.posted && l'.published == |l'.posted|
        && handled == l'.posted[|l.read|..]
    {
      handled, ops := [], [];
      FaithfulPrefix(l);
      var looks := 0;
      var more := true;
      assert Reached(l, ops);
      hide Faithful, Run, Sized, Reached;
      while more
        invariant looks <= |arrivals| && Valid() && Sized(l.ring) && Reached(l, ops)
        invariant l.posted <= Run(l, ops).posted && Run(l, ops).read == l.read + handled
        invariant |Run(l, ops).read| <= |Run(l, ops).posted|
        invariant !more ==> |Run(l, ops).read| == |Run(l, ops).posted|
        decreases more, |arrivals| - looks, |Run(l, ops).posted| - |Run(l, ops).read|
      {
        if looks < |arrivals| {
          ops := PostAll(arrivals[looks], l, ops);
          looks := looks + 1;
        }
        var c;
        c, ops := Look(l, ops);
        if c.Some? {
          handled := handled + [c.value];
        } else {
          more := false;
        }
      }
      ops := HandBack(l, ops);
      ReachedMeans(l, ops);
    }

    lemma ReachedMeans(l: Log<T>, ops: seq<Op<T>>)
      requires Sized(l.ring) && Reached(l, ops)
      ensures var l' := Run(l, ops); Faithful(l') && l'.ring == View() && l'.read == l'.posted[..|l'.read|]
    {
    }
  }

  // ------------------------------------------------------ submission slots

  /** The producer side of the submission ring, which gives out at most as many
      slots between two submissions as there are. The kernel may take fewer entries
      than a submission offers it; its own count lags behind then. */
  class SubmissionRing {
    const order: nat
    var sqHead: U32
    var sqTail: U32
    ghost var handed: nat     // slots given out in all
    ghost var submitted: nat  // of these, up to the last submission
    ghost var consumed: nat   // of these, taken by the kernel

    ghost predicate Valid()
      reads this
    {
      && order <= 16
      && consumed <= submitted <= handed <= submitted + Pow2(order)
      && sqHead == Wrap32(submitted) && sqTail == Wrap32(handed)
    }

    constructor (order: nat)
      requires order <= 16
      ensures Valid() && this.order == order && handed == submitted == consumed == 0
    {
      this.order := order;
      sqHead, sqTail, handed, submitted, consumed := 0, 0, 0, 0, 0;
    }

    /** A slot that no other request of this batch has, or none exactly when the
        batch already has them all. The slot still holds a request that the kernel
        has not taken exactly when its lag and the batch fill the ring. */
    method GetSqe() returns (slot: Option<nat>)
      requires Valid()
      modifies `sqTail, `handed
      ensures Valid()
      ensures slot.None? <==> old(handed) == submitted + Pow2(order)
      ensures handed == old(handed) + (if slot.Some? then 1 else 0)
      ensures slot.Some? ==> slot.value == Rem(old(handed), Pow2(order))
      ensures slot.Some? ==> forall i :: submitted <= i < old(handed) ==> Rem(i, Pow2(order)) != slot.value
      ensures slot.Some? ==>
                ((exists i :: consumed <= i < old(handed) && Rem(i, Pow2(order)) == slot.value)
                <==> old(handed) >= consumed + Pow2(order))
    {
      hide Pow2, Rem, Wrap32, And;
      SmallPow2(order);
      NextCount(handed);
      Distance(handed + 1, submitted);
      var tail: int := sqTail;
      var next := Wrap32(tail + 1);
      if Wrap32(next - sqHead) > Pow2(order) { return None; }
      sqTail := next;
      SlotSurvivesWrap(handed, order);
      SlotTakenIff(submitted, handed, Pow2(order));
      SlotTakenIff(consumed, handed, Pow2(order));
      slot := Some(SlotOf(tail, order));
      handed := handed + 1;
    }

    /** Hands the whole batch to the kernel, which takes `taken` entries; the count
        kept here moves on all the same. */
    method Submit(ghost taken: nat) returns (count: U32)
      requires Valid() && taken <= handed - submitted
      modifies `sqHead, `submitted, `consumed
      ensures Valid() && submitted == handed && consumed == old(consumed) + taken
      ensures count == handed - old(submitted)
    {
      SmallPow2(order);
      Distance(handed, submitted);
      count := Wrap32(sqTail - sqHead);
      sqHead := sqTail;
      submitted, consumed := handed, consumed + taken;
    }

    /** The kernel catches up with what has been submitted. */
    ghost method Consume(n: nat)
      requires Valid() && n <= submitted - consumed
      modifies `consumed
      ensures Valid() && consumed == old(consumed) + n
    {
      consumed := consumed + n;
    }
  }

  /** One of the numbers from `low` up to `j` has the slot of `j` exactly if they
      go once around the ring. */
  lemma SlotTakenIff(low: nat, j: nat, n: nat)
    requires low <= j && n > 0
    ensures (exists i :: low <= i < j && Rem(i, n) == Rem(j, n)) <==> j >= low + n
  {
    if j >= low + n {
      SameSlot(j - n, n);
      assert Rem(j - n, n) == Rem(j, n);
    } else {
      forall i | low <= i < j
        ensures Rem(i, n) != Rem(j, n)
      {
        SlotsDiffer(i, j, n);
      }
    }
  }

  lemma SameSlot(i: nat, n: nat)
    requires n > 0
    ensures Rem(i + n, n) == Rem(i, n)
  {
    RemainderUnique(i + n, n, i / n + 1, i % n);
  }
}
