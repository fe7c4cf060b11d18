/** What the fd index of src/server.c guarantees over whole runs of additions,
    removals, look-ups and reaper passes. A run may add an fd that is still in the
    table: a worker closes an fd before it removes its row, and in between the
    number can be accepted again. */
module ConnectionRuns {
  import opened CMachine
  import opened ConnectionTables

  ghost predicate Absent(table: seq<Conn>, fd: int) {
    forall i :: 0 <= i < |table| ==> table[i].fd != fd
  }

  /** At most one connection has the fd. */
  ghost predicate OnceIn(table: seq<Conn>, fd: int) {
    forall i, j :: 0 <= i < j < |table| ==> !(table[i].fd == fd == table[j].fd)
  }

  /** No two connections share an fd. */
  ghost predicate Unique(table: seq<Conn>) {
    forall i, j :: 0 <= i < j < |table| ==> table[i].fd != table[j].fd
  }

  /** The index names slot `j` for the fd that is there. */
  ghost predicate HasEntry(n: Net, j: nat)
    requires j < |n.table|
  {
    IndexEntry(n.table[j].fd, j) in n.index[HashFd(n.table[j].fd)]
  }

  ghost predicate FullyIndexed(n: Net) {
    forall j :: 0 <= j < |n.table| ==> HasEntry(n, j)
  }

  // -------------------------------------------------------------- look-ups

  lemma {:induction false} ChainFindValid(chain: Chain, table: seq<Conn>, e: IndexEntry)
    requires e in chain && Valid(table, e, e.fd)
    ensures ChainFind(chain, table, e.fd) != -1
  {
    if !Valid(table, chain[0], e.fd) {
      assert e in chain[1..];
      ChainFindValid(chain[1..], table, e);
    }
  }

  /** Whatever is in the index, stale entries included, a look-up of an fd that
      occurs at most once gives the slot that a search of the whole table gives,
      and afterwards the index has a valid entry for what it found. */
  lemma FindIsLinearSearch(n: Net, fd: int)
    requires OnceIn(n.table, fd)
    ensures var (n', slot) := Found(n, fd);
      && slot == LinearFind(n.table, fd)
      && n'.table == n.table
      && (slot != -1 ==> HasEntry(n', slot))
  {
  }

  /** Only for these does it: an index can name the later of two places. */
  lemma FindExactIffOnce(table: seq<Conn>, fd: int)
    ensures (forall x: Index :: Found(Net(table, x), fd).1 == LinearFind(table, fd)) <==> OnceIn(table, fd)
  {
    if OnceIn(table, fd) {
      forall x: Index
        ensures Found(Net(table, x), fd).1 == LinearFind(table, fd)
      {
        FindIsLinearSearch(Net(table, x), fd);
      }
    } else {
      var i, j :| 0 <= i < j < |table| && table[i].fd == fd == table[j].fd;
      var none: Index := seq(CONN_HASH_SIZE, _ => []);
      var x := Indexed(none, fd, j);
      assert x[HashFd(fd)][0] == IndexEntry(fd, j);
      assert Found(Net(table, x), fd).1 == j;
    }
  }

  // ----------------------------------------------------------------- runs

  datatype Op =
    | Add(c: Conn)
    | Find(fd: int)
    | Remove(fd: int)
    | Touch               // handlers change anything in a connection but its fd
    | Reap(now: int, timeout: int)

  function AfterReap(n: Net, now: int, timeout: int): Net {
    n.(table := Swept(n.table, |n.table|, now, timeout))
  }

  ghost predicate Next(n: Net, op: Op, n': Net) {
    match op
    case Add(c) => n' == Added(n, c)
    case Find(fd) => n' == Found(n, fd).0
    case Remove(fd) => n' == Removed(n, fd)
    case Touch =>
      n'.index == n.index && |n'.table| == |n.table|
      && forall j :: 0 <= j < |n.table| ==> n'.table[j].fd == n.table[j].fd
    case Reap(now, timeout) => n' == AfterReap(n, now, timeout)
  }

  ghost predicate Run(ns: seq<Net>, ops: seq<Op>) {
    && |ns| == |ops| + 1
    && ns[0].table == []
    && forall k :: 0 <= k < |ops| ==> Next(ns[k], ops[k], ns[k + 1])
  }

  /** The step does not add this fd while it is in the table. */
  ghost predicate FreshStep(n: Net, op: Op, fd: int) {
    op.Add? && op.c.fd == fd ==> Absent(n.table, fd)
  }

  ghost predicate FreshFor(ns: seq<Net>, ops: seq<Op>, fd: int, k: nat)
    requires k <= |ops| < |ns|
  {
    forall i :: 0 <= i < k ==> FreshStep(ns[i], ops[i], fd)
  }

  lemma {:induction false} SweptOnce(table: seq<Conn>, i: nat, now: int, timeout: int, fd: int)
    requires i <= |table| && OnceIn(table, fd)
    ensures OnceIn(Swept(table, i, now, timeout), fd)
    decreases i
  {
    if i > 0 {
      if Expired(table[i - 1], now, timeout) {
        SwapRemoveOnce(table, i - 1, fd);
        SweptOnce(SwapRemove(table, i - 1), i - 1, now, timeout, fd);
      } else {
        SweptOnce(table, i - 1, now, timeout, fd);
      }
    }
  }

  lemma SwapRemoveOnce(table: seq<Conn>, i: nat, fd: int)
    requires i < |table| && OnceIn(table, fd)
    ensures OnceIn(SwapRemove(table, i), fd)
  {
  }

  lemma OnceStep(n: Net, op: Op, n': Net, fd: int)
    requires OnceIn(n.table, fd) && Next(n, op, n')
    ensures FreshStep(n, op, fd) <==> OnceIn(n'.table, fd)
  {
    match op {
      case Add(c) =>
        if c.fd == fd && OnceIn(n'.table, fd) {
          forall i | 0 <= i < |n.table| ensures n.table[i].fd != fd {
            assert n'.table[i] == n.table[i] && n'.table[|n.table|] == c;
          }
        }
      case Remove(gone) =>
        var i := LinearFind(n.table, gone);
        if i != -1 {
          SwapRemoveOnce(n.table, i, fd);
        }
      case Reap(now, timeout) => SweptOnce(n.table, |n.table|, now, timeout, fd);
      case _ =>
    }
  }

  /** A run keeps an fd at one place at most exactly if it never adds the fd while
      it is there. */
  lemma {:induction false} OnceIffFresh(ns: seq<Net>, ops: seq<Op>, fd: int, k: nat)
    requires Run(ns, ops) && k <= |ops|
    ensures (forall i :: 0 <= i <= k ==> OnceIn(ns[i].table, fd)) <==> FreshFor(ns, ops, fd, k)
  {
    if k > 0 {
      OnceIffFresh(ns, ops, fd, k - 1);
      if OnceIn(ns[k - 1].table, fd) {
        OnceStep(ns[k - 1], ops[k - 1], ns[k], fd);
      }
    }
  }

  /** Adding an fd that is still in the table makes a look-up give the new row and
      a search an older one. */
  lemma StaleAddMisleads(n: Net, c: Conn)
    requires !Absent(n.table, c.fd)
    ensures Found(Added(n, c), c.fd).1 == |n.table| && LinearFind(Added(n, c).table, c.fd) != |n.table|
  {
    var n' := Added(n, c);
    assert n'.index[HashFd(c.fd)][0] == IndexEntry(c.fd, |n.table|);
    var i :| 0 <= i < |n.table| && n.table[i].fd == c.fd;
    assert n'.table[i].fd == c.fd;
  }

  /** In every run, reaper passes included, looking an fd up answers at every point
      what a search of the table answers, whatever the index has collected, exactly
      if the run never adds the fd while it is there. */
  lemma FindCorrectIffFresh(ns: seq<Net>, ops: seq<Op>, fd: int, k: nat)
    requires Run(ns, ops) && k <= |ops|
    ensures FreshFor(ns, ops, fd, k)
       <==> forall i :: 0 <= i <= k ==> Found(ns[i], fd).1 == LinearFind(ns[i].table, fd)
  {
    hide Found, LinearFind;
    if FreshFor(ns, ops, fd, k) {
      OnceIffFresh(ns, ops, fd, k);
      forall i | 0 <= i <= k
        ensures Found(ns[i], fd).1 == LinearFind(ns[i].table, fd)
      {
        FindIsLinearSearch(ns[i], fd);
      }
    } else {
      var i :| 0 <= i < k && !FreshStep(ns[i], ops[i], fd);
      assert Next(ns[i], ops[i], ns[i + 1]);
      StaleAddMisleads(ns[i], ops[i].c);
    }
  }

  /** The same for the run's tables under any index at all. */
  lemma FindExactIffFresh(ns: seq<Net>, ops: seq<Op>, fd: int, k: nat)
    requires Run(ns, ops) && k <= |ops|
    ensures FreshFor(ns, ops, fd, k)
       <==> forall i, x: Index :: 0 <= i <= k ==> Found(Net(ns[i].table, x), fd).1 == LinearFind(ns[i].table, fd)
  {
    OnceIffFresh(ns, ops, fd, k);
    forall i | 0 <= i <= k
      ensures (forall x: Index :: Found(Net(ns[i].table, x), fd).1 == LinearFind(ns[i].table, fd))
         <==> OnceIn(ns[i].table, fd)
    {
      FindExactIffOnce(ns[i].table, fd);
    }
  }

  lemma RunOfThree(n0: Net, a: Op, n1: Net, b: Op, n2: Net, c: Op, n3: Net)
    requires n0.table == [] && Next(n0, a, n1) && Next(n1, b, n2) && Next(n2, c, n3)
    ensures Run([n0, n1, n2, n3], [a, b, c])
  {
    hide Next;
  }

  /** Closing first makes the difference: while the old row waits for its removal,
      a look-up of the reused fd finds the new row and a search the old one. The
      removal then takes the old one. */
  lemma FdReusedBeforeRemoval(n: Net, before: Conn, after: Conn)
    requires n.table == [] && before.fd == after.fd
    ensures var fd := before.fd;
      var n2 := Added(Added(n, before), after);
      && Run([n, Added(n, before), n2, Removed(n2, fd)], [Add(before), Add(after), Remove(fd)])
      && Found(n2, fd).1 == 1 && LinearFind(n2.table, fd) == 0
      && Removed(n2, fd).table == [after] && Found(Removed(n2, fd), fd).1 == 0
  {
    var fd := before.fd;
    var n1 := Added(n, before);
    var n2 := Added(n1, after);
    assert n1.table == [before] && n2.table == [before, after];
    assert n2.index[HashFd(fd)][0] == IndexEntry(fd, 1);
    var n3 := Removed(n2, fd);
    assert n3.table == [after] && n3.index[HashFd(fd)][0] == IndexEntry(fd, 0);
  }

  // ------------------------------------------------------------- full index

  ghost predicate AllFresh(ns: seq<Net>, ops: seq<Op>, k: nat)
    requires k <= |ops| < |ns|
  {
    forall i :: 0 <= i < k ==> ops[i].Add? ==> Absent(ns[i].table, ops[i].c.fd)
  }

  lemma RunUnique(ns: seq<Net>, ops: seq<Op>, k: nat)
    requires Run(ns, ops) && k <= |ops| && AllFresh(ns, ops, k)
    ensures forall i :: 0 <= i <= k ==> Unique(ns[i].table)
  {
    forall i, a, b | 0 <= i <= k && 0 <= a < b < |ns[i].table|
      ensures ns[i].table[a].fd != ns[i].table[b].fd
    {
      var fd := ns[i].table[a].fd;
      assert FreshFor(ns, ops, fd, k);
      OnceIffFresh(ns, ops, fd, k);
      assert OnceIn(ns[i].table, fd);
    }
  }

  lemma {:induction false} DropFirstKeeps(chain: Chain, fd: int, e: IndexEntry)
    requires e in chain && e.fd != fd
    ensures e in DropFirst(chain, fd)
  {
    if chain[0].fd == fd {
      assert e in chain[1..];
    } else if e != chain[0] {
      assert e in chain[1..];
      DropFirstKeeps(chain[1..], fd, e);
    }
  }

  /** Every step but a reaper pass keeps each live fd indexed. */
  lemma IndexedStep(n: Net, op: Op, n': Net)
    requires Unique(n.table) && FullyIndexed(n) && Next(n, op, n') && !op.Reap?
    ensures FullyIndexed(n')
  {
    forall j | 0 <= j < |n'.table|
      ensures HasEntry(n', j)
    {
      if op.Remove? {
        IndexedAfterRemove(n, op.fd, j);
      } else if j < |n.table| {
        assert HasEntry(n, j);
      }
    }
  }

  lemma IndexedAfterRemove(n: Net, fd: int, j: nat)
    requires Unique(n.table) && FullyIndexed(n) && j < |Removed(n, fd).table|
    ensures HasEntry(Removed(n, fd), j)
  {
    var i := LinearFind(n.table, fd);
    var n' := Removed(n, fd);
    if i == -1 || j != i {
      assert n'.table[j] == n.table[j] && n.table[j].fd != fd;
      assert HasEntry(n, j);
      var e := IndexEntry(n.table[j].fd, j);
      DropFirstKeeps(n.index[HashFd(e.fd)], fd, e);
    }
  }

  lemma {:induction false} SweptShorter(table: seq<Conn>, i: nat, now: int, timeout: int)
    requires i <= |table|
    ensures |Swept(table, i, now, timeout)| <= |table|
    decreases i
  {
    if i > 0 {
      SweptShorter(if Expired(table[i - 1], now, timeout) then SwapRemove(table, i - 1) else table,
                   i - 1, now, timeout);
    }
  }

  /** Whatever the pass moves, the index already names at its new slot. */
  ghost predicate Harmless(n: Net, now: int, timeout: int) {
    var t := AfterReap(n, now, timeout).table;
    forall j :: 0 <= j < |t| && j < |n.table| ==>
      t[j].fd == n.table[j].fd || IndexEntry(t[j].fd, j) in n.index[HashFd(t[j].fd)]
  }

  ghost predicate KeepsIndex(n: Net, op: Op) {
    op.Reap? ==> Harmless(n, op.now, op.timeout)
  }

  lemma ReapKeepsIndexIff(n: Net, now: int, timeout: int)
    requires FullyIndexed(n)
    ensures FullyIndexed(AfterReap(n, now, timeout)) <==> Harmless(n, now, timeout)
  {
    var n' := AfterReap(n, now, timeout);
    SweptShorter(n.table, |n.table|, now, timeout);
    forall j | 0 <= j < |n'.table|
      ensures HasEntry(n', j) <==>
        n'.table[j].fd == n.table[j].fd || IndexEntry(n'.table[j].fd, j) in n.index[HashFd(n'.table[j].fd)]
    {
      assert HasEntry(n, j);
    }
  }

  /** In every run that adds no fd twice, each live fd has a valid index entry at
      every point, however many stale ones pile up, exactly if no reaper pass
      moves a connection to a slot the index does not know. */
  lemma {:induction false} IndexedIffHarmless(ns: seq<Net>, ops: seq<Op>, k: nat)
    requires Run(ns, ops) && k <= |ops| && AllFresh(ns, ops, k)
    ensures (forall i :: 0 <= i <= k ==> FullyIndexed(ns[i]))
       <==> forall i :: 0 <= i < k ==> KeepsIndex(ns[i], ops[i])
  {
    if k > 0 {
      assert AllFresh(ns, ops, k - 1) && Next(ns[k - 1], ops[k - 1], ns[k]);
      IndexedIffHarmless(ns, ops, k - 1);
      if FullyIndexed(ns[k - 1]) {
        if ops[k - 1].Reap? {
          ReapKeepsIndexIff(ns[k - 1], ops[k - 1].now, ops[k - 1].timeout);
        } else {
          RunUnique(ns, ops, k - 1);
          IndexedStep(ns[k - 1], ops[k - 1], ns[k]);
        }
      }
    }
  }

  /** With a full index no look-up of a live fd searches the table. */
  lemma IndexedFindsAtOnce(n: Net, j: nat)
    requires FullyIndexed(n) && j < |n.table| && OnceIn(n.table, n.table[j].fd)
    ensures ChainFind(n.index[HashFd(n.table[j].fd)], n.table, n.table[j].fd) == j
    ensures Found(n, n.table[j].fd) == (n, j)
  {
    assert HasEntry(n, j);
    ChainFindValid(n.index[HashFd(n.table[j].fd)], n.table, IndexEntry(n.table[j].fd, j));
  }

  // ------------------------------------------- what a reaper pass may move

  /** The index has no stale entry for a live fd. */
  ghost predicate OneEach(n: Net) {
    forall j, e :: 0 <= j < |n.table| && e in n.index[HashFd(n.table[j].fd)] && e.fd == n.table[j].fd ==> e.slot == j
  }

  /** Every expired connection stands behind every other. */
  ghost predicate ExpiredBehind(table: seq<Conn>, now: int, timeout: int) {
    forall i, j :: 0 <= i < j < |table| && Expired(table[i], now, timeout) ==> Expired(table[j], now, timeout)
  }

  lemma {:induction false} SweptPrefix(table: seq<Conn>, i: nat, live: nat, now: int, timeout: int)
    requires live <= |table| && i <= |table|
    requires forall k :: 0 <= k < |table| ==> (Expired(table[k], now, timeout) <==> k >= live)
    requires i == |table| || i <= live == |table|
    ensures Swept(table, i, now, timeout) == table[..live]
    decreases i
  {
    if i > 0 {
      if i - 1 >= live {
        assert SwapRemove(table, i - 1) == table[..i - 1];
        SweptPrefix(table[..i - 1], i - 1, live, now, timeout);
        assert table[..i - 1][..live] == table[..live];
      } else {
        SweptPrefix(table, i - 1, live, now, timeout);
      }
    }
  }

  lemma {:induction false} LivePrefix(table: seq<Conn>, now: int, timeout: int) returns (live: nat)
    requires ExpiredBehind(table, now, timeout)
    ensures live <= |table|
    ensures forall k :: 0 <= k < |table| ==> (Expired(table[k], now, timeout) <==> k >= live)
  {
    live := 0;
    while live < |table| && !Expired(table[live], now, timeout)
      invariant live <= |table| && forall k :: 0 <= k < live ==> !Expired(table[k], now, timeout)
    {
      live := live + 1;
    }
  }

  lemma LeftOrGone(table: seq<Conn>, n: nat, now: int, timeout: int, c: Conn)
    requires n <= |table| && multiset(table[..n]) == multiset(Live(table, now, timeout))
    ensures c in table[..n] ==> !Expired(c, now, timeout)
    ensures c in table[n..] ==> Expired(c, now, timeout)
  {
    hide Expired, Live;
    PartCounts(table, now, timeout, c);
    assert table == table[..n] + table[n..];
    assert multiset(table)[c] == multiset(table[..n])[c] + multiset(table[n..])[c];
    assert c in table[..n] ==> multiset(table[..n])[c] > 0;
    assert c in table[n..] ==> multiset(table[n..])[c] > 0;
  }

  /** If the survivors are a prefix of the table, the rest has expired. */
  lemma PrefixLeftBehind(table: seq<Conn>, n: nat, now: int, timeout: int)
    requires n <= |table| && multiset(table[..n]) == multiset(Live(table, now, timeout))
    ensures ExpiredBehind(table, now, timeout)
  {
    hide Expired, Live;
    forall k | 0 <= k < |table|
      ensures Expired(table[k], now, timeout) <==> k >= n
    {
      LeftOrGone(table, n, now, timeout, table[k]);
      if k < n {
        assert table[k] == table[..n][k];
      } else {
        assert table[k] == table[n..][k - n];
      }
    }
  }

  /** From one entry for each fd, a pass leaves the index full exactly if every
      expired connection stood behind every live one. */
  lemma ReapKeepsIndexIffBehind(n: Net, now: int, timeout: int)
    requires Unique(n.table) && FullyIndexed(n) && OneEach(n)
    ensures FullyIndexed(AfterReap(n, now, timeout)) <==> ExpiredBehind(n.table, now, timeout)
  {
    var t := AfterReap(n, now, timeout).table;
    ReapKeepsIndexIff(n, now, timeout);
    SweptIsLive(n.table, |n.table|, now, timeout);
    SweptShorter(n.table, |n.table|, now, timeout);
    if ExpiredBehind(n.table, now, timeout) {
      var live := LivePrefix(n.table, now, timeout);
      SweptPrefix(n.table, |n.table|, live, now, timeout);
    } else if Harmless(n, now, timeout) {
      forall j | 0 <= j < |t|
        ensures t[j] == n.table[j]
      {
        StaysPut(n, now, timeout, j);
      }
      assert t == n.table[..|t|];
      PrefixLeftBehind(n.table, |t|, now, timeout);
    }
  }

  lemma StaysPut(n: Net, now: int, timeout: int, j: nat)
    requires Unique(n.table) && OneEach(n) && Harmless(n, now, timeout)
    requires var t := AfterReap(n, now, timeout).table; j < |t| <= |n.table|
    ensures AfterReap(n, now, timeout).table[j] == n.table[j]
  {
    var t := AfterReap(n, now, timeout).table;
    SweptIsLive(n.table, |n.table|, now, timeout);
    PartCounts(n.table, now, timeout, t[j]);
    assert t[j] in multiset(t);
    assert t[j] in multiset(n.table);
    var m :| 0 <= m < |n.table| && n.table[m] == t[j];
    assert m == j;
  }

  ghost predicate Empty(n: Net) {
    n.table == [] && forall h :: 0 <= h < CONN_HASH_SIZE ==> n.index[h] == []
  }

  /** The shortest such run: an idle connection in front of a busy one. */
  lemma ReapLosesEntry(n: Net, idle: Conn, busy: Conn, now: int, timeout: int)
    requires Empty(n) && idle.fd != busy.fd
    requires Expired(idle, now, timeout) && !Expired(busy, now, timeout)
    ensures var n2 := Added(Added(n, idle), busy);
      && Run([n, Added(n, idle), n2, AfterReap(n2, now, timeout)], [Add(idle), Add(busy), Reap(now, timeout)])
      && !FullyIndexed(AfterReap(n2, now, timeout))
  {
    hide Expired, Swept;
    var n2 := Added(Added(n, idle), busy);
    RunOfThree(n, Add(idle), Added(n, idle), Add(busy), n2, Reap(now, timeout), AfterReap(n2, now, timeout));
    PairIndexed(n, idle, busy);
    hide Added, AfterReap, Run, Empty, Unique, OneEach, FullyIndexed;
    ReapKeepsIndexIffBehind(n2, now, timeout);
    assert Expired(n2.table[0], now, timeout) && !Expired(n2.table[1], now, timeout);
  }

  lemma PairIndexed(n: Net, x: Conn, y: Conn)
    requires Empty(n) && x.fd != y.fd
    ensures var n2 := Added(Added(n, x), y);
      n2.table == [x, y] && Unique(n2.table) && FullyIndexed(n2) && OneEach(n2)
  {
    hide HashFd;
    var n2 := Added(Added(n, x), y);
    assert n2.table == [x, y];
    forall fd ensures forall e :: e in n2.index[HashFd(fd)] ==> e == IndexEntry(x.fd, 0) || e == IndexEntry(y.fd, 1) {
    }
  }

  // -------------------------------------------------------- stale entries

  /** How many entries the index has for the fd. */
  function Entries(chain: Chain, fd: int): nat {
    if chain == [] then 0 else (if chain[0].fd == fd then 1 else 0) + Entries(chain[1..], fd)
  }

  function EntriesFor(x: Index, fd: int): nat {
    Entries(x[HashFd(fd)], fd)
  }

  lemma IndexedEntries(x: Index, fd: int, slot: int, other: int)
    ensures EntriesFor(Indexed(x, fd, slot), other) == EntriesFor(x, other) + (if other == fd then 1 else 0)
  {
    var chain := x[HashFd(fd)];
    assert ([IndexEntry(fd, slot)] + chain)[1..] == chain;
  }

  lemma {:induction false} DropFirstEntries(chain: Chain, fd: int, other: int)
    ensures Entries(DropFirst(chain, fd), other)
         == Entries(chain, other) - (if other == fd && Entries(chain, fd) > 0 then 1 else 0)
  {
    if chain != [] && chain[0].fd != fd {
      DropFirstEntries(chain[1..], fd, other);
      assert ([chain[0]] + DropFirst(chain[1..], fd))[1..] == DropFirst(chain[1..], fd);
    }
  }

  lemma UnindexedEntries(x: Index, fd: int, other: int)
    ensures EntriesFor(Unindexed(x, fd), other)
         == EntriesFor(x, other) - (if other == fd && EntriesFor(x, fd) > 0 then 1 else 0)
  {
    DropFirstEntries(x[HashFd(fd)], fd, other);
  }

  /** The index's entries step by step: an addition and a look-up that searches
      the table add one for the fd; a removal takes one away, if there is one, and
      adds one for the connection that moves, whose old entry stays behind. */
  lemma EntriesStep(n: Net, c: Conn, fd: int, other: int)
    ensures EntriesFor(Added(n, c).index, other) == EntriesFor(n.index, other) + (if other == c.fd then 1 else 0)
    ensures EntriesFor(Found(n, fd).0.index, other)
         == EntriesFor(n.index, other)
            + (if other == fd && !Absent(n.table, fd) && ChainFind(n.index[HashFd(fd)], n.table, fd) == -1 then 1 else 0)
    ensures var i := LinearFind(n.table, fd);
      EntriesFor(Removed(n, fd).index, other)
        == EntriesFor(n.index, other)
           - (if other == fd && EntriesFor(n.index, fd) > 0 then 1 else 0)
           + (if 0 <= i < |n.table| - 1 && other == n.table[|n.table| - 1].fd then 1 else 0)
  {
    hide EntriesFor, Indexed, Unindexed, ChainFind;
    IndexedEntries(n.index, c.fd, |n.table|, other);
    IndexedEntries(n.index, fd, LinearFind(n.table, fd), other);
    UnindexedEntries(n.index, fd, other);
    var i := LinearFind(n.table, fd);
    if 0 <= i < |n.table| - 1 {
      IndexedEntries(Unindexed(n.index, fd), n.table[|n.table| - 1].fd, i, other);
    }
  }
}
