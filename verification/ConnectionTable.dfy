/** src/server.c: the connection table with its swap-remove, the fd index that
    may hold stale entries, and the scan that reaps idle connections. */
module ConnectionTables {
  import opened CMachine

  const CONN_HASH_SIZE := 65536
  const DRAIN_TIMEOUT := 5

  datatype ConnState = New | TlsHandshake | Active | H2Session | Draining | Closed

  /** A ConnectionInfo; the array holds these by value and moves them by copying. */
  datatype Conn = Conn(fd: int, owner: int, lastActivity: int, tls: bool, state: ConnState)

  datatype IndexEntry = IndexEntry(fd: int, slot: int)

  type Chain = seq<IndexEntry>

  type Index = x: seq<Chain> | |x| == CONN_HASH_SIZE witness seq(CONN_HASH_SIZE, _ => [])

  /** The table up to its count, and the hash chains of the index. */
  datatype Net = Net(table: seq<Conn>, index: Index)

  function HashFd(fd: int): (h: nat)
    ensures h < CONN_HASH_SIZE
  {
    Wrap32(fd * 2654435761) % CONN_HASH_SIZE
  }

  // ------------------------------------------------- specification functions

  function Indexed(x: Index, fd: int, slot: int): Index {
    x[HashFd(fd) := [IndexEntry(fd, slot)] + x[HashFd(fd)]]
  }

  /** A chain without its first entry for `fd`. */
  function DropFirst(chain: Chain, fd: int): Chain {
    if chain == [] then [] else if chain[0].fd == fd then chain[1..] else [chain[0]] + DropFirst(chain[1..], fd)
  }

  function Unindexed(x: Index, fd: int): Index {
    x[HashFd(fd) := DropFirst(x[HashFd(fd)], fd)]
  }

  predicate Valid(table: seq<Conn>, e: IndexEntry, fd: int) {
    e.fd == fd && 0 <= e.slot < |table| && table[e.slot].fd == fd
  }

  /** The slot named by the first valid entry for `fd`, or -1. */
  function ChainFind(chain: Chain, table: seq<Conn>, fd: int): (i: int)
    ensures i == -1 || (0 <= i < |table| && table[i].fd == fd && IndexEntry(fd, i) in chain)
  {
    if chain == [] then -1
    else if Valid(table, chain[0], fd) then chain[0].slot
    else ChainFind(chain[1..], table, fd)
  }

  /** The first slot that holds `fd`, or -1. */
  function LinearFind(table: seq<Conn>, fd: int): (i: int)
    ensures i == -1 ==> forall k :: 0 <= k < |table| ==> table[k].fd != fd
    ensures i == -1 || (0 <= i < |table| && table[i].fd == fd)
    ensures forall k :: 0 <= k < i ==> table[k].fd != fd
  {
    if table == [] then -1
    else if table[0].fd == fd then 0
    else
      var i := LinearFind(table[1..], fd);
      if i == -1 then -1 else i + 1
  }

  function Found(n: Net, fd: int): (Net, int) {
    var i := ChainFind(n.index[HashFd(fd)], n.table, fd);
    if i != -1 then (n, i)
    else
      var j := LinearFind(n.table, fd);
      if j == -1 then (n, -1) else (n.(index := Indexed(n.index, fd, j)), j)
  }

  function Added(n: Net, c: Conn): Net {
    Net(n.table + [c], Indexed(n.index, c.fd, |n.table|))
  }

  /** The last element takes the place of the one at `i`. */
  function SwapRemove<T>(s: seq<T>, i: nat): (r: seq<T>)
    requires i < |s|
    ensures |r| == |s| - 1
  {
    s[i := s[|s| - 1]][..|s| - 1]
  }

  function Removed(n: Net, fd: int): Net {
    var x := Unindexed(n.index, fd);
    var i := LinearFind(n.table, fd);
    if i == -1 then n.(index := x)
    else Net(SwapRemove(n.table, i),
             if i < |n.table| - 1 then Indexed(x, n.table[|n.table| - 1].fd, i) else x)
  }

  predicate Expired(c: Conn, now: int, timeout: int) {
    || (c.state.Draining? && c.lastActivity > 0 && now - c.lastActivity > DRAIN_TIMEOUT)
    || (c.state.Active? && c.lastActivity > 0 && now - c.lastActivity > timeout)
  }

  function Live(s: seq<Conn>, now: int, timeout: int): seq<Conn> {
    if s == [] then []
    else (if Expired(s[0], now, timeout) then [] else [s[0]]) + Live(s[1..], now, timeout)
  }

  /** The table after a reaper pass has still to judge the slots below `i`: an
      expired connection gives its slot to the last one, which was judged before. */
  function Swept(s: seq<Conn>, i: nat, now: int, timeout: int): (r: seq<Conn>)
    requires i <= |s|
    decreases i
  {
    if i == 0 then s
    else Swept(if Expired(s[i - 1], now, timeout) then SwapRemove(s, i - 1) else s, i - 1, now, timeout)
  }

  function Dead(s: seq<Conn>, now: int, timeout: int): seq<Conn> {
    if s == [] then []
    else (if Expired(s[0], now, timeout) then [s[0]] else []) + Dead(s[1..], now, timeout)
  }

  datatype CloseAction = CloseFd(fd: int) | CloseTls(fd: int)

  function Closing(c: Conn): CloseAction {
    if c.tls then CloseTls(c.fd) else CloseFd(c.fd)
  }

  function Closings(s: seq<Conn>): (r: seq<CloseAction>)
    ensures |r| == |s|
  {
    seq(|s|, i requires 0 <= i < |s| => Closing(s[i]))
  }

  // ---------------------------------------------------- multisets of parts

  lemma SwapRemoveParts<T>(s: seq<T>, i: nat)
    requires i < |s|
    ensures multiset(SwapRemove(s, i)) + multiset{s[i]} == multiset(s)
  {
    var n := |s| - 1;
    assert s == s[..n] + [s[n]];
    if i < n {
      assert s[..n] == s[..i] + [s[i]] + s[i + 1..n];
      assert SwapRemove(s, i) == s[..i] + [s[n]] + s[i + 1..n];
    } else {
      assert SwapRemove(s, i) == s[..n];
    }
  }

  lemma {:induction false} PartCounts(s: seq<Conn>, now: int, timeout: int, c: Conn)
    ensures multiset(Live(s, now, timeout))[c] == if Expired(c, now, timeout) then 0 else multiset(s)[c]
    ensures multiset(Dead(s, now, timeout))[c] == if Expired(c, now, timeout) then multiset(s)[c] else 0
  {
    if s != [] {
      assert s == [s[0]] + s[1..];
      PartCounts(s[1..], now, timeout, c);
    }
  }

  /** There is one way to split a table into expired and other connections. */
  lemma PartsUnique(s: seq<Conn>, a: seq<Conn>, b: seq<Conn>, now: int, timeout: int)
    requires multiset(a) + multiset(b) == multiset(s)
    requires forall i :: 0 <= i < |a| ==> !Expired(a[i], now, timeout)
    requires forall i :: 0 <= i < |b| ==> Expired(b[i], now, timeout)
    ensures multiset(a) == multiset(Live(s, now, timeout))
    ensures multiset(b) == multiset(Dead(s, now, timeout))
  {
    forall c: Conn
      ensures multiset(a)[c] == multiset(Live(s, now, timeout))[c]
      ensures multiset(b)[c] == multiset(Dead(s, now, timeout))[c]
    {
      PartCounts(s, now, timeout, c);
      assert c in multiset(a) ==> c in a;
      assert c in multiset(b) ==> c in b;
    }
  }

  lemma SwapRemoveAt<T>(s: seq<T>, i: nat, k: nat)
    requires i < |s| && k < |s| - 1
    ensures SwapRemove(s, i)[k] == if k == i then s[|s| - 1] else s[k]
  {
  }

  lemma LiveSame(s: seq<Conn>, t: seq<Conn>, c: Conn, now: int, timeout: int)
    requires multiset(t) + multiset{c} == multiset(s) && Expired(c, now, timeout)
    ensures multiset(Live(t, now, timeout)) == multiset(Live(s, now, timeout))
  {
    forall x: Conn
      ensures multiset(Live(t, now, timeout))[x] == multiset(Live(s, now, timeout))[x]
    {
      PartCounts(s, now, timeout, x);
      PartCounts(t, now, timeout, x);
      assert multiset(s)[x] == multiset(t)[x] + multiset{c}[x];
    }
  }

  lemma AllLive(s: seq<Conn>, now: int, timeout: int)
    requires forall k :: 0 <= k < |s| ==> !Expired(s[k], now, timeout)
    ensures multiset(s) == multiset(Live(s, now, timeout))
  {
    forall c: Conn
      ensures multiset(s)[c] == multiset(Live(s, now, timeout))[c]
    {
      PartCounts(s, now, timeout, c);
      assert c in multiset(s) ==> c in s;
    }
  }

  /** What a pass leaves are the connections that have not expired. */
  lemma {:induction false} SweptIsLive(s: seq<Conn>, i: nat, now: int, timeout: int)
    requires i <= |s| && forall k :: i <= k < |s| ==> !Expired(s[k], now, timeout)
    ensures multiset(Swept(s, i, now, timeout)) == multiset(Live(s, now, timeout))
    decreases i
  {
    hide Live, Expired, SwapRemove;
    if i == 0 {
      AllLive(s, now, timeout);
    } else if Expired(s[i - 1], now, timeout) {
      var s' := SwapRemove(s, i - 1);
      SwapRemoveParts(s, i - 1);
      forall k | i - 1 <= k < |s| - 1
        ensures !Expired(s'[k], now, timeout)
      {
        SwapRemoveAt(s, i - 1, k);
      }
      SweptIsLive(s', i - 1, now, timeout);
      LiveSame(s, s', s[i - 1], now, timeout);
    } else {
      SweptIsLive(s, i - 1, now, timeout);
    }
  }

  /** The reaper's rule: a draining connection idle for more than five seconds and
      an active one idle for longer than the timeout are gone after a pass, if
      they were ever used, and every other one stays; each that is gone had its
      TLS connection closed, or its fd if it had none. */
  lemma ReaperRule(s: seq<Conn>, now: int, timeout: int, c: Conn)
    ensures var idle := now - c.lastActivity;
      var gone := c.lastActivity > 0 && ((c.state == Draining && idle > 5) || (c.state == Active && idle > timeout));
      && multiset(Swept(s, |s|, now, timeout))[c] == (if gone then 0 else multiset(s)[c])
      && multiset(Dead(s, now, timeout))[c] == (if gone then multiset(s)[c] else 0)
      && Closing(c) == (if c.tls then CloseTls(c.fd) else CloseFd(c.fd))
  {
    SweptIsLive(s, |s|, now, timeout);
    PartCounts(s, now, timeout, c);
  }

  /** The slot `i` is the first that holds the fd. */
  ghost predicate FirstWith(table: seq<Conn>, fd: int, i: nat) {
    i < |table| && table[i].fd == fd && forall k :: 0 <= k < i ==> table[k].fd != fd
  }

  /** The connection in slot `i` is gone and the last one has its slot. */
  ghost predicate TakenOut(before: seq<Conn>, after: seq<Conn>, i: nat) {
    && i < |before| && |after| == |before| - 1
    && multiset(after) + multiset{before[i]} == multiset(before)
    && forall k :: 0 <= k < |after| ==> after[k] == if k == i then before[|before| - 1] else before[k]
  }

  lemma SwapTakesOut(s: seq<Conn>, i: nat)
    requires i < |s|
    ensures TakenOut(s, SwapRemove(s, i), i)
  {
    SwapRemoveParts(s, i);
  }

  /** A removal takes the first connection with the fd out of the table, and no
      other. */
  lemma RemovedOne(n: Net, fd: int)
    ensures var after := Removed(n, fd).table;
      if forall k :: 0 <= k < |n.table| ==> n.table[k].fd != fd then after == n.table
      else exists i :: FirstWith(n.table, fd, i) && TakenOut(n.table, after, i)
  {
    hide Indexed, Unindexed, TakenOut;
    var i := LinearFind(n.table, fd);
    if i != -1 {
      SwapTakesOut(n.table, i);
      assert FirstWith(n.table, fd, i);
    }
  }

  /** Its chain loses one entry for the fd and no other. */
  lemma {:induction false} DropFirstOne(chain: Chain, fd: int, e: IndexEntry)
    ensures e.fd != fd ==> multiset(DropFirst(chain, fd))[e] == multiset(chain)[e]
    ensures |DropFirst(chain, fd)| == |chain| - (if exists k :: 0 <= k < |chain| && chain[k].fd == fd then 1 else 0)
  {
    if chain != [] {
      assert chain == [chain[0]] + chain[1..];
      if chain[0].fd != fd {
        DropFirstOne(chain[1..], fd, e);
      }
    }
  }

  /** Removing slot `i` during a pass is the step the pass takes there. */
  lemma SweptSwap(s: seq<Conn>, i: nat, now: int, timeout: int)
    requires i < |s| && Expired(s[i], now, timeout)
    requires forall k :: i < k < |s| ==> !Expired(s[k], now, timeout)
    ensures var s' := SwapRemove(s, i);
      Swept(s', if i + 1 < |s'| then i + 1 else |s'|, now, timeout) == Swept(s, i + 1, now, timeout)
  {
  }

  // ------------------------------------------------------ the mutable table

  class ConnectionTable {
    var connections: array<Conn>
    var connectionCount: nat
    const hash: array<Chain>
    var activeConnections: int
    var closed: seq<CloseAction>  // the close calls made so far

    ghost predicate Valid()
      reads this, hash
    {
      hash.Length == CONN_HASH_SIZE && connectionCount <= connections.Length
    }

    ghost function View(): Net
      reads this, hash, connections
      requires Valid()
    {
      Net(connections[..connectionCount], hash[..])
    }

    constructor ()
      ensures Valid() && fresh(hash) && fresh(connections)
      ensures View().table == [] && activeConnections == 0 && closed == []
    {
      connections := new Conn[0];
      connectionCount := 0;
      hash := new Chain[CONN_HASH_SIZE](_ => []);
      activeConnections, closed := 0, [];
    }

    method HashAdd(fd: int, slot: int)
      requires Valid()
      modifies hash
      ensures Valid() && hash[..] == Indexed(old(hash[..]), fd, slot)
    {
      var idx := HashFd(fd);
      hash[idx] := [IndexEntry(fd, slot)] + hash[idx];
    }

    method HashRemove(fd: int)
      requires Valid()
      modifies hash
      ensures Valid() && hash[..] == Unindexed(old(hash[..]), fd)
    {
      var idx := HashFd(fd);
      var chain := hash[idx];
      var i := 0;
      while i < |chain|
        invariant 0 <= i <= |chain| && hash[..] == old(hash[..])
        invariant DropFirst(chain, fd) == chain[..i] + DropFirst(chain[i..], fd)
      {
        if chain[i].fd == fd {
          hash[idx] := chain[..i] + chain[i + 1..];
          assert chain[i..][1..] == chain[i + 1..];
          return;
        }
        assert chain[i..][1..] == chain[i + 1..] && chain[..i + 1] == chain[..i] + [chain[i]];
        i := i + 1;
      }
      assert chain[..i] == chain && chain[i..] == [] && DropFirst(chain, fd) == chain;
      assert old(hash[..])[idx := chain] == old(hash[..]);
    }

    method AddConnection(fd: int, owner: int, now: int) returns (slot: nat)
      requires Valid()
      modifies this`connections, this`connectionCount, connections, hash
      ensures Valid() && (connections == old(connections) || fresh(connections))
      ensures View() == old(Added(View(), Conn(fd, owner, now, false, New)))
      ensures slot == old(connectionCount)
    {
      ghost var before := connections[..connectionCount];
      if connectionCount >= connections.Length {
        var capacity := if connections.Length == 0 then 128 else connections.Length * 2;
        var filler := Conn(0, 0, 0, false, New);
        var larger := new Conn[capacity](i reads this, connections =>
          if 0 <= i < connections.Length then connections[i] else filler);
        connections := larger;
      }
      assert connections[..connectionCount] == before;
      slot := connectionCount;
      connections[slot] := Conn(fd, owner, now, false, New);
      connectionCount := connectionCount + 1;
      HashAdd(fd, slot);
    }

    method FindConnection(fd: int) returns (slot: int)
      requires Valid()
      modifies hash
      ensures Valid() && (View(), slot) == Found(old(View()), fd)
    {
      var chain := hash[HashFd(fd)];
      var k := 0;
      ghost var table := connections[..connectionCount];
      while k < |chain|
        invariant 0 <= k <= |chain|
        invariant ChainFind(chain, table, fd) == ChainFind(chain[k..], table, fd)
      {
        var e := chain[k];
        assert chain[k..][0] == e && chain[k..][1..] == chain[k + 1..];
        if e.fd == fd && 0 <= e.slot < connectionCount {
          if connections[e.slot].fd == fd {
            return e.slot;
          }
        }
        k := k + 1;
      }
      assert chain[k..] == [];
      slot := Scan(fd);
      if slot != -1 {
        HashAdd(fd, slot);
      }
    }

    method Scan(fd: int) returns (slot: int)
      requires Valid()
      ensures slot == LinearFind(connections[..connectionCount], fd)
    {
      ghost var table := connections[..connectionCount];
      slot := 0;
      while slot < connectionCount
        invariant 0 <= slot <= connectionCount
        invariant forall k :: 0 <= k < slot ==> table[k].fd != fd
      {
        if connections[slot].fd == fd {
          assert table[slot].fd == fd;
          return;
        }
        slot := slot + 1;
      }
      slot := -1;
    }

    method RemoveConnection(fd: int)
      requires Valid()
      modifies this`connectionCount, connections, hash
      ensures Valid() && View() == Removed(old(View()), fd)
    {
      HashRemove(fd);
      var i := Scan(fd);
      if i != -1 {
        if i < connectionCount - 1 {
          var movedFd := connections[connectionCount - 1].fd;
          connections[i] := connections[connectionCount - 1];
          HashAdd(movedFd, i);
        }
        connectionCount := connectionCount - 1;
      }
    }

    /** Closes slot `i` and fills it with the last one. */
    method ReapSlot(i: nat)
      requires Valid() && i < connectionCount
      modifies this`connectionCount, this`activeConnections, this`closed, connections
      ensures Valid()
      ensures connectionCount == old(connectionCount) - 1
      ensures connections[..connectionCount] == SwapRemove(old(connections[..connectionCount]), i)
      ensures i == connectionCount ==> connections[i].state == Closed
      ensures closed == old(closed) + [Closing(old(connections[i]))]
      ensures activeConnections == old(activeConnections) - 1
    {
      var info := connections[i];
      closed := closed + [if info.tls then CloseTls(info.fd) else CloseFd(info.fd)];
      connections[i] := info.(state := Closed);
      activeConnections := activeConnections - 1;
      if i < connectionCount - 1 {
        connections[i] := connections[connectionCount - 1];
      }
      connectionCount := connectionCount - 1;
    }

    /** Everything behind slot `i` has been judged; the expired connections seen so
        far are in `reaped`, each closed once, and the others are still here. */
    ghost predicate Scanned(i: int, table: seq<Conn>, reaped: seq<Conn>, now: int, timeout: int)
      reads this, hash, connections
    {
      && Valid() && -1 <= i <= connectionCount && i < connections.Length
      && (i == connectionCount ==> connections[i].state == Closed)
      && (forall k :: i < k < connectionCount ==> !Expired(connections[k], now, timeout))
      && (forall k :: 0 <= k < |reaped| ==> Expired(reaped[k], now, timeout))
      && multiset(connections[..connectionCount]) + multiset(reaped) == multiset(table)
    }

    ghost function SweptFrom(i: nat, now: int, timeout: int): seq<Conn>
      reads this, connections
      requires connectionCount <= connections.Length
    {
      var s := connections[..connectionCount];
      Swept(s, if i < |s| then i else |s|, now, timeout)
    }

    lemma ScanStarts(now: int, timeout: int)
      requires Valid()
      ensures var table := connections[..connectionCount];
              && Scanned(connectionCount - 1, table, [], now, timeout)
              && SweptFrom(connectionCount, now, timeout) == Swept(table, |table|, now, timeout)
    {
    }

    lemma ScanBounds(i: nat, table: seq<Conn>, reaped: seq<Conn>, now: int, timeout: int)
      requires Scanned(i, table, reaped, now, timeout)
      ensures i < connections.Length && connectionCount <= connections.Length && i <= connectionCount
    {
    }

    /** A slot that is not expired, or just past the end, is passed over. */
    lemma ScanSkips(i: nat, table: seq<Conn>, reaped: seq<Conn>, now: int, timeout: int)
      requires Scanned(i, table, reaped, now, timeout) && !Expired(connections[i], now, timeout)
      ensures Scanned(i - 1, table, reaped, now, timeout)
      ensures SweptFrom(i + 1, now, timeout) == SweptFrom(i, now, timeout)
    {
    }

    lemma ScanEnds(table: seq<Conn>, reaped: seq<Conn>, now: int, timeout: int)
      requires Scanned(-1, table, reaped, now, timeout)
      ensures SweptFrom(0, now, timeout) == connections[..connectionCount]
      ensures multiset(connections[..connectionCount]) == multiset(Live(table, now, timeout))
      ensures multiset(reaped) == multiset(Dead(table, now, timeout))
    {
      PartsUnique(table, connections[..connectionCount], reaped, now, timeout);
    }

    /** Reaping slot `i` leaves the scan where it is: the slot now holds a
        connection judged before, or lies just past the end. */
    method ReapDuringScan(i: nat, ghost table: seq<Conn>, ghost reaped: seq<Conn>, now: int, timeout: int)
      requires Scanned(i, table, reaped, now, timeout) && Expired(connections[i], now, timeout)
      modifies this`connectionCount, this`activeConnections, this`closed, connections
      ensures Valid() && Scanned(i, table, reaped + [old(connections[i])], now, timeout)
      ensures i < connectionCount ==> !Expired(connections[i], now, timeout)
      ensures connectionCount == old(connectionCount) - 1
      ensures SweptFrom(i + 1, now, timeout) == old(SweptFrom(i + 1, now, timeout))
      ensures closed == old(closed) + [Closing(old(connections[i]))]
      ensures activeConnections == old(activeConnections) - 1
    {
      ghost var before := connections[..connectionCount];
      SwapRemoveParts(before, i);
      SweptSwap(before, i, now, timeout);
      ReapSlot(i);
      assert forall k :: i <= k < connectionCount ==>
          connections[k] == connections[..connectionCount][k]
          && connections[k] == if k == i then before[|before| - 1] else before[k];
    }

    /** One pass of the reaper, which deletes while it scans: it keeps exactly the
        connections that are not expired and closes each of the others once. */
    method Reap(now: int, keepaliveTimeout: int) returns (ghost reaped: seq<Conn>)
      requires Valid()
      modifies this`connectionCount, this`activeConnections, this`closed, connections
      ensures Valid()
      ensures var timeout := if keepaliveTimeout > 0 then keepaliveTimeout else 30;
        && connections[..connectionCount] == Swept(old(connections[..connectionCount]), old(connectionCount), now, timeout)
        && multiset(connections[..connectionCount]) == multiset(Live(old(connections[..connectionCount]), now, timeout))
        && multiset(reaped) == multiset(Dead(old(connections[..connectionCount]), now, timeout))
      ensures closed == old(closed) + Closings(reaped)
      ensures activeConnections == old(activeConnections) - |reaped|
    {
      hide Scanned, SweptFrom, Swept, Live, Dead, Closings;
      var timeout := if keepaliveTimeout > 0 then keepaliveTimeout else 30;
      ScanStarts(now, timeout);
      ghost var table := connections[..connectionCount];
      reaped := [];
      var i := connectionCount - 1;
      while i >= 0
        invariant -1 <= i && Valid() && Scanned(i, table, reaped, now, timeout)
        invariant SweptFrom(i + 1, now, timeout) == Swept(table, |table|, now, timeout)
        invariant closed == old(closed) + Closings(reaped)
        invariant activeConnections == old(activeConnections) - |reaped|
        decreases connectionCount, i
      {
        ScanBounds(i, table, reaped, now, timeout);
        var info := connections[i];
        if info.state == Draining {
          if info.lastActivity > 0 && now - info.lastActivity > 5 {
            ReapDuringScan(i, table, reaped, now, timeout);
            ClosingsPush(reaped, info);
            reaped := reaped + [info];
            i := i + 1;
          } else {
            ScanSkips(i, table, reaped, now, timeout);
          }
        } else if info.state == Active && info.lastActivity > 0 && now - info.lastActivity > timeout {
          ReapDuringScan(i, table, reaped, now, timeout);
          ClosingsPush(reaped, info);
          reaped := reaped + [info];
          i := i + 1;
        } else {
          ScanSkips(i, table, reaped, now, timeout);
        }
        i := i - 1;
      }
      ScanEnds(table, reaped, now, timeout);
    }
  }

  lemma ClosingsPush(s: seq<Conn>, c: Conn)
    ensures Closings(s + [c]) == Closings(s) + [Closing(c)]
  {
  }
}
