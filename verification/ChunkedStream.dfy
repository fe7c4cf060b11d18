/** src/stream.c: the chunked transfer writer over a socket that may take only
    part of what it is given. */
module ChunkedStream {
  import opened CMachine

  const CR: Byte := 13
  const LF: Byte := 10
  const CRLF: Bytes := [CR, LF]
  const TERMINATOR: Bytes := [48, CR, LF, CR, LF]
  const CHUNK_SIZE := 32

  datatype StreamResult = Success | NullError | TimeoutError | ClosedError

  /** How one send() call ends: it takes some bytes, or meets the end of the
      connection, or would block (before or after the deadline), or fails. */
  datatype Attempt = Took(n: nat) | AtEnd | Blocked(late: bool) | Failed

  // ----------------------------------------------------------- the format

  function HexDigit(d: nat): Byte
    requires d < 16
  {
    if d < 10 then 48 + d else 87 + d
  }

  /** What "%zx" prints for a positive size. */
  function Hex(n: nat): (h: Bytes)
    ensures |h| >= 1
  {
    if n < 16 then [HexDigit(n)] else Hex(n / 16) + [HexDigit(n % 16)]
  }

  function Frame(data: Bytes): Bytes {
    Hex(|data|) + CRLF + data + CRLF
  }

  function Framed(data: Bytes, chunked: bool): Bytes {
    if chunked then Frame(data) else data
  }

  /** The chunk loop: pieces of 32 bytes, the last one shorter. */
  function Chunks(data: Bytes): Bytes
    decreases |data|
  {
    if data == [] then []
    else if |data| < CHUNK_SIZE then Frame(data)
    else Frame(data[..CHUNK_SIZE]) + Chunks(data[CHUNK_SIZE..])
  }

  lemma {:induction false} HexLength(n: nat, digits: nat, bound: nat)
    requires n < bound && digits >= 1 && bound == Power16(digits)
    ensures |Hex(n)| <= digits
    decreases digits
  {
    if n >= 16 {
      assert digits > 1 by { assert Power16(1) == 16 * Power16(0) == 16; }
      HexLength(n / 16, digits - 1, Power16(digits - 1));
    }
  }

  function Power16(k: nat): nat {
    if k == 0 then 1 else 16 * Power16(k - 1)
  }

  lemma PowerOfWord()
    ensures Power16(16) == TWO_64
  {
    assert Power16(4) == 0x1_0000;
    assert Power16(8) == 0x1_0000_0000 by {
      assert Power16(5) == 0x10_0000 && Power16(6) == 0x100_0000;
    }
    assert Power16(12) == 0x1_0000_0000_0000 by {
      assert Power16(9) == 0x10_0000_0000 && Power16(10) == 0x100_0000_0000;
    }
    assert Power16(13) == 0x10_0000_0000_0000 && Power16(14) == 0x100_0000_0000_0000;
  }

  /** The size line of any chunk fits the header buffer of 32 bytes with its NUL. */
  lemma HeaderFits(n: nat)
    requires n < TWO_64
    ensures |Hex(n) + CRLF| < 32
  {
    PowerOfWord();
    HexLength(n, 16, TWO_64);
  }

  /** Less than all of `piece` has been added to the wire. */
  ghost predicate Cut(before: Bytes, after: Bytes, piece: Bytes) {
    exists k :: 0 <= k < |piece| && after == before + piece[..k]
  }

  // --------------------------------------------- how a schedule of sends ends

  /** The result, the bytes taken, those of parts sent in full, and the sends
      that are left. */
  datatype Ending = Ending(result: StreamResult, taken: nat, counted: nat, left: seq<Attempt>)

  function Min(a: nat, b: nat): nat {
    if a < b then a else b
  }

  /** One part of `len` bytes. With a timeout, sends go on until they have taken
      it all, or one ends it; without one there is a single send. */
  function Outcome(sends: seq<Attempt>, len: nat, timeoutMs: nat): (o: Ending)
    requires len > 0
    ensures o.taken <= len && o.counted == (if o.result == Success then len else 0)
    ensures o.result == Success <==> o.taken == len
    ensures o.result != NullError
  {
    if timeoutMs > 0 then Waited(sends, len)
    else if sends == [] then Ending(ClosedError, 0, 0, [])
    else
      var taken := if sends[0].Took? then Min(sends[0].n, len) else 0;
      if taken == len then Ending(Success, len, len, sends[1..]) else Ending(ClosedError, taken, 0, sends[1..])
  }

  function Waited(sends: seq<Attempt>, len: nat): (o: Ending)
    ensures o.taken <= len && o.counted == (if o.result == Success then len else 0)
    ensures o.result == Success <==> o.taken == len
    ensures o.result != NullError
    decreases |sends|
  {
    if len == 0 then Ending(Success, 0, 0, sends)
    else if sends == [] then Ending(TimeoutError, 0, 0, [])
    else
      match sends[0]
      case Took(n) =>
        if n == 0 then Ending(ClosedError, 0, 0, sends[1..])
        else if n >= len then Ending(Success, len, len, sends[1..])
        else
          var o := Waited(sends[1..], len - n);
          o.(taken := n + o.taken, counted := if o.result == Success then len else 0)
      case AtEnd => Ending(ClosedError, 0, 0, sends[1..])
      case Blocked(late) => if late then Ending(TimeoutError, 0, 0, sends[1..]) else Waited(sends[1..], len)
      case Failed => Ending(ClosedError, 0, 0, sends[1..])
  }

  function Sum(lens: seq<nat>): nat {
    if lens == [] then 0 else lens[0] + Sum(lens[1..])
  }

  predicate Positive(lens: seq<nat>) {
    forall i :: 0 <= i < |lens| ==> lens[i] > 0
  }

  /** Parts one after the other, up to the first that fails. */
  function Series(sends: seq<Attempt>, lens: seq<nat>, timeoutMs: nat): (o: Ending)
    requires Positive(lens)
    ensures o.counted <= o.taken <= Sum(lens)
    ensures o.result == Success <==> o.taken == Sum(lens)
    ensures o.result == Success ==> o.counted == o.taken
    ensures o.result != NullError
    decreases |lens|
  {
    if lens == [] then Ending(Success, 0, 0, sends)
    else
      var o := Outcome(sends, lens[0], timeoutMs);
      if o.result != Success then o
      else
        var r := Series(o.left, lens[1..], timeoutMs);
        Ending(r.result, o.taken + r.taken, o.counted + r.counted, r.left)
  }

  function Then(a: Ending, b: Ending): Ending {
    if a.result != Success then a else Ending(b.result, a.taken + b.taken, a.counted + b.counted, b.left)
  }

  lemma {:induction false} SeriesAppend(sends: seq<Attempt>, a: seq<nat>, b: seq<nat>, timeoutMs: nat)
    requires Positive(a) && Positive(b)
    ensures Positive(a + b)
    ensures Series(sends, a + b, timeoutMs)
         == var o := Series(sends, a, timeoutMs); Then(o, Series(o.left, b, timeoutMs))
    decreases |a|
  {
    hide Outcome;
    if a == [] {
      assert a + b == b;
    } else {
      assert (a + b)[1..] == a[1..] + b;
      SeriesAppend(Outcome(sends, a[0], timeoutMs).left, a[1..], b, timeoutMs);
    }
  }

  lemma SeriesOne(sends: seq<Attempt>, len: nat, timeoutMs: nat)
    requires len > 0
    ensures Series(sends, [len], timeoutMs) == Outcome(sends, len, timeoutMs)
  {
    hide Outcome;
    var o := Outcome(sends, len, timeoutMs);
    assert [len][1..] == [];
    assert Series(o.left, [], timeoutMs) == Ending(Success, 0, 0, o.left);
  }

  /** The parts of one chunk: its size line, its data and its end. */
  function ChunkParts(n: nat, chunked: bool): (lens: seq<nat>)
    requires n > 0
    ensures Positive(lens)
  {
    if chunked then [|Hex(n)| + 2, n, 2] else [n]
  }

  /** Those of the chunk loop. */
  function PieceParts(n: nat, chunked: bool): (lens: seq<nat>)
    ensures Positive(lens)
    decreases n
  {
    if n == 0 then []
    else
      var k := Min(n, CHUNK_SIZE);
      ChunkParts(k, chunked) + PieceParts(n - k, chunked)
  }

  function BodyParts(data: Option<Bytes>, isStreaming: bool, chunked: bool): (lens: seq<nat>)
    ensures Positive(lens)
  {
    match data
    case None => []
    case Some(d) =>
      if isStreaming then PieceParts(|d|, chunked) else if d == [] then [] else ChunkParts(|d|, chunked)
  }

  function EndParts(chunked: bool): (lens: seq<nat>)
    ensures Positive(lens)
  {
    if chunked then [|TERMINATOR|] else []
  }

  // ---------------------------------------------------------- the stream

  class Stream {
    var wire: Bytes           // what the peer has been sent
    var sends: seq<Attempt>   // how the coming send() calls will end
    var isActive: bool
    const chunked: bool
    const timeoutMs: nat
    var bytesSent: nat
    var chunksSent: nat

    constructor (sends: seq<Attempt>, chunked: bool, timeoutMs: nat)
      ensures this.chunked == chunked && this.timeoutMs == timeoutMs && this.sends == sends
      ensures wire == [] && isActive && bytesSent == 0 && chunksSent == 0
    {
      this.wire, this.sends, this.chunked, this.timeoutMs := [], sends, chunked, timeoutMs;
      isActive, bytesSent, chunksSent := true, 0, 0;
    }

    /** One send() of `data`, which takes no more than it is given. */
    method Send(data: Bytes) returns (a: Attempt)
      modifies `wire, `sends
      ensures if old(sends) == [] then a == Blocked(true) && sends == []
              else
                && sends == old(sends)[1..]
                && a == (var x := old(sends)[0];
                         if !x.Took? then x else if x.n == 0 || data == [] then AtEnd else Took(Min(x.n, |data|)))
      ensures wire == if a.Took? then old(wire) + data[..a.n] else old(wire)
    {
      if sends == [] { return Blocked(true); }
      a := sends[0];
      sends := sends[1..];
      if a.Took? {
        if a.n == 0 || data == [] { return AtEnd; }
        a := Took(if a.n <= |data| then a.n else |data|);
        wire := wire + data[..a.n];
      }
    }

    /** Sends everything, or stops before the last byte: exactly as the schedule
        of sends decides. */
    method SendWithTimeout(data: Bytes, timeoutMs: nat) returns (r: StreamResult)
      requires data != []
      modifies `wire, `sends
      ensures var o := Outcome(old(sends), |data|, timeoutMs);
        r == o.result && sends == o.left && wire == old(wire) + data[..o.taken]
      ensures r == Success ==> wire == old(wire) + data
      ensures r != Success ==> Cut(old(wire), wire, data)
    {
      hide Cut;
      ghost var o := Outcome(sends, |data|, timeoutMs);
      PrefixCut(wire, data, o.taken);
      if timeoutMs == 0 {
        var a := Send(data);
        if a.Took? && a.n == |data| {
          return Success;
        }
        if !a.Took? { assert wire == old(wire) + data[..0]; }
        return ClosedError;
      }
      var total := 0;
      assert wire == old(wire) + data[..0];
      while total < |data|
        invariant 0 <= total <= |data| && wire == old(wire) + data[..total]
        invariant var w := Waited(sends, |data| - total);
          w.result == o.result && total + w.taken == o.taken && w.left == o.left
        decreases |sends|
      {
        if sends == [] { assert Waited(sends, |data| - total).taken == 0; }
        var a := Send(data[total..]);
        match a {
          case Took(n) =>
            TakeMore(old(wire), data, total, n);
            total := total + n;
          case AtEnd =>
            return ClosedError;
          case Blocked(late) =>
            if late { return TimeoutError; }
          case Failed =>
            return ClosedError;
        }
      }
      return Success;
    }

    /** Sends one part of a frame and counts it when all of it is out. */
    method SendPart(part: Bytes, timeoutMs: nat) returns (r: StreamResult)
      requires part != []
      modifies `wire, `sends, `bytesSent
      ensures var o := Outcome(old(sends), |part|, timeoutMs);
        && r == o.result && sends == o.left && wire == old(wire) + part[..o.taken]
        && bytesSent == old(bytesSent) + o.counted
    {
      r := SendWithTimeout(part, timeoutMs);
      if r != Success { return; }
      bytesSent := bytesSent + |part|;
    }

    /** The three parts of a chunk with its size line. */
    method SendFrame(header: Bytes, data: Bytes, timeoutMs: nat) returns (r: StreamResult)
      requires header != [] && data != []
      modifies `wire, `sends, `bytesSent
      ensures var frame, o := header + data + CRLF, Series(old(sends), [|header|, |data|, 2], timeoutMs);
        && r == o.result && sends == o.left && bytesSent == old(bytesSent) + o.counted
        && o.taken <= |frame| && (r == Success <==> o.taken == |frame|)
        && wire == old(wire) + frame[..o.taken]
    {
      hide Outcome, Series;
      ghost var start, oa := wire, Outcome(sends, |header|, timeoutMs);
      ghost var ob := Outcome(oa.left, |data|, timeoutMs);
      ThreeParts(sends, |header|, |data|, 2, timeoutMs);
      FrameWire(start, header, data, CRLF, oa, ob, Outcome(ob.left, 2, timeoutMs));
      r := SendPart(header, timeoutMs);
      if r != Success { return; }
      r := SendPart(data, timeoutMs);
      if r != Success { return; }
      r := SendPart(CRLF, timeoutMs);
    }

    /** One chunk: its size line, its data and its end, each in full, or an error
        that leaves a proper part of it on the wire; exactly as the sends decide. */
    method SendChunkEx(data: Bytes, timeoutMs: nat) returns (r: StreamResult)
      requires |data| < TWO_64
      modifies `wire, `sends, `bytesSent, `chunksSent
      ensures r == NullError <==> data == [] || !isActive
      ensures r == NullError ==> wire == old(wire) && sends == old(sends) && bytesSent == old(bytesSent)
      ensures r != NullError ==>
        var o := Series(old(sends), ChunkParts(|data|, chunked), timeoutMs);
        && r == o.result && sends == o.left && bytesSent == old(bytesSent) + o.counted
        && o.taken <= |Framed(data, chunked)| && wire == old(wire) + Framed(data, chunked)[..o.taken]
      ensures r == Success ==>
                wire == old(wire) + Framed(data, chunked) && bytesSent == old(bytesSent) + |Framed(data, chunked)|
      ensures r != NullError && r != Success ==> Cut(old(wire), wire, Framed(data, chunked))
      ensures chunksSent == old(chunksSent) + (if r == Success then 1 else 0)
    {
      if data == [] || !isActive { return NullError; }
      ghost var start, was, o := wire, sends, Series(sends, ChunkParts(|data|, chunked), timeoutMs);
      ChunkPartsLength(data, chunked);
      PrefixCut(start, Framed(data, chunked), o.taken);
      if chunked {
        HeaderFits(|data|);
        hide Hex, Outcome, Series;
        r := SendFrame(Hex(|data|) + CRLF, data, timeoutMs);
      } else {
        SeriesOne(was, |data|, timeoutMs);
        r := SendPart(data, timeoutMs);
      }
      assert wire == start + Framed(data, chunked)[..o.taken];
      if r == Success {
        chunksSent := chunksSent + 1;
      }
    }

    method End() returns (result: int)
      modifies `wire, `sends, `isActive
      ensures old(isActive) ==>
        var o := Series(old(sends), EndParts(chunked), timeoutMs);
        && result == (if o.result == Success then 0 else -1) && (isActive <==> o.result != Success)
        && sends == o.left && o.taken <= |EndBytes(chunked)|
        && wire == old(wire) + EndBytes(chunked)[..o.taken]
      ensures !old(isActive) ==> result == -1 && !isActive && wire == old(wire) && sends == old(sends)
      ensures result == 0 ==>
                old(isActive) && !isActive && wire == old(wire) + (if chunked then TERMINATOR else [])
      ensures result != 0 ==> isActive == old(isActive)
      ensures result != 0 && old(isActive) ==>
                chunked && Cut(old(wire), wire, TERMINATOR)
    {
      if !isActive { return -1; }
      if chunked {
        hide Outcome;
        SeriesOne(sends, |TERMINATOR|, timeoutMs);
        var r := SendWithTimeout(TERMINATOR, timeoutMs);
        if r != Success { return -1; }
      }
      isActive := false;
      return 0;
    }

    /** The chunk loop of stream_response. */
    method SendPieces(data: Bytes) returns (ok: bool)
      requires isActive && |data| < TWO_64
      modifies `wire, `sends, `bytesSent, `chunksSent
      ensures var o := Series(old(sends), PieceParts(|data|, chunked), timeoutMs);
        && (ok <==> o.result == Success) && sends == o.left && bytesSent == old(bytesSent) + o.counted
        && o.taken <= |Pieces(data, chunked)| && wire == old(wire) + Pieces(data, chunked)[..o.taken]
      ensures ok ==> wire == old(wire) + Pieces(data, chunked)
      ensures ok ==> bytesSent == old(bytesSent) + |Pieces(data, chunked)|
      ensures ok ==> chunksSent == old(chunksSent) + (|data| + 31) / 32
      ensures !ok ==> Cut(old(wire), wire, Pieces(data, chunked))
    {
      hide *;
      ghost var start, whole := wire, Pieces(data, chunked);
      ghost var out: nat := 0;
      ghost var o := Series(sends, PieceParts(|data|, chunked), timeoutMs);
      PiecesLength(data, chunked);
      PrefixCut(start, whole, o.taken);
      BeforeFirst(data, chunked, start, o);
      var ptr, remaining := 0, |data|;
      while remaining > 0
        invariant 0 <= ptr <= |data| && ptr + remaining == |data| && isActive
        invariant Standing(wire, start, out, data, ptr, chunked) && bytesSent == old(bytesSent) + out
        invariant o == After(out, Series(sends, PieceParts(remaining, chunked), timeoutMs))
        invariant chunksSent + (remaining + 31) / 32 == old(chunksSent) + (|data| + 31) / 32
        decreases remaining
      {
        var toSend := if remaining < 32 then remaining else 32;
        ghost var piece := Framed(data[ptr..ptr + toSend], chunked);
        Turn(data, ptr, toSend, chunked, start, wire, out, sends, timeoutMs);
        var r := SendChunkEx(data[ptr..ptr + toSend], timeoutMs);
        if r != Success {
          return false;
        }
        out := out + |piece|;
        ptr := ptr + toSend;
        remaining := remaining - toSend;
      }
      AfterLast(data, chunked, start, wire, out, sends, timeoutMs);
      return true;
    }

    /** The body of stream_response: the chunk loop, or one chunk for a response
        that is not streamed, or nothing for one without data, and the end of the stream, whose success is not
        looked at; `ended` tells it. */
    method RespondBody(data: Option<Bytes>, isStreaming: bool) returns (result: int, ghost ended: bool)
      requires isActive && (data.Some? ==> |data.value| < TWO_64)
      modifies this
      ensures var o := Series(old(sends), BodyParts(data, isStreaming, chunked), timeoutMs);
        var e := Series(o.left, EndParts(chunked), timeoutMs);
        && result == (if o.result == Success && !Refused(data, isStreaming) then 0 else -1)
        && o.taken <= |BodyBytes(data, isStreaming, chunked)| && e.taken <= |EndBytes(chunked)|
        && bytesSent == old(bytesSent) + o.counted
        && (result == 0 ==>
              && (ended <==> e.result == Success) && sends == e.left
              && wire == old(wire) + BodyBytes(data, isStreaming, chunked) + EndBytes(chunked)[..e.taken])
        && (result == -1 ==>
              && !ended && isActive && sends == o.left
              && wire == old(wire) + BodyBytes(data, isStreaming, chunked)[..o.taken])
      ensures timeoutMs > 0 && !Refused(data, isStreaming) && Steady(old(sends))
              && Takes(old(sends)) >= |BodyBytes(data, isStreaming, chunked)| + |EndBytes(chunked)| ==>
                result == 0 && ended
      ensures result == 0 || result == -1
      ensures result == 0 && data.Some? ==>
                chunksSent == old(chunksSent) + (if isStreaming then (|data.value| + 31) / 32 else 1)
      ensures result == 0 ==> (ended <==> !isActive)
      ensures result == 0 ==> bytesSent == old(bytesSent) + |BodyBytes(data, isStreaming, chunked)|
      ensures result == 0 && ended ==>
                wire == old(wire) + BodyBytes(data, isStreaming, chunked) + (if chunked then TERMINATOR else [])
      ensures result == 0 && !ended ==>
                chunked && Cut(old(wire) + BodyBytes(data, isStreaming, chunked), wire, TERMINATOR)
      ensures result == -1 ==>
                || Cut(old(wire), wire, BodyBytes(data, isStreaming, chunked))
                || (data == Some([]) && wire == old(wire))
      ensures !isStreaming && data == Some([]) ==> result == -1
      ensures data.None? ==> result == 0
    {
      hide Chunks, Frame, Outcome, ChunkParts, EndParts, Series, Steady, Takes;
      ended := false;
      NoParts(sends, timeoutMs);
      SteadyResponse(sends, data, isStreaming, chunked, timeoutMs);
      EndPartsLength(chunked);
      assert isStreaming && data.Some? ==> Sum(PieceParts(|data.value|, chunked)) == |Pieces(data.value, chunked)|;
      if isStreaming && data.Some? {
        var ok := SendPieces(data.value);
        if !ok { return -1, false; }
      } else if data.Some? {
        var r := SendChunkEx(data.value, timeoutMs);
        if r != Success { return -1, false; }
      }
      var e := End();
      ended := e == 0;
      result := 0;
    }
  }

  /** The one body that is refused before anything is sent: an empty one that is
      not streamed. */
  predicate Refused(data: Option<Bytes>, isStreaming: bool) {
    data == Some([]) && !isStreaming
  }

  function EndBytes(chunked: bool): Bytes {
    if chunked then TERMINATOR else []
  }

  /** An ending that comes after `n` bytes in full parts. */
  function After(n: nat, o: Ending): Ending {
    o.(taken := n + o.taken, counted := n + o.counted)
  }

  // ------------------------------------------------- when everything gets out

  /** The send takes something, or only blocks for now. */
  predicate Good(a: Attempt) {
    (a.Took? && a.n > 0) || a == Blocked(false)
  }

  predicate Steady(sends: seq<Attempt>) {
    forall i :: 0 <= i < |sends| ==> Good(sends[i])
  }

  /** How many sends take something. */
  function Takes(sends: seq<Attempt>): nat {
    if sends == [] then 0 else (if sends[0].Took? then 1 else 0) + Takes(sends[1..])
  }

  /** The bytes all of them could take. */
  function Total(sends: seq<Attempt>): nat {
    if sends == [] then 0 else (if sends[0].Took? then sends[0].n else 0) + Total(sends[1..])
  }

  /** With a timeout a part gets out exactly if the sends before the first bad one
      take all of it; otherwise that one decides the error, a late block or none
      left being a timeout. */
  lemma {:induction false} WaitedIff(sends: seq<Attempt>, len: nat, k: nat)
    requires k <= |sends| && Steady(sends[..k]) && (k < |sends| ==> !Good(sends[k])) && len > 0
    ensures var o := Waited(sends, len);
      && (o.result == Success <==> Total(sends[..k]) >= len)
      && (o.result != Success ==>
            o.result == if k == |sends| || sends[k] == Blocked(true) then TimeoutError else ClosedError)
      && o.taken == Min(Total(sends[..k]), len)
    decreases |sends|
  {
    if k > 0 {
      var a, rest := sends[0], sends[1..];
      assert sends[..k][0] == a && sends[..k][1..] == rest[..k - 1];
      SteadyRest(sends[..k]);
      if a.Blocked? {
        WaitedIff(rest, len, k - 1);
      } else if a.n < len {
        WaitedIff(rest, len - a.n, k - 1);
      }
    }
  }

  /** Without a timeout it does exactly if the first send takes all of it. */
  lemma OutcomeIff(sends: seq<Attempt>, len: nat, timeoutMs: nat)
    requires len > 0
    ensures var o := Outcome(sends, len, timeoutMs);
      if timeoutMs > 0 then o == Waited(sends, len)
      else
        && (o.result == Success <==> sends != [] && sends[0].Took? && sends[0].n >= len)
        && (o.result != Success ==> o.result == ClosedError)
  {
  }

  lemma SteadyRest(sends: seq<Attempt>)
    requires Steady(sends) && sends != []
    ensures Steady(sends[1..])
  {
  }

  /** So without timeouts everything gets out exactly if each part has a send of
      its own that takes all of it. */
  lemma {:induction false} SingleSends(sends: seq<Attempt>, lens: seq<nat>)
    requires Positive(lens)
    ensures Series(sends, lens, 0).result == Success <==>
      |sends| >= |lens| && forall i :: 0 <= i < |lens| ==> sends[i].Took? && sends[i].n >= lens[i]
    decreases |lens|
  {
    if lens != [] {
      OutcomeIff(sends, lens[0], 0);
      if sends != [] {
        assert Outcome(sends, lens[0], 0).left == sends[1..];
        SingleSends(sends[1..], lens[1..]);
        assert forall i :: 1 <= i < |lens| ==> lens[i] == lens[1..][i - 1];
        assert forall i :: 1 <= i < |sends| ==> sends[i] == sends[1..][i - 1];
      }
    }
  }

  lemma {:induction false} SteadyPart(sends: seq<Attempt>, len: nat)
    requires Steady(sends) && Takes(sends) >= len
    ensures var o := Waited(sends, len);
      o.result == Success && Steady(o.left) && Takes(o.left) + len >= Takes(sends)
    decreases |sends|
  {
    if len > 0 {
      assert Good(sends[0]);
      SteadyRest(sends);
      if sends[0].Blocked? {
        SteadyPart(sends[1..], len);
      } else if sends[0].n < len {
        SteadyPart(sends[1..], len - sends[0].n);
      }
    }
  }

  /** A steady schedule with as many sends as there are bytes is enough for all. */
  lemma {:induction false} SteadySeries(sends: seq<Attempt>, lens: seq<nat>, timeoutMs: nat)
    requires Positive(lens) && timeoutMs > 0 && Steady(sends) && Takes(sends) >= Sum(lens)
    ensures var o := Series(sends, lens, timeoutMs);
      o.result == Success && Steady(o.left) && Takes(o.left) + Sum(lens) >= Takes(sends)
    decreases |lens|
  {
    hide Waited, Steady, Takes;
    if lens != [] {
      SteadyPart(sends, lens[0]);
      SteadySeries(Waited(sends, lens[0]).left, lens[1..], timeoutMs);
    }
  }

  lemma SteadyResponse(sends: seq<Attempt>, data: Option<Bytes>, isStreaming: bool, chunked: bool, timeoutMs: nat)
    ensures Sum(BodyParts(data, isStreaming, chunked))
         == if Refused(data, isStreaming) then 0 else |BodyBytes(data, isStreaming, chunked)|
    ensures timeoutMs > 0 && !Refused(data, isStreaming) && Steady(sends)
            && Takes(sends) >= |BodyBytes(data, isStreaming, chunked)| + |EndBytes(chunked)| ==>
              var o := Series(sends, BodyParts(data, isStreaming, chunked), timeoutMs);
              o.result == Success && Series(o.left, EndParts(chunked), timeoutMs).result == Success
  {
    hide Steady, Takes, Series, Pieces, Framed, ChunkParts, PieceParts;
    BodyPartsLength(data, isStreaming, chunked);
    EndPartsLength(chunked);
    if timeoutMs > 0 && !Refused(data, isStreaming) && Steady(sends)
       && Takes(sends) >= |BodyBytes(data, isStreaming, chunked)| + |EndBytes(chunked)| {
      SteadySeries(sends, BodyParts(data, isStreaming, chunked), timeoutMs);
      SteadySeries(Series(sends, BodyParts(data, isStreaming, chunked), timeoutMs).left, EndParts(chunked), timeoutMs);
    }
  }

  lemma BodyPartsLength(data: Option<Bytes>, isStreaming: bool, chunked: bool)
    ensures Sum(BodyParts(data, isStreaming, chunked))
         == if Refused(data, isStreaming) then 0 else |BodyBytes(data, isStreaming, chunked)|
  {
    hide Pieces, Framed, ChunkParts, PieceParts;
    if data.Some? {
      PiecesLength(data.value, chunked);
      if data.value != [] {
        ChunkPartsLength(data.value, chunked);
      }
    }
  }

  lemma EndPartsLength(chunked: bool)
    ensures Sum(EndParts(chunked)) == |EndBytes(chunked)|
  {
    assert [|TERMINATOR|][1..] == [];
    assert Sum([|TERMINATOR|]) == |TERMINATOR| + Sum([]);
  }

  lemma NoParts(sends: seq<Attempt>, timeoutMs: nat)
    ensures Series(sends, [], timeoutMs) == Ending(Success, 0, 0, sends)
  {
  }

  lemma TakeMore(start: Bytes, data: Bytes, total: nat, n: nat)
    requires total + n <= |data|
    ensures start + data[..total] + data[total..][..n] == start + data[..total + n]
  {
    assert data[..total] + data[total..][..n] == data[..total + n];
  }

  lemma PrefixCut(start: Bytes, piece: Bytes, k: nat)
    requires k <= |piece|
    ensures k < |piece| ==> Cut(start, start + piece[..k], piece)
    ensures k == |piece| ==> piece[..k] == piece
  {
  }

  ghost predicate Ends(o: Ending, len: nat) {
    && o.taken <= len && (o.result == Success <==> o.taken == len)
    && o.counted == (if o.result == Success then len else 0)
  }

  /** Three parts sent one after the other put a front of the frame on the wire. */
  lemma FrameWire(start: Bytes, a: Bytes, b: Bytes, c: Bytes, oa: Ending, ob: Ending, oc: Ending)
    requires Ends(oa, |a|) && Ends(ob, |b|) && Ends(oc, |c|)
    ensures var frame, o := a + b + c, Then(oa, Then(ob, oc));
      && o.taken <= |frame| && (o.result == Success <==> o.taken == |frame|)
      && (oa.result != Success ==>
            o == oa && o.counted == 0 && start + a[..oa.taken] == start + frame[..o.taken])
      && (oa.result == Success && ob.result != Success ==>
            && o.result == ob.result && o.counted == |a| && o.left == ob.left
            && start + a[..oa.taken] + b[..ob.taken] == start + frame[..o.taken])
      && (oa.result == Success && ob.result == Success ==>
            && o.result == oc.result && o.counted == |a| + |b| + oc.counted && o.left == oc.left
            && start + a[..oa.taken] + b[..ob.taken] + c[..oc.taken] == start + frame[..o.taken])
  {
  }

  lemma ThreeParts(sends: seq<Attempt>, a: nat, b: nat, c: nat, timeoutMs: nat)
    requires a > 0 && b > 0 && c > 0
    ensures var oa := Outcome(sends, a, timeoutMs);
      var ob := Outcome(oa.left, b, timeoutMs);
      var oc := Outcome(ob.left, c, timeoutMs);
      Series(sends, [a, b, c], timeoutMs) == Then(oa, Then(ob, oc))
  {
    hide Outcome;
    var oa := Outcome(sends, a, timeoutMs);
    var ob := Outcome(oa.left, b, timeoutMs);
    assert [a, b, c][1..] == [b, c] && [b, c][1..] == [c];
    SeriesOne(ob.left, c, timeoutMs);
    assert Series(oa.left, [b, c], timeoutMs) == Then(ob, Series(ob.left, [c], timeoutMs));
  }

  lemma ChunkPartsLength(data: Bytes, chunked: bool)
    requires data != []
    ensures Sum(ChunkParts(|data|, chunked)) == |Framed(data, chunked)|
  {
    hide Hex;
    if chunked {
      var lens := ChunkParts(|data|, true);
      assert lens[1..][1..][1..] == [];
      assert Sum(lens[1..][1..]) == lens[2] + Sum([]);
      assert Sum(lens[1..]) == lens[1] + Sum(lens[1..][1..]);
    } else {
      assert [|data|][1..] == [];
    }
  }

  /** `out` bytes of the whole are on the wire, and those of the data up to `ptr`. */
  ghost predicate Standing(wire: Bytes, start: Bytes, out: nat, data: Bytes, ptr: nat, chunked: bool) {
    var whole := Pieces(data, chunked);
    ptr <= |data| && out <= |whole| && whole[out..] == Pieces(data[ptr..], chunked) && wire == start + whole[..out]
  }

  /** One turn of the chunk loop. */
  lemma Turn(data: Bytes, ptr: nat, k: nat, chunked: bool, start: Bytes, wire: Bytes, out: nat, sends: seq<Attempt>, timeoutMs: nat)
    requires ptr < |data| && k == (if |data| - ptr < 32 then |data| - ptr else 32) && Standing(wire, start, out, data, ptr, chunked)
    ensures var piece, whole := Framed(data[ptr..ptr + k], chunked), Pieces(data, chunked);
      var c := Series(sends, ChunkParts(k, chunked), timeoutMs);
      var r := After(out, Series(sends, PieceParts(|data| - ptr, chunked), timeoutMs));
      c.taken <= |piece| &&
      var wire' := wire + piece[..c.taken];
      if c.result == Success then
        && c.counted == |piece| && Standing(wire', start, out + |piece|, data, ptr + k, chunked)
        && r == After(out + |piece|, Series(c.left, PieceParts(|data| - ptr - k, chunked), timeoutMs))
      else
        && r.result == c.result && r.left == c.left && r.counted == out + c.counted && r.taken <= |whole|
        && wire' == start + whole[..r.taken]
  {
    hide Pieces, Framed, Series, ChunkParts;
    var piece, tail := Framed(data[ptr..ptr + k], chunked), Pieces(data[ptr + k..], chunked);
    PiecesStep(data, ptr, chunked);
    ChunkPartsLength(data[ptr..ptr + k], chunked);
    Passed(Pieces(data, chunked), out, piece, tail);
    PieceOut(start, Pieces(data, chunked), out, piece, Series(sends, ChunkParts(k, chunked), timeoutMs).taken);
    SeriesAppend(sends, ChunkParts(k, chunked), PieceParts(|data| - ptr - k, chunked), timeoutMs);
  }

  lemma BeforeFirst(data: Bytes, chunked: bool, start: Bytes, o: Ending)
    ensures Standing(start, start, 0, data, 0, chunked) && After(0, o) == o
  {
    hide Pieces;
    assert data[0..] == data && start + Pieces(data, chunked)[..0] == start;
  }

  lemma AfterLast(data: Bytes, chunked: bool, start: Bytes, wire: Bytes, out: nat, sends: seq<Attempt>, timeoutMs: nat)
    requires Standing(wire, start, out, data, |data|, chunked)
    ensures out == |Pieces(data, chunked)| && wire == start + Pieces(data, chunked)[..out]
    ensures After(out, Series(sends, PieceParts(0, chunked), timeoutMs)) == Ending(Success, out, out, sends)
    ensures Pieces(data, chunked)[..out] == Pieces(data, chunked)
  {
    assert data[|data|..] == [];
    NoPieces(chunked);
    NothingLeft(sends, timeoutMs);
  }

  lemma Passed(whole: Bytes, out: nat, piece: Bytes, tail: Bytes)
    requires out <= |whole| && whole[out..] == piece + tail
    ensures out + |piece| <= |whole| && whole[out..out + |piece|] == piece && whole[out + |piece|..] == tail
  {
    assert whole[out..][..|piece|] == piece && whole[out..][|piece|..] == tail;
  }

  lemma PieceOut(start: Bytes, whole: Bytes, out: nat, piece: Bytes, k: nat)
    requires out + |piece| <= |whole| && whole[out..out + |piece|] == piece && k <= |piece|
    ensures start + whole[..out] + piece[..k] == start + whole[..out + k]
  {
    assert piece[..k] == whole[out..out + k];
    assert whole[..out] + whole[out..out + k] == whole[..out + k];
  }

  lemma NothingLeft(sends: seq<Attempt>, timeoutMs: nat)
    ensures Series(sends, PieceParts(0, true), timeoutMs) == Series(sends, PieceParts(0, false), timeoutMs)
         == Ending(Success, 0, 0, sends)
  {
  }

  lemma {:induction false} PiecesLength(data: Bytes, chunked: bool)
    ensures Sum(PieceParts(|data|, chunked)) == |Pieces(data, chunked)|
    decreases |data|
  {
    hide Pieces, Framed, ChunkParts, Sum;
    if data == [] {
      NoPieces(chunked);
      SumNothing();
    } else {
      var k := Min(|data|, CHUNK_SIZE);
      assert data[0..] == data;
      PiecesStep(data, 0, chunked);
      PiecesLength(data[k..], chunked);
      ChunkPartsLength(data[..k], chunked);
      SumAppend(ChunkParts(k, chunked), PieceParts(|data| - k, chunked));
    }
  }

  lemma SumNothing()
    ensures Sum([]) == 0
  {
  }

  lemma {:induction false} SumAppend(a: seq<nat>, b: seq<nat>)
    ensures Sum(a + b) == Sum(a) + Sum(b)
  {
    if a == [] {
      assert a + b == b;
    } else {
      assert (a + b)[1..] == a[1..] + b;
      SumAppend(a[1..], b);
    }
  }

  lemma NoPieces(chunked: bool)
    ensures Pieces([], chunked) == []
  {
  }

  /** The chunk loop without and with chunked encoding. */
  function Pieces(data: Bytes, chunked: bool): Bytes {
    if chunked then Chunks(data) else data
  }

  /** What stands before the end of the stream; nothing if the response has no data. */
  function BodyBytes(data: Option<Bytes>, isStreaming: bool, chunked: bool): Bytes {
    match data
    case None => []
    case Some(d) => if isStreaming then Pieces(d, chunked) else Framed(d, chunked)
  }

  /** The next turn of the chunk loop. */
  lemma PiecesStep(data: Bytes, ptr: nat, chunked: bool)
    requires ptr < |data|
    ensures var n := if |data| - ptr < CHUNK_SIZE then |data| - ptr else CHUNK_SIZE;
      Pieces(data[ptr..], chunked) == Framed(data[ptr..ptr + n], chunked) + Pieces(data[ptr + n..], chunked)
  {
    var rest := data[ptr..];
    var n := if |rest| < CHUNK_SIZE then |rest| else CHUNK_SIZE;
    assert rest[..n] == data[ptr..ptr + n] && rest[n..] == data[ptr + n..];
    assert rest == rest[..n] + rest[n..];
    if n == |rest| {
      assert rest[..n] == rest && rest[n..] == [];
      assert Chunks([]) == [];
      assert n == CHUNK_SIZE || Chunks(rest) == Frame(rest);
    }
  }
}
