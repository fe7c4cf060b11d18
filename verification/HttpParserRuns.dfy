/** What src/http_parser.c does with whole inputs: buffers may be cut anywhere
    before the body, and the recorded slices are ordered and disjoint. */
module HttpParserRuns {
  import opened CMachine
  import opened HttpParsing

  // -------------------------------------------------------------- the fold

  lemma {:induction false} FeedCut(p: Core, mem: Bytes, i: nat, mid: nat, stop: nat, end: nat)
    requires i <= mid <= stop <= |mem|
    requires Feed(p, mem, i, mid, end).error.Fine?
    ensures Feed(p, mem, i, mid, end).stop == mid
    ensures Feed(p, mem, i, stop, end) == Feed(Feed(p, mem, i, mid, end).core, mem, mid, stop, end)
    decreases mid - i
  {
    hide Step;
    if i < mid {
      FeedCut(Step(p, mem, i, end).0, mem, i + 1, mid, stop, end);
    }
  }

  lemma {:induction false} FeedError(p: Core, mem: Bytes, i: nat, mid: nat, stop: nat, end: nat)
    requires i <= mid <= stop <= |mem|
    requires !Feed(p, mem, i, mid, end).error.Fine?
    ensures Feed(p, mem, i, stop, end) == Feed(p, mem, i, mid, end)
    decreases mid - i
  {
    hide Step;
    if i < mid && Step(p, mem, i, end).1.Fine? {
      FeedError(Step(p, mem, i, end).0, mem, i + 1, mid, stop, end);
    }
  }

  lemma {:induction false} BodyStays(p: Core, mem: Bytes, i: nat, stop: nat, end: nat)
    requires stop <= |mem| && p.state.Body?
    ensures Feed(p, mem, i, stop, end).core.state.Body? && Feed(p, mem, i, stop, end).error.Fine?
    decreases if i < stop then stop - i else 0
  {
    if i < stop {
      BodyStays(Step(p, mem, i, end).0, mem, i + 1, stop, end);
    }
  }

  lemma StepEndUnseen(p: Core, mem: Bytes, i: nat, end: nat, other: nat)
    requires i < |mem|
    ensures Step(p, mem, i, end).0.state.Body? || Step(p, mem, i, other) == Step(p, mem, i, end)
  {
  }

  /** The end of the buffer shows only in the length of the body. */
  lemma {:induction false} EndUnseen(p: Core, mem: Bytes, i: nat, stop: nat, end: nat, other: nat)
    requires i <= stop <= |mem|
    requires !Feed(p, mem, i, stop, end).core.state.Body?
    ensures Feed(p, mem, i, stop, other) == Feed(p, mem, i, stop, end)
    decreases stop - i
  {
    hide Step;
    if i < stop {
      var (p1, e) := Step(p, mem, i, end);
      if p1.state.Body? {
        BodyStays(p1, mem, i + 1, stop, end);
      }
      StepEndUnseen(p, mem, i, end, other);
      if e.Fine? {
        EndUnseen(p1, mem, i + 1, stop, end, other);
      }
    }
  }

  /** Split invariance: handing over a buffer in two adjacent pieces, the first of
      which ends without error and before the body, leaves the same parser and
      gives the same answer as handing it over whole. */
  lemma SplitInvariance(x: Parser, mem: Bytes, data: nat, mid: nat, end: nat)
    requires 0 < data <= mid <= end <= |mem|
    requires Execute(x, mem, data, mid).1.Fine?
    requires var s := Execute(x, mem, data, mid).0.core.state; !s.Body? && !s.Complete?
    ensures Execute(Execute(x, mem, data, mid).0, mem, mid, end) == Execute(x, mem, data, end)
  {
    hide Step;
    var f := Feed(x.core, mem, data, mid, mid);
    assert !f.core.state.Body? && !f.core.state.Complete?;
    EndUnseen(x.core, mem, data, mid, mid, end);
    FeedCut(x.core, mem, data, mid, end, end);
  }

  /** The cuts go forward from `data` and stay in memory. */
  ghost predicate Forward(mem: Bytes, data: nat, cuts: seq<nat>)
    decreases |cuts|
  {
    data <= |mem| && (cuts != [] ==> data <= cuts[0] <= |mem| && Forward(mem, cuts[0], cuts[1..]))
  }

  /** Handing over the pieces between the cuts one after the other. */
  function ExecutePieces(x: Parser, mem: Bytes, data: nat, cuts: seq<nat>): (Parser, Error)
    requires cuts != [] && Forward(mem, data, cuts)
    decreases |cuts|
  {
    if |cuts| == 1 then Execute(x, mem, data, cuts[0])
    else ExecutePieces(Execute(x, mem, data, cuts[0]).0, mem, cuts[0], cuts[1..])
  }

  /** Every piece but the last ends without error and before the body. */
  ghost predicate AllBefore(x: Parser, mem: Bytes, data: nat, cuts: seq<nat>)
    requires cuts != [] && Forward(mem, data, cuts)
    decreases |cuts|
  {
    |cuts| == 1
    || var (x', e) := Execute(x, mem, data, cuts[0]);
       e.Fine? && !x'.core.state.Body? && !x'.core.state.Complete? && AllBefore(x', mem, cuts[0], cuts[1..])
  }

  lemma {:induction false} ForwardLast(mem: Bytes, data: nat, cuts: seq<nat>)
    requires cuts != [] && Forward(mem, data, cuts)
    ensures data <= cuts[|cuts| - 1] <= |mem|
    decreases |cuts|
  {
    if |cuts| > 1 {
      ForwardLast(mem, cuts[0], cuts[1..]);
    }
  }

  /** Split invariance for any number of pieces. */
  lemma {:induction false} PiecesInvariance(x: Parser, mem: Bytes, data: nat, cuts: seq<nat>)
    requires 0 < data && cuts != [] && Forward(mem, data, cuts) && AllBefore(x, mem, data, cuts)
    ensures data <= cuts[|cuts| - 1] <= |mem|
    ensures ExecutePieces(x, mem, data, cuts) == Execute(x, mem, data, cuts[|cuts| - 1])
    decreases |cuts|
  {
    hide Execute;
    ForwardLast(mem, data, cuts);
    if |cuts| > 1 {
      ForwardLast(mem, cuts[0], cuts[1..]);
      PiecesInvariance(Execute(x, mem, data, cuts[0]).0, mem, cuts[0], cuts[1..]);
      SplitInvariance(x, mem, data, cuts[0], cuts[|cuts| - 1]);
    }
  }

  // ------------------------------------------------------ slices in order

  function EndOfHeaders(p: Core, floor: nat): nat {
    EndBefore(p.headers, floor, |p.headers|)
  }

  /** The end of the path, or of the query behind it. */
  function EndOfTarget(p: Core): nat {
    if p.queryStart != 0 then p.queryStart + p.queryLen else p.pathStart + p.pathLen
  }

  /** Where the slice before number `k` ends. */
  function EndBefore(headers: seq<Slice>, floor: nat, k: nat): nat
    requires k <= |headers|
  {
    if k == 0 then floor else headers[k - 1].start + headers[k - 1].len
  }

  ghost predicate Apart(headers: seq<Slice>, floor: nat, k: nat)
    requires k < |headers|
  {
    EndBefore(headers, floor, k) < headers[k].start
  }

  /** Consecutive header slices do not touch. */
  ghost predicate Ordered(headers: seq<Slice>, floor: nat) {
    forall k :: 0 <= k < |headers| ==> Apart(headers, floor, k)
  }

  ghost predicate TargetDone(p: Core, data: nat, i: nat) {
    && data <= p.pathStart
    && (p.queryStart != 0 ==> p.pathStart + p.pathLen < p.queryStart)
    && EndOfTarget(p) < i
  }

  ghost predicate HeadersDone(p: Core, i: nat) {
    Ordered(p.headers, EndOfTarget(p)) && EndOfHeaders(p, EndOfTarget(p)) < i
  }

  /** Inside a header line, its colon is behind its name and before the value. */
  ghost predicate InLine(p: Core, mem: Bytes, i: nat) {
    && EndOfHeaders(p, EndOfTarget(p)) < p.nameStart
    && p.nameStart + p.nameLen < i
    && p.nameLen >= 1
    && p.nameStart + p.nameLen < |mem| && mem[p.nameStart + p.nameLen] == COLON
  }

  /** What holds after the bytes from `data` up to `i`. */
  ghost predicate Tracked(p: Core, mem: Bytes, data: nat, i: nat) {
    && 0 < data <= i <= |mem| < TWO_64
    && p.contentLength == 0 && !p.keepAlive
    && |p.headers| <= MAX_HEADERS
    && match p.state
       case MethodStart => p.queryStart == 0 && p.headers == []
       case SpaceBeforePath => false
       case InMethod => data <= p.pathStart <= i && p.queryStart == 0 && p.headers == []
       case InPath => data <= p.pathStart <= i && p.queryStart == 0 && p.headers == []
       case InQuery => data <= p.pathStart && p.pathStart + p.pathLen < p.queryStart <= i && p.headers == []
       case SpaceBeforeVersion | VersionH | VersionHT | VersionHTT | VersionHTTP | VersionMajor
         | VersionMinorStart | VersionMinor | CrlfAfterVersion =>
         TargetDone(p, data, i) && p.headers == []
       case HeaderName =>
         TargetDone(p, data, i) && HeadersDone(p, i)
         && EndOfHeaders(p, EndOfTarget(p)) < p.nameStart && p.nameStart + p.nameLen == i && p.nameLen >= 1
       case SpaceBeforeValue => TargetDone(p, data, i) && HeadersDone(p, i) && InLine(p, mem, i)
       case HeaderValue =>
         TargetDone(p, data, i) && HeadersDone(p, i) && InLine(p, mem, i)
         && p.nameStart + p.nameLen < p.valueStart < i
       case _ => TargetDone(p, data, i) && HeadersDone(p, i)
  }

  lemma TrackedTarget(p: Core, mem: Bytes, data: nat, i: nat, end: nat)
    requires i < |mem| && Tracked(p, mem, data, i) && IsTargetState(p.state)
    requires Step(p, mem, i, end).1.Fine?
    ensures Tracked(Step(p, mem, i, end).0, mem, data, i + 1)
  {
    hide ParseMethod;
  }

  lemma TrackedVersion(p: Core, mem: Bytes, data: nat, i: nat, end: nat)
    requires i < |mem| && Tracked(p, mem, data, i) && IsVersionState(p.state)
    ensures Tracked(Step(p, mem, i, end).0, mem, data, i + 1)
  {
  }

  /** The line is judged whole, colon included, so it is never the bare name
      of a header: only the first twelve bytes of a 14-byte line can match. */
  lemma LineHasColon(p: Core, mem: Bytes, i: nat)
    requires p.nameStart + p.nameLen < i <= |mem| < TWO_64 && mem[p.nameStart + p.nameLen] == COLON
    ensures var q := EndOfValue(p, mem, i);
      && q.contentLength == p.contentLength && q.keepAlive == p.keepAlive
      && q.headers == Push(p.headers, Slice(p.nameStart, i - p.nameStart))
  {
    hide Push, Contains, Decimal, LowerAll, Lower, Read, Ascii, Recognized, Wrap64;
    var line := LowerAll(Read(mem, p.nameStart, i - p.nameStart));
    LoweredColon(mem, p.nameStart, i - p.nameStart, p.nameLen);
    ColonInNoName(line, p.nameLen);
    WrapWithin(i - p.nameStart);
    WrapWithin(i - p.valueStart);
    var valLen := Wrap64(i - p.valueStart);
    var p1 := p.(valueLen := valLen, headers := Push(p.headers, Slice(p.nameStart, i - p.nameStart)));
    NothingRecognized(p1, line, i - p.nameStart, Read(mem, p.valueStart, if valLen > 31 then 31 else valLen), valLen);
  }

  lemma NothingRecognized(p: Core, line: Bytes, lineLen: nat, value: Bytes, valLen: nat)
    requires line != Ascii("content-length") && line != Ascii("connection")
    ensures var q := Recognized(p, line, lineLen, value, valLen);
      q.contentLength == p.contentLength && q.keepAlive == p.keepAlive && q.headers == p.headers
  {
    hide Contains, Decimal, LowerAll, Ascii;
  }

  lemma LoweredColon(mem: Bytes, start: nat, len: nat, k: nat)
    requires start + len <= |mem| && k < len && mem[start + k] == COLON
    ensures k < |LowerAll(Read(mem, start, len))| && LowerAll(Read(mem, start, len))[k] == COLON
  {
  }

  lemma ColonInNoName(line: Bytes, k: nat)
    requires k < |line| && line[k] == COLON
    ensures line != Ascii("content-length") && line != Ascii("connection")
  {
    assert COLON !in Ascii("content-length") by {
      assert "content-length" == ['c', 'o', 'n', 't', 'e', 'n', 't', '-', 'l', 'e', 'n', 'g', 't', 'h'];
    }
    assert COLON !in Ascii("connection") by {
      assert "connection" == ['c', 'o', 'n', 'n', 'e', 'c', 't', 'i', 'o', 'n'];
    }
    assert line[k] in line;
  }

  lemma TrackedValueEnd(p: Core, mem: Bytes, data: nat, i: nat)
    requires i < |mem| && Tracked(p, mem, data, i) && p.state.HeaderValue?
    ensures Tracked(EndOfValue(p, mem, i), mem, data, i + 1)
  {
    LineHasColon(p, mem, i);
    EndKeepsTarget(p, mem, i);
    hide EndOfValue, Tracked;
    TrackedLine(p, EndOfValue(p, mem, i), mem, data, i);
  }

  lemma TrackedLine(p: Core, q: Core, mem: Bytes, data: nat, i: nat)
    requires i < |mem| && Tracked(p, mem, data, i) && p.state.HeaderValue?
    requires SameTarget(p, q) && q.state == HeaderCrlf
    requires q.contentLength == p.contentLength && q.keepAlive == p.keepAlive
    requires q.headers == Push(p.headers, Slice(p.nameStart, i - p.nameStart))
    ensures Tracked(q, mem, data, i + 1)
  {
    hide Ordered, Push, EndBefore;
    OrderedPush(p.headers, EndOfTarget(p), Slice(p.nameStart, i - p.nameStart));
  }

  lemma EndKeepsTarget(p: Core, mem: Bytes, i: nat)
    ensures SameTarget(p, EndOfValue(p, mem, i)) && EndOfValue(p, mem, i).state == HeaderCrlf
  {
    hide Wrap64, Push, Read, LowerAll, Contains, Decimal;
  }

  lemma OrderedPush(headers: seq<Slice>, floor: nat, h: Slice)
    requires Ordered(headers, floor) && EndBefore(headers, floor, |headers|) < h.start
    requires |headers| <= MAX_HEADERS
    ensures var pushed := Push(headers, h);
      && Ordered(pushed, floor) && |pushed| <= MAX_HEADERS
      && EndBefore(pushed, floor, |pushed|) <= h.start + h.len
  {
    var pushed := Push(headers, h);
    forall k | 0 <= k < |pushed|
      ensures Apart(pushed, floor, k)
    {
      assert k < |headers| ==> Apart(headers, floor, k);
    }
  }

  ghost predicate SameTarget(p: Core, q: Core) {
    && p.verb == q.verb && p.pathStart == q.pathStart && p.pathLen == q.pathLen
    && p.queryStart == q.queryStart && p.queryLen == q.queryLen
    && p.major == q.major && p.minor == q.minor
  }

  lemma TrackedHeader(p: Core, mem: Bytes, data: nat, i: nat, end: nat)
    requires i < |mem| && Tracked(p, mem, data, i) && !IsTargetState(p.state) && !IsVersionState(p.state)
    requires Step(p, mem, i, end).1.Fine?
    ensures Tracked(Step(p, mem, i, end).0, mem, data, i + 1)
  {
    hide EndOfValue, Ordered, Wrap64, TargetStep, VersionStep;
    if p.state.HeaderValue? && mem[i] == CR {
      TrackedValueEnd(p, mem, data, i);
    }
  }

  lemma {:induction false} TrackedFeed(p: Core, mem: Bytes, data: nat, i: nat, stop: nat, end: nat)
    requires stop <= |mem| && Tracked(p, mem, data, i) && i <= stop
    requires Feed(p, mem, i, stop, end).error.Fine?
    ensures Tracked(Feed(p, mem, i, stop, end).core, mem, data, stop)
    decreases stop - i
  {
    hide Step, Tracked;
    if i < stop {
      if IsTargetState(p.state) {
        TrackedTarget(p, mem, data, i, end);
      } else if IsVersionState(p.state) {
        TrackedVersion(p, mem, data, i, end);
      } else {
        TrackedHeader(p, mem, data, i, end);
      }
      TrackedFeed(Step(p, mem, i, end).0, mem, data, i + 1, stop, end);
    }
  }

  /** For every input that is accepted up to its headers, the path, the query and
      the header lines lie in the buffer, in this order and apart from each other. */
  lemma SlicesOrdered(mem: Bytes, data: nat, end: nat)
    requires 0 < data <= end <= |mem| < TWO_64
    requires Execute(Parser(INIT, 0, 0), mem, data, end).1.Fine?
    ensures var p := Execute(Parser(INIT, 0, 0), mem, data, end).0.core;
      !IsTargetState(p.state) ==>
        && data <= p.pathStart && p.pathStart + p.pathLen <= end
        && (p.queryStart != 0 ==> p.pathStart + p.pathLen < p.queryStart && p.queryStart + p.queryLen <= end)
        && (forall k :: 0 <= k < |p.headers| ==> EndOfTarget(p) < p.headers[k].start)
        && (forall k, l :: 0 <= k < l < |p.headers| ==> p.headers[k].start + p.headers[k].len < p.headers[l].start)
        && (forall k :: 0 <= k < |p.headers| ==> p.headers[k].start + p.headers[k].len <= end)
  {
    hide Step;
    var f := Feed(INIT, mem, data, end, end).core;
    TrackedFeed(INIT, mem, data, data, end, end);
    if !IsTargetState(f.state) {
      var floor := EndOfTarget(f);
      forall k, l | 0 <= k <= l < |f.headers|
        ensures EndBefore(f.headers, floor, k) < f.headers[l].start
      {
        OrderedPair(f.headers, floor, k, l);
      }
      OrderedEnds(f.headers, floor);
    }
  }

  lemma {:induction false} OrderedPair(headers: seq<Slice>, floor: nat, k: nat, l: nat)
    requires Ordered(headers, floor) && k <= l < |headers|
    ensures EndBefore(headers, floor, k) < headers[l].start
    decreases l - k
  {
    assert Apart(headers, floor, k);
    if k < l {
      OrderedPair(headers, floor, k + 1, l);
    }
  }

  lemma OrderedEnds(headers: seq<Slice>, floor: nat)
    requires forall k, l :: 0 <= k <= l < |headers| ==> EndBefore(headers, floor, k) < headers[l].start
    ensures forall k :: 0 <= k < |headers| ==> floor < headers[k].start
    ensures forall k, l :: 0 <= k < l < |headers| ==> headers[k].start + headers[k].len < headers[l].start
    ensures forall k :: 0 <= k < |headers| ==>
              headers[k].start + headers[k].len <= EndBefore(headers, floor, |headers|)
  {
    forall k, l | 0 <= k < l < |headers|
      ensures headers[k].start + headers[k].len < headers[l].start
    {
      assert EndBefore(headers, floor, k + 1) < headers[l].start;
    }
    forall k | 0 <= k < |headers|
      ensures floor < headers[k].start
    {
      assert EndBefore(headers, floor, 0) < headers[k].start;
    }
  }

  /** The content type is noted exactly at the end of a line of fourteen bytes that
      begins with the name: the line is compared with its colon, so only a value
      of one byte without a space in front of it is ever seen. */
  lemma ContentTypeIff(p: Core, mem: Bytes, i: nat)
    requires p.nameStart <= p.valueStart <= i < |mem| < TWO_64
    ensures var q, line := EndOfValue(p, mem, i), mem[p.nameStart..i];
      if |line| == 14 && LowerAll(line[..12]) == Ascii("content-type") then
        q.typeStart == p.valueStart && q.typeLen == i - p.valueStart
      else
        q.typeStart == p.typeStart && q.typeLen == p.typeLen
  {
    hide Recognized, Push, Lower;
    var line := mem[p.nameStart..i];
    var lineLen, valLen := Wrap64(i - p.nameStart), Wrap64(i - p.valueStart);
    assert lineLen == |line| && Read(mem, p.nameStart, lineLen) == line;
    var p1 := p.(valueLen := valLen, headers := Push(p.headers, Slice(p.nameStart, lineLen)));
    TypeRecognized(p1, line, Read(mem, p.valueStart, if valLen > 31 then 31 else valLen), valLen);
  }

  lemma TypeRecognized(p: Core, line: Bytes, value: Bytes, valLen: nat)
    ensures var q := Recognized(p, LowerAll(line), |line|, value, valLen);
      if |line| == 14 && LowerAll(line[..12]) == Ascii("content-type") then
        q.typeStart == p.valueStart && q.typeLen == valLen
      else
        q.typeStart == p.typeStart && q.typeLen == p.typeLen
  {
    hide Decimal, Contains, Lower;
    if |line| == 14 {
      assert LowerAll(line)[..12] == LowerAll(line[..12]);
    }
  }

  /** No input makes the parser see a body length or a connection header, since
      it compares whole lines with bare names: a request is complete as soon as
      its headers are. */
  lemma ContentLengthNeverSeen(mem: Bytes, data: nat, end: nat)
    requires 0 < data <= end <= |mem| < TWO_64
    requires Execute(Parser(INIT, 0, 0), mem, data, end).1.Fine?
    ensures var p := Execute(Parser(INIT, 0, 0), mem, data, end).0.core;
      p.contentLength == 0 && !p.keepAlive && !p.state.Body?
  {
    hide Step;
    TrackedFeed(INIT, mem, data, data, end, end);
  }

  /** So the cut must come before the body, and that is all: a first piece that
      reaches the end of the headers completes the request, and the parser drops
      what the second one brings. */
  lemma SplitIffBeforeBody(mem: Bytes, data: nat, mid: nat, end: nat)
    requires 0 < data <= mid < end <= |mem| < TWO_64
    requires Execute(Parser(INIT, 0, 0), mem, data, mid).1.Fine?
    ensures var x := Parser(INIT, 0, 0);
      var x1 := Execute(x, mem, data, mid).0;
      && (Execute(x1, mem, mid, end) == Execute(x, mem, data, end) <==> !x1.core.state.Complete?)
      && (x1.core.state.Complete? ==> Execute(x1, mem, mid, end) == (x1, Fine))
  {
    hide Step;
    var x := Parser(INIT, 0, 0);
    var x1 := Execute(x, mem, data, mid).0;
    ContentLengthNeverSeen(mem, data, mid);
    if !x1.core.state.Complete? {
      SplitInvariance(x, mem, data, mid, end);
    } else {
      ReadsAll(INIT, mem, data, mid, end);
    }
  }

  /** The bytes counted tell how far a call has read: past any piece before which
      it meets no error. */
  lemma ReadsAll(p: Core, mem: Bytes, i: nat, mid: nat, end: nat)
    requires i <= mid < end <= |mem|
    requires Feed(p, mem, i, mid, mid).error.Fine?
    ensures Feed(p, mem, i, end, end).stop > mid
  {
    hide Step;
    FineBefore(p, mem, i, mid, mid, end);
    FeedCut(p, mem, i, mid, end, end);
    FeedMoves(Feed(p, mem, i, mid, end).core, mem, mid, end, end);
  }

  lemma FeedMoves(p: Core, mem: Bytes, i: nat, stop: nat, end: nat)
    requires i < stop <= |mem|
    ensures Feed(p, mem, i, stop, end).stop > i
  {
    hide Step;
  }

  /** Where the buffer ends does not decide whether there is an error. */
  lemma {:induction false} FineBefore(p: Core, mem: Bytes, i: nat, stop: nat, end: nat, other: nat)
    requires i <= stop <= |mem|
    requires Feed(p, mem, i, stop, end).error.Fine?
    ensures Feed(p, mem, i, stop, other).error.Fine?
    decreases stop - i
  {
    if i < stop {
      StepEndUnseen(p, mem, i, end, other);
      if Step(p, mem, i, end).0.state.Body? {
        BodyFine(p, mem, i, end, other);
        BodyStays(Step(p, mem, i, other).0, mem, i + 1, stop, other);
      } else {
        hide Step;
        FineBefore(Step(p, mem, i, end).0, mem, i + 1, stop, end, other);
      }
    }
  }

  lemma BodyFine(p: Core, mem: Bytes, i: nat, end: nat, other: nat)
    requires i < |mem| && Step(p, mem, i, end).0.state.Body? && Step(p, mem, i, end).1.Fine?
    ensures Step(p, mem, i, other).0.state.Body? && Step(p, mem, i, other).1.Fine?
  {
  }

  // ---------------------------------------------------------- the body slice

  lemma {:induction false} BodyRest(p: Core, mem: Bytes, i: nat, end: nat)
    requires i <= end <= |mem| && p.state.Body?
    ensures Feed(p, mem, i, end, end)
         == Fed(if i == end then p else p.(bodyLen := Wrap64(end - p.bodyStart)), Fine, end)
    decreases end - i
  {
    hide Wrap64;
    if i < end {
      BodyRest(p.(bodyLen := Wrap64(end - p.bodyStart)), mem, i + 1, end);
    }
  }

  ghost predicate Unstarted(p: Core) {
    !p.state.Body? && !p.state.Complete? && p.bodyStart == 0 == p.bodyLen
  }

  /** A line feed behind the headers begins the body, or leaves it as it was. */
  lemma StepToBody(p: Core, mem: Bytes, i: nat, end: nat)
    requires i < end <= |mem| < TWO_64 && Unstarted(p)
    ensures var (q, e) := Step(p, mem, i, end);
      if q.state.Body? then
        && mem[i] == LF && e.Fine?
        && (p.state.HeaderStart? || p.state.HeadersCompleteCrlf?)
        && q.bodyStart == (if p.state.HeadersCompleteCrlf? then i + 1 else 0)
        && q.bodyLen == (if p.state.HeadersCompleteCrlf? then end - (i + 1) else 0)
      else Unstarted(q)
  {
    hide ParseMethod, EndOfValue;
    if p.state.HeaderValue? {
      ValueEndUnstarted(p, mem, i);
    }
  }

  lemma ValueEndUnstarted(p: Core, mem: Bytes, i: nat)
    requires Unstarted(p)
    ensures Unstarted(EndOfValue(p, mem, i))
  {
    hide Wrap64, Push, Contains, Decimal, LowerAll, Read;
  }

  lemma {:induction false} BodyFound(p: Core, mem: Bytes, i: nat, end: nat) returns (n: nat)
    requires i <= end <= |mem| < TWO_64 && Unstarted(p)
    requires Feed(p, mem, i, end, end).error.Fine? && Feed(p, mem, i, end, end).core.state.Body?
    ensures i <= n < end && mem[n] == LF
    ensures var before, after := Feed(p, mem, i, n, end), Feed(p, mem, i, end, end).core;
      && before.error.Fine? && Unstarted(before.core)
      && (before.core.state.HeaderStart? || before.core.state.HeadersCompleteCrlf?)
      && (before.core.state.HeadersCompleteCrlf? ==> after.bodyStart == n + 1 && after.bodyLen == end - (n + 1))
      && (before.core.state.HeaderStart? ==> after.bodyStart == 0 && after.bodyLen == if n + 1 == end then 0 else end)
    decreases end - i
  {
    hide Step, Wrap64;
    StepToBody(p, mem, i, end);
    var q := Step(p, mem, i, end).0;
    if q.state.Body? {
      n := i;
      BodyRest(q, mem, i + 1, end);
      WrapWithin(end - q.bodyStart);
    } else {
      n := BodyFound(q, mem, i + 1, end);
    }
  }

  lemma WrapWithin(n: int)
    ensures 0 <= n < TWO_64 ==> Wrap64(n) == n
  {
  }

  /** Where the headers of a complete request end. The body slice lies in the
      buffer, and is then all that follows, exactly if they end with CR LF; a bare
      LF leaves it without a start, and one more byte gives it a length that is
      an address. */
  lemma BodySliceIff(mem: Bytes, data: nat, end: nat) returns (n: nat)
    requires 0 < data <= end <= |mem| < TWO_64
    requires Execute(Parser(INIT, 0, 0), mem, data, end).1.Fine?
    requires Execute(Parser(INIT, 0, 0), mem, data, end).0.core.state.Complete?
    ensures data <= n < end && mem[n] == LF && Feed(INIT, mem, data, n, n).error.Fine?
    ensures var p := Execute(Parser(INIT, 0, 0), mem, data, end).0.core;
      var before := Feed(INIT, mem, data, n, n).core.state;
      && (before.HeaderStart? || before.HeadersCompleteCrlf?)
      && (data <= p.bodyStart && p.bodyStart + p.bodyLen <= end <==> before.HeadersCompleteCrlf?)
      && (before.HeadersCompleteCrlf? ==> p.bodyStart == n + 1 && p.bodyStart + p.bodyLen == end)
      && (before.HeaderStart? ==> p.bodyStart == 0 && p.bodyLen == if n + 1 == end then 0 else end)
  {
    hide Step;
    var f := Feed(INIT, mem, data, end, end);
    NeverComplete(INIT, mem, data, end, end);
    TrackedFeed(INIT, mem, data, data, end, end);
    n := BodyFound(INIT, mem, data, end);
    EndUnseen(INIT, mem, data, n, end, n);
  }

  /** Only the end of a call completes a request, not a byte. */
  lemma {:induction false} NeverComplete(p: Core, mem: Bytes, i: nat, stop: nat, end: nat)
    requires stop <= |mem| && !p.state.Complete?
    ensures !Feed(p, mem, i, stop, end).core.state.Complete?
    decreases if i < stop then stop - i else 0
  {
    if i < stop {
      StepIncomplete(p, mem, i, end);
      hide Step;
      NeverComplete(Step(p, mem, i, end).0, mem, i + 1, stop, end);
    }
  }

  lemma StepIncomplete(p: Core, mem: Bytes, i: nat, end: nat)
    requires i < |mem| && !p.state.Complete?
    ensures !Step(p, mem, i, end).0.state.Complete?
  {
    hide ParseMethod, Recognized, Wrap64, Push;
  }
}
