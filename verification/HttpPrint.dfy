/** Printing a request by sections 3 and 5 of RFC 9112 and parsing the text with
    src/http_parser.c recovers the request. */
module HttpPrint {
  import opened CMachine
  import opened HttpParsing
  import opened HttpParserRuns

  datatype Header = Header(name: Bytes, value: Bytes)

  datatype Request = Request(
    verb: Bytes,
    path: Bytes,
    query: Option<Bytes>,
    major: nat,
    minor: nat,
    headers: seq<Header>,
    body: Bytes)

  // ---------------------------------------------------------------- printing

  const CRLF: Bytes := [CR, LF]

  function Line(h: Header): Bytes {
    h.name + [COLON, SP] + h.value
  }

  function Lines(hs: seq<Header>): Bytes {
    if hs == [] then [] else Line(hs[0]) + CRLF + Lines(hs[1..])
  }

  function QueryPart(q: Option<Bytes>): Bytes {
    if q.Some? then [QUESTION] + q.value else []
  }

  function VersionPart(major: nat, minor: nat): (v: Bytes)
    requires major <= 9 && minor <= 9
    ensures |v| == 10
  {
    [72, 84, 84, 80, SLASH, ZERO + major, DOT, ZERO + minor, CR, LF]
  }

  function TargetPart(r: Request): Bytes {
    r.path + QueryPart(r.query) + [SP]
  }

  function Print(r: Request): Bytes
    requires r.major <= 9 && r.minor <= 9
  {
    r.verb + [SP] + (TargetPart(r) + (VersionPart(r.major, r.minor) + (Lines(r.headers) + (CRLF + r.body))))
  }

  // ------------------------------------------------------------- valid input

  function VerbOf(token: Bytes): Method {
    if token == Ascii("GET") then GET
    else if token == Ascii("PUT") then PUT
    else if token == Ascii("POST") then POST
    else if token == Ascii("HEAD") then HEAD
    else if token == Ascii("PATCH") then PATCH
    else if token == Ascii("DELETE") then DELETE
    else UNKNOWN
  }

  ghost predicate ValidName(name: Bytes) {
    name != [] && forall k :: 0 <= k < |name| ==> IsHeaderChar(name[k]) && name[k] != COLON
  }

  ghost predicate HasText(value: Bytes) {
    exists k :: 0 <= k < |value| && !IsBlank(value[k])
  }

  ghost predicate ValidHeader(h: Header) {
    ValidName(h.name) && CR !in h.value && HasText(h.value)
  }

  ghost predicate ValidRequest(r: Request) {
    && VerbOf(r.verb) != UNKNOWN
    && SP !in r.path && QUESTION !in r.path
    && (r.query.Some? ==> SP !in r.query.value)
    && r.major <= 9 && r.minor <= 9
    && forall k :: 0 <= k < |r.headers| ==> ValidHeader(r.headers[k])
  }

  // --------------------------------------------------------- reading a piece

  /** The bytes `s` stand at address `i`. */
  ghost predicate At(mem: Bytes, i: nat, s: Bytes) {
    i + |s| <= |mem| && mem[i..i + |s|] == s
  }

  lemma AtSplit(mem: Bytes, i: nat, s: Bytes, t: Bytes)
    requires At(mem, i, s + t)
    ensures At(mem, i, s) && At(mem, i + |s|, t)
  {
    var whole := mem[i..i + |s + t|];
    assert mem[i..i + |s|] == whole[..|s|] == s;
    assert mem[i + |s|..i + |s| + |t|] == whole[|s|..] == t;
  }

  lemma Bounded(mem: Bytes, i: nat, s: Bytes)
    requires At(mem, i, s)
    ensures i + |s| <= |mem|
  {
  }

  lemma AtByte(mem: Bytes, i: nat, s: Bytes, k: nat)
    requires At(mem, i, s) && k < |s|
    ensures mem[i + k] == s[k]
  {
    assert mem[i..i + |s|][k] == mem[i + k];
  }

  /** A run of bytes that each leave the parser alone. */
  lemma {:induction false} Stay(p: Core, mem: Bytes, i: nat, stop: nat, end: nat)
    requires i <= stop <= |mem|
    requires forall k :: i <= k < stop ==> Step(p, mem, k, end) == (p, Fine)
    ensures Feed(p, mem, i, stop, end) == Fed(p, Fine, stop)
    decreases stop - i
  {
    if i < stop {
      Stay(p, mem, i + 1, stop, end);
    }
  }

  /** Two runs in a row. */
  lemma Join(p: Core, mem: Bytes, i: nat, mid: nat, stop: nat, end: nat, q: Core, r: Core)
    requires i <= mid <= stop <= |mem|
    requires Feed(p, mem, i, mid, end) == Fed(q, Fine, mid)
    requires Feed(q, mem, mid, stop, end) == Fed(r, Fine, stop)
    ensures Feed(p, mem, i, stop, end) == Fed(r, Fine, stop)
  {
    FeedCut(p, mem, i, mid, stop, end);
  }

  lemma FeedNone(p: Core, mem: Bytes, i: nat, end: nat)
    requires i <= |mem|
    ensures Feed(p, mem, i, i, end) == Fed(p, Fine, i)
  {
  }

  lemma One(p: Core, mem: Bytes, i: nat, end: nat, q: Core)
    requires i < |mem| && Step(p, mem, i, end) == (q, Fine)
    ensures Feed(p, mem, i, i + 1, end) == Fed(q, Fine, i + 1)
  {
    assert Feed(q, mem, i + 1, i + 1, end) == Fed(q, Fine, i + 1);
  }

  lemma Advance(p: Core, mem: Bytes, start: nat, i: nat, end: nat, q: Core, r: Core)
    requires start <= i < |mem|
    requires Feed(p, mem, start, i, end) == Fed(q, Fine, i)
    requires Step(q, mem, i, end) == (r, Fine)
    ensures Feed(p, mem, start, i + 1, end) == Fed(r, Fine, i + 1)
  {
    One(q, mem, i, end, r);
    Join(p, mem, start, i, i + 1, end, q, r);
  }

  // ------------------------------------------------------------- the verb

  /** parse_method knows exactly six verbs: for OPTIONS it compares seven bytes of
      a six-byte token, and the seventh is the space behind it. */
  lemma ParseMethodExact(mem: Bytes, start: nat, token: Bytes)
    requires At(mem, start, token + [SP])
    ensures ParseMethod(mem, start, |token|) == VerbOf(token)
  {
    AtSplit(mem, start, token, [SP]);
    assert Read(mem, start, |token|) == token;
    if |token| == 6 {
      assert Read(mem, start, 7)[6] == SP;
      assert Ascii("OPTIONS")[6] == 'S' as int;
    }
  }

  ghost predicate IsToken(token: Bytes) {
    token != [] && SP !in token && token[0] != CR && token[0] != LF
  }

  lemma VerbIsToken(token: Bytes)
    requires VerbOf(token) != UNKNOWN
    ensures IsToken(token)
  {
    assert forall k :: 0 <= k < |token| ==> 65 <= token[k] <= 90;
  }

  /** A token and the space behind it: accepted exactly if it is a known verb. */
  lemma FeedVerb(mem: Bytes, i: nat, token: Bytes, end: nat)
    requires IsToken(token) && At(mem, i, token + [SP]) && |mem| < TWO_64
    ensures var f, n := Feed(INIT, mem, i, i + |token| + 1, end), i + |token| + 1;
      if VerbOf(token) == UNKNOWN then f.error == InvalidMethod && f.stop == n
      else f == Fed(INIT.(verb := VerbOf(token), pathStart := n, state := InPath), Fine, n)
  {
    var p := INIT.(pathStart := i, state := InMethod);
    var n := i + |token|;
    forall k | 0 <= k < |token| + 1
      ensures mem[i + k] == (token + [SP])[k]
    {
      AtByte(mem, i, token + [SP], k);
    }
    assert Step(INIT, mem, i, end) == (p, Fine) by { assert mem[i + 0] == token[0]; }
    One(INIT, mem, i, end, p);
    forall k | i + 1 <= k < n
      ensures Step(p, mem, k, end) == (p, Fine)
    {
      assert mem[i + (k - i)] == token[k - i];
    }
    Stay(p, mem, i + 1, n, end);
    Join(INIT, mem, i, i + 1, n, end, p, p);
    FeedCut(INIT, mem, i, n, n + 1, end);
    ParseMethodExact(mem, i, token);
    assert mem[i + |token|] == SP;
    assert Wrap64(n - i) == |token|;
    hide ParseMethod, VerbOf;
    var (q, e) := Step(p, mem, n, end);
    if e.Fine? {
      One(p, mem, n, end, q);
    }
  }

  /** So a request with any other verb, OPTIONS among them, is refused. */
  lemma UnknownVerbRefused(mem: Bytes, data: nat, token: Bytes, end: nat)
    requires 0 < data && end <= |mem| < TWO_64
    requires IsToken(token) && At(mem, data, token + [SP]) && data + |token| + 1 <= end
    requires VerbOf(token) == UNKNOWN
    ensures Execute(Parser(INIT, 0, 0), mem, data, end).1 == InvalidMethod
  {
    FeedVerb(mem, data, token, end);
    FeedError(INIT, mem, data, data + |token| + 1, end, end);
  }

  lemma OptionsRefused(mem: Bytes, data: nat, end: nat)
    requires 0 < data && end <= |mem| < TWO_64
    requires At(mem, data, Ascii("OPTIONS") + [SP]) && data + 8 <= end
    ensures Execute(Parser(INIT, 0, 0), mem, data, end).1 == InvalidMethod
  {
    assert forall k :: 0 <= k < 7 ==> 65 <= Ascii("OPTIONS")[k] <= 90;
    UnknownVerbRefused(mem, data, Ascii("OPTIONS"), end);
  }

  // ------------------------------------------------------ path and query

  lemma FeedQuery(p: Core, mem: Bytes, i: nat, query: Bytes, end: nat)
    requires p.state.InPath? && p.pathStart <= i && |mem| < TWO_64
    requires At(mem, i, [QUESTION] + query + [SP]) && SP !in query
    ensures var n := i + |query| + 2;
      Feed(p, mem, i, n, end) == Fed(p.(pathLen := i - p.pathStart, queryStart := i + 1, queryLen := |query|,
                                        state := SpaceBeforeVersion), Fine, n)
  {
    var text := [QUESTION] + query + [SP];
    var n := i + |query| + 1;
    forall k | 0 <= k < |text|
      ensures mem[i + k] == text[k]
    {
      AtByte(mem, i, text, k);
    }
    hide At, Feed, VersionStep, HeaderStep;
    var q := p.(pathLen := i - p.pathStart, queryStart := i + 1, state := InQuery);
    assert mem[i + 0] == QUESTION && mem[i + (|query| + 1)] == SP;
    One(p, mem, i, end, q);
    forall k | i + 1 <= k < n
      ensures Step(q, mem, k, end) == (q, Fine)
    {
      assert mem[i + (k - i)] == query[k - i - 1];
    }
    Stay(q, mem, i + 1, n, end);
    Join(p, mem, i, i + 1, n, end, q, q);
    Advance(p, mem, i, n, end, q, q.(queryLen := |query|, state := SpaceBeforeVersion));
  }

  lemma PathRead(p: Core, mem: Bytes, i: nat, path: Bytes, end: nat)
    requires p.state.InPath? && At(mem, i, path) && SP !in path && QUESTION !in path
    ensures i + |path| <= |mem| && Feed(p, mem, i, i + |path|, end) == Fed(p, Fine, i + |path|)
  {
    hide ParseMethod, VersionStep, HeaderStep, Wrap64;
    forall k | i <= k < i + |path|
      ensures Step(p, mem, k, end) == (p, Fine)
    {
      AtByte(mem, i, path, k - i);
    }
    Stay(p, mem, i, i + |path|, end);
  }

  lemma PathEnds(p: Core, mem: Bytes, m: nat, end: nat)
    requires p.state.InPath? && p.pathStart <= m < |mem| < TWO_64 && mem[m] == SP
    ensures Step(p, mem, m, end) == (p.(pathLen := m - p.pathStart, state := SpaceBeforeVersion), Fine)
  {
  }

  lemma FeedTarget(p: Core, mem: Bytes, i: nat, path: Bytes, query: Option<Bytes>, end: nat)
    requires p.state.InPath? && p.pathStart == i && |mem| < TWO_64
    requires At(mem, i, path + QueryPart(query) + [SP])
    requires SP !in path && QUESTION !in path && (query.Some? ==> SP !in query.value)
    ensures var n := i + |path| + |QueryPart(query)| + 1;
      var q := p.(pathLen := |path|, state := SpaceBeforeVersion);
      Feed(p, mem, i, n, end) == Fed(
        if query.Some? then q.(queryStart := i + |path| + 1, queryLen := |query.value|) else q, Fine, n)
  {
    hide Feed, Step, At;
    assert path + QueryPart(query) + [SP] == path + (QueryPart(query) + [SP]);
    AtSplit(mem, i, path, QueryPart(query) + [SP]);
    var m := i + |path|;
    PathRead(p, mem, i, path, end);
    Bounded(mem, m, QueryPart(query) + [SP]);
    if query.Some? {
      FeedQuery(p, mem, m, query.value, end);
      Join(p, mem, i, m, m + |query.value| + 2, end, p,
           p.(pathLen := |path|, queryStart := m + 1, queryLen := |query.value|, state := SpaceBeforeVersion));
    } else {
      AtByte(mem, m, QueryPart(query) + [SP], 0);
      PathEnds(p, mem, m, end);
      Advance(p, mem, i, m, end, p, p.(pathLen := |path|, state := SpaceBeforeVersion));
    }
  }

  // -------------------------------------------------------------- the version

  lemma FeedHttp(p: Core, mem: Bytes, i: nat, end: nat)
    requires p.state.SpaceBeforeVersion? && i + 5 <= |mem|
    requires mem[i] == 72 && mem[i + 1] == 84 && mem[i + 2] == 84 && mem[i + 3] == 80 && mem[i + 4] == SLASH
    ensures Feed(p, mem, i, i + 5, end) == Fed(p.(state := VersionMajor), Fine, i + 5)
  {
    hide Feed;
    One(p, mem, i, end, p.(state := VersionH));
    Advance(p, mem, i, i + 1, end, p.(state := VersionH), p.(state := VersionHT));
    Advance(p, mem, i, i + 2, end, p.(state := VersionHT), p.(state := VersionHTT));
    Advance(p, mem, i, i + 3, end, p.(state := VersionHTT), p.(state := VersionHTTP));
    Advance(p, mem, i, i + 4, end, p.(state := VersionHTTP), p.(state := VersionMajor));
  }

  lemma FeedNumber(p: Core, mem: Bytes, i: nat, major: nat, minor: nat, end: nat)
    requires p.state.VersionMajor? && i + 5 <= |mem| && major <= 9 && minor <= 9
    requires mem[i] == ZERO + major && mem[i + 1] == DOT && mem[i + 2] == ZERO + minor
    requires mem[i + 3] == CR && mem[i + 4] == LF
    ensures Feed(p, mem, i, i + 5, end)
         == Fed(p.(major := major, minor := minor, state := HeaderStart), Fine, i + 5)
  {
    hide Feed;
    var p1 := p.(major := major, state := VersionMinorStart);
    var p3 := p.(major := major, minor := minor, state := VersionMinor);
    One(p, mem, i, end, p1);
    Advance(p, mem, i, i + 1, end, p1, p1.(state := VersionMinor));
    Advance(p, mem, i, i + 2, end, p1.(state := VersionMinor), p3);
    Advance(p, mem, i, i + 3, end, p3, p3.(state := CrlfAfterVersion));
    Advance(p, mem, i, i + 4, end, p3.(state := CrlfAfterVersion), p3.(state := HeaderStart));
  }

  lemma VersionBytes(mem: Bytes, i: nat, major: nat, minor: nat)
    requires major <= 9 && minor <= 9 && At(mem, i, VersionPart(major, minor))
    ensures i + 10 <= |mem|
    ensures mem[i] == 72 && mem[i + 1] == 84 && mem[i + 2] == 84 && mem[i + 3] == 80 && mem[i + 4] == SLASH
    ensures mem[i + 5] == ZERO + major && mem[i + 6] == DOT && mem[i + 7] == ZERO + minor
    ensures mem[i + 8] == CR && mem[i + 9] == LF
  {
    var v := VersionPart(major, minor);
    hide At;
    Bounded(mem, i, v);
    AtByte(mem, i, v, 0);
    AtByte(mem, i, v, 1);
    AtByte(mem, i, v, 2);
    AtByte(mem, i, v, 3);
    AtByte(mem, i, v, 4);
    AtByte(mem, i, v, 5);
    AtByte(mem, i, v, 6);
    AtByte(mem, i, v, 7);
    AtByte(mem, i, v, 8);
    AtByte(mem, i, v, 9);
  }

  lemma FeedVersion(p: Core, mem: Bytes, i: nat, major: nat, minor: nat, end: nat)
    requires p.state.SpaceBeforeVersion? && major <= 9 && minor <= 9
    requires At(mem, i, VersionPart(major, minor))
    ensures Feed(p, mem, i, i + 10, end)
         == Fed(p.(major := major, minor := minor, state := HeaderStart), Fine, i + 10)
  {
    VersionBytes(mem, i, major, minor);
    hide Feed, At, Step, VersionPart;
    FeedHttp(p, mem, i, end);
    FeedNumber(p.(state := VersionMajor), mem, i + 5, major, minor, end);
    Join(p, mem, i, i + 5, i + 10, end, p.(state := VersionMajor),
         p.(major := major, minor := minor, state := HeaderStart));
  }

  // ------------------------------------------------------- what is passed over

  /** Whether the byte does something in the state. */
  predicate Awaited(s: State, c: Byte) {
    match s
    case SpaceBeforePath => c == 47
    case InPath => c == 32 || c == 63
    case InQuery => c == 32
    case SpaceBeforeVersion => c == 72
    case VersionMajor => 48 <= c <= 57
    case VersionMinorStart => c == 46
    case VersionMinor => 48 <= c <= 57 || c == 13
    case CrlfAfterVersion => c == 10
    case HeaderStart => c == 13 || c == 10 || (c > 32 && c != 127)
    case HeaderValue => c == 13
    case HeaderCrlf => c == 10
    case HeadersCompleteCrlf => c == 10
    case _ => true
  }

  /** Any number of other bytes is passed over without a trace. */
  lemma JunkSkipped(p: Core, mem: Bytes, i: nat, stop: nat, end: nat)
    requires i <= stop <= |mem| && forall k :: i <= k < stop ==> !Awaited(p.state, mem[k])
    ensures Feed(p, mem, i, stop, end) == Fed(p, Fine, stop)
  {
    forall k | i <= k < stop
      ensures Step(p, mem, k, end) == (p, Fine)
    {
      NotAwaited(p, mem, k, end);
    }
    Stay(p, mem, i, stop, end);
  }

  lemma NotAwaited(p: Core, mem: Bytes, k: nat, end: nat)
    requires k < |mem| && !Awaited(p.state, mem[k])
    ensures Step(p, mem, k, end) == (p, Fine)
  {
  }

  /** The state in which `k` letters of "HTTP/" have been read. */
  function Spelled(k: nat): State
    requires k <= 5
  {
    [SpaceBeforeVersion, VersionH, VersionHT, VersionHTT, VersionHTTP, VersionMajor][k]
  }

  function Letter(k: nat): Byte
    requires k < 5
  {
    [72, 84, 84, 80, 47][k]
  }

  lemma LetterStep(p: Core, mem: Bytes, a: nat, k: nat, end: nat)
    requires k < 5 && p.state == Spelled(k) && a < |mem|
    ensures Step(p, mem, a, end)
         == (if mem[a] == Letter(k) then p.(state := Spelled(k + 1)) else p.(state := SpaceBeforeVersion), Fine)
  {
    hide TargetStep, HeaderStep;
    assert k == 0 || k == 1 || k == 2 || k == 3 || k == 4;
  }

  lemma {:induction false} LettersRead(p: Core, mem: Bytes, i: nat, k: nat, end: nat)
    requires p.state.SpaceBeforeVersion? && k < 5 && i + k <= |mem|
    requires forall j :: 0 <= j < k ==> mem[i + j] == Letter(j)
    ensures Feed(p, mem, i, i + k, end) == Fed(p.(state := Spelled(k)), Fine, i + k)
  {
    hide Feed, Step, Letter;
    if k == 0 {
      FeedNone(p, mem, i, end);
    } else {
      LettersRead(p, mem, i, k - 1, end);
      var q := p.(state := Spelled(k - 1));
      LetterStep(q, mem, i + k - 1, k - 1, end);
      Advance(p, mem, i, i + k - 1, end, q, p.(state := Spelled(k)));
    }
  }

  /** A start of "HTTP/" that goes wrong is dropped with the byte that does not
      fit, even if that is an H, and the search begins anew behind it. */
  lemma VersionRestarts(p: Core, mem: Bytes, i: nat, k: nat, end: nat)
    requires p.state.SpaceBeforeVersion? && 1 <= k <= 4 && i + k < |mem|
    requires At(mem, i, Ascii("HTTP/")[..k]) && mem[i + k] != Ascii("HTTP/")[k]
    ensures Feed(p, mem, i, i + k + 1, end) == Fed(p, Fine, i + k + 1)
  {
    LettersAt(mem, i, k);
    hide Feed, Step, At, Ascii, Letter;
    LettersRead(p, mem, i, k, end);
    var q := p.(state := Spelled(k));
    LetterStep(q, mem, i + k, k, end);
    Advance(p, mem, i, i + k, end, q, p);
  }

  lemma LettersAt(mem: Bytes, i: nat, k: nat)
    requires k <= 4 && At(mem, i, Ascii("HTTP/")[..k])
    ensures forall j :: 0 <= j < k ==> mem[i + j] == Letter(j)
    ensures Ascii("HTTP/")[k] == Letter(k)
  {
    assert Ascii("HTTP/") == [72, 84, 84, 80, 47];
    forall j | 0 <= j < k
      ensures mem[i + j] == Letter(j)
    {
      AtByte(mem, i, Ascii("HTTP/")[..k], j);
    }
  }

  /** Of a minor version of several digits the last one is kept. */
  lemma {:induction false} MinorLastDigit(p: Core, mem: Bytes, i: nat, stop: nat, end: nat)
    requires p.state.VersionMinor? && i < stop <= |mem|
    requires forall k :: i <= k < stop ==> 48 <= mem[k] <= 57
    ensures Feed(p, mem, i, stop, end) == Fed(p.(minor := mem[stop - 1] - 48), Fine, stop)
    decreases stop - i
  {
    if i + 1 < stop {
      MinorLastDigit(p.(minor := mem[i] - 48), mem, i + 1, stop, end);
    } else {
      One(p, mem, i, end, p.(minor := mem[i] - 48));
    }
  }

  // ---------------------------------------------------------------- the headers

  /** The name of a header only lengthens the recorded name. */
  lemma {:induction false} FeedName(p: Core, mem: Bytes, i: nat, stop: nat, end: nat)
    requires p.state.HeaderName? && i <= stop <= |mem|
    requires forall k :: i <= k < stop ==> IsHeaderChar(mem[k]) && mem[k] != COLON
    ensures Feed(p, mem, i, stop, end) == Fed(p.(nameLen := p.nameLen + stop - i), Fine, stop)
    decreases stop - i
  {
    if i < stop {
      FeedName(p.(nameLen := p.nameLen + 1), mem, i + 1, stop, end);
    }
  }

  /** A name that goes from `i` up to `k`: the byte there ends it. A colon leads on
      to the value; a space, another control byte or a DEL makes the request
      malformed, wherever the buffer ends. */
  lemma NameEndsIff(p: Core, mem: Bytes, i: nat, k: nat, stop: nat, end: nat)
    requires p.state.HeaderStart? && i < k < stop <= |mem|
    requires mem[i] > 32 && mem[i] != 127
    requires forall j :: i < j < k ==> mem[j] > 32 && mem[j] != 127 && mem[j] != 58
    requires mem[k] <= 32 || mem[k] == 127 || mem[k] == 58
    ensures var f := Feed(p, mem, i, k + 1, end);
      if mem[k] == 58 then f.error == Fine && f.core.state == SpaceBeforeValue
      else f.error == Incomplete && f.stop == k + 1 && Feed(p, mem, i, stop, end) == f
  {
    hide Feed, TargetStep, VersionStep;
    var p1 := p.(nameStart := i, nameLen := 1, state := HeaderName);
    One(p, mem, i, end, p1);
    FeedName(p1, mem, i + 1, k, end);
    var p2 := p1.(nameLen := k - i);
    Join(p, mem, i, i + 1, k, end, p1, p2);
    FeedCut(p, mem, i, k, k + 1, end);
    if mem[k] == 58 {
      One(p2, mem, k, end, p2.(valueStart := k + 1, valueLen := 0, state := SpaceBeforeValue));
    } else {
      OneRefused(p2, mem, k, end);
      FeedError(p, mem, i, k + 1, stop, end);
    }
  }

  lemma OneRefused(p: Core, mem: Bytes, k: nat, end: nat)
    requires k < |mem| && Step(p, mem, k, end).1 != Fine
    ensures Feed(p, mem, k, k + 1, end).error == Step(p, mem, k, end).1 && Feed(p, mem, k, k + 1, end).stop == k + 1
  {
  }

  /** Exactly the requests that begin with a space or a line end are refused at
      their first byte. */
  lemma BlankStartRefused(mem: Bytes, data: nat, end: nat)
    requires 0 < data < end <= |mem|
    ensures var f := Feed(INIT, mem, data, data + 1, end);
      f.error == if mem[data] in {32, 13, 10} then InvalidMethod else Fine
    ensures mem[data] in {32, 13, 10} ==>
      Execute(Parser(INIT, 0, 0), mem, data, end) == (Parser(INIT, data, 1), InvalidMethod)
  {
  }

  /** The line up to and including its colon. */
  lemma FeedToColon(p: Core, mem: Bytes, i: nat, name: Bytes, end: nat)
    requires p.state.HeaderStart? && ValidName(name)
    requires At(mem, i, name + [COLON])
    ensures var c := i + |name| + 1;
      Feed(p, mem, i, c, end) == Fed(p.(nameStart := i, nameLen := |name|, valueStart := c, valueLen := 0,
                                        state := SpaceBeforeValue), Fine, c)
  {
    hide Feed, TargetStep, VersionStep, At;
    var c := i + |name|;
    NameAt(mem, i, name);
    var p1 := p.(nameStart := i, nameLen := 1, state := HeaderName);
    One(p, mem, i, end, p1);
    FeedName(p1, mem, i + 1, c, end);
    var p2 := p1.(nameLen := |name|);
    Join(p, mem, i, i + 1, c, end, p1, p2);
    Advance(p, mem, i, c, end, p2, p2.(valueStart := c + 1, valueLen := 0, state := SpaceBeforeValue));
  }

  lemma NameAt(mem: Bytes, i: nat, name: Bytes)
    requires ValidName(name) && At(mem, i, name + [COLON])
    ensures i + |name| < |mem| && mem[i + |name|] == COLON
    ensures forall j :: i <= j < i + |name| ==> IsHeaderChar(mem[j]) && mem[j] != COLON
  {
    hide IsHeaderChar;
    var text := name + [COLON];
    AtByte(mem, i, text, |name|);
    forall j | i <= j < i + |name|
      ensures mem[j] == name[j - i]
    {
      AtByte(mem, i, text, j - i);
    }
  }

  /** The line up to the first byte of the value that is not blank. */
  lemma FeedLineStart(p: Core, mem: Bytes, i: nat, name: Bytes, blanks: nat, end: nat)
    requires p.state.HeaderStart? && ValidName(name)
    requires At(mem, i, name + [COLON])
    requires var v := i + |name| + 1 + blanks; v < |mem| && !IsBlank(mem[v])
    requires forall k :: i + |name| + 1 <= k < i + |name| + 1 + blanks ==> IsBlank(mem[k])
    ensures var v := i + |name| + 1 + blanks;
      Feed(p, mem, i, v + 1, end) == Fed(p.(nameStart := i, nameLen := |name|, valueStart := v, valueLen := 1,
                                            state := HeaderValue), Fine, v + 1)
  {
    hide Feed, At, TargetStep, VersionStep;
    FeedToColon(p, mem, i, name, end);
    var c := i + |name| + 1;
    var q := p.(nameStart := i, nameLen := |name|, valueStart := c, valueLen := 0, state := SpaceBeforeValue);
    var v := c + blanks;
    Stay(q, mem, c, v, end);
    Join(p, mem, i, c, v, end, q, q);
    Advance(p, mem, i, v, end, q, q.(valueStart := v, valueLen := 1, state := HeaderValue));
  }

  /** What a header line leaves behind, apart from its own scratch fields. */
  ghost predicate LineRead(p: Core, q: Core, h: Slice) {
    && q.state.HeaderStart?
    && SameTarget(p, q)
    && q.contentLength == p.contentLength
    && q.headers == Push(p.headers, h)
  }

  lemma FeedValue(p: Core, mem: Bytes, i: nat, stop: nat, end: nat)
    requires p.state.HeaderValue? && i <= stop < stop + 1 < |mem| < TWO_64
    requires CR !in mem[i..stop] && mem[stop] == CR && mem[stop + 1] == LF
    requires p.nameStart + p.nameLen < stop && mem[p.nameStart + p.nameLen] == COLON
    ensures var f := Feed(p, mem, i, stop + 2, end);
      f == Fed(f.core, Fine, stop + 2) && LineRead(p, f.core, Slice(p.nameStart, stop - p.nameStart))
  {
    hide Feed, Step, EndOfValue;
    ValueRead(p, mem, i, stop, end);
    LineHasColon(p, mem, stop);
    ValueEnds(p, mem, stop, end);
    var q := EndOfValue(p, mem, stop);
    Advance(p, mem, i, stop, end, p, q);
    Advance(p, mem, i, stop + 1, end, q, q.(state := HeaderStart));
  }

  lemma ValueRead(p: Core, mem: Bytes, i: nat, stop: nat, end: nat)
    requires p.state.HeaderValue? && i <= stop < |mem| && CR !in mem[i..stop]
    ensures Feed(p, mem, i, stop, end) == Fed(p, Fine, stop)
  {
    hide TargetStep, VersionStep, EndOfValue, Wrap64;
    forall k | i <= k < stop
      ensures Step(p, mem, k, end) == (p, Fine)
    {
      assert mem[k] == mem[i..stop][k - i];
    }
    Stay(p, mem, i, stop, end);
  }

  lemma ValueEnds(p: Core, mem: Bytes, stop: nat, end: nat)
    requires p.state.HeaderValue? && stop + 1 < |mem| && mem[stop] == CR && mem[stop + 1] == LF
    ensures var q := EndOfValue(p, mem, stop);
      && SameTarget(p, q) && q.state == HeaderCrlf
      && Step(p, mem, stop, end) == (q, Fine)
      && Step(q, mem, stop + 1, end) == (q.(state := HeaderStart), Fine)
  {
    hide Wrap64, Push, Read, LowerAll, Contains, Decimal;
  }

  /** The first byte of a value that is not blank. */
  function LeadingBlanks(value: Bytes): (b: nat)
    ensures b <= |value|
    ensures forall k :: 0 <= k < b ==> IsBlank(value[k])
    ensures b < |value| ==> !IsBlank(value[b])
  {
    if value == [] || !IsBlank(value[0]) then 0 else 1 + LeadingBlanks(value[1..])
  }

  /** The parser at the first byte of the value proper. */
  function AtValue(p: Core, i: nat, h: Header): Core {
    p.(nameStart := i, nameLen := |h.name|, valueStart := i + |h.name| + 2 + LeadingBlanks(h.value), valueLen := 1,
       state := HeaderValue)
  }

  lemma FeedLineHead(p: Core, mem: Bytes, i: nat, h: Header, end: nat)
    requires p.state.HeaderStart? && ValidHeader(h)
    requires At(mem, i, h.name + [COLON]) && At(mem, i + |h.name| + 1, [SP]) && At(mem, i + |h.name| + 2, h.value)
    ensures var v := i + |h.name| + 2 + LeadingBlanks(h.value);
      v < |mem| && Feed(p, mem, i, v + 1, end) == Fed(AtValue(p, i, h), Fine, v + 1)
  {
    hide Feed, Step, At;
    var start, b := i + |h.name| + 2, LeadingBlanks(h.value);
    Bounded(mem, start, h.value);
    AtByte(mem, start, h.value, b);
    forall k | start - 1 <= k < start + b
      ensures IsBlank(mem[k])
    {
      if k == start - 1 {
        AtByte(mem, k, [SP], 0);
      } else {
        AtByte(mem, start, h.value, k - start);
      }
    }
    FeedLineStart(p, mem, i, h.name, 1 + b, end);
  }

  lemma FeedLine(p: Core, mem: Bytes, i: nat, h: Header, end: nat)
    requires p.state.HeaderStart? && ValidHeader(h) && |mem| < TWO_64
    requires At(mem, i, Line(h) + CRLF)
    ensures var n := i + |Line(h)| + 2; var f := Feed(p, mem, i, n, end);
      f == Fed(f.core, Fine, n) && LineRead(p, f.core, Slice(i, |Line(h)|))
  {
    hide At, Feed, Step, LeadingBlanks;
    LineLayout(mem, i, h);
    FeedLineHead(p, mem, i, h, end);
    var start, e := i + |h.name| + 2, i + |Line(h)|;
    var v := start + LeadingBlanks(h.value);
    NotInTail(mem, start, h.value, LeadingBlanks(h.value) + 1);
    AtByte(mem, e, CRLF, 0);
    AtByte(mem, e, CRLF, 1);
    AtByte(mem, i, h.name + [COLON], |h.name|);
    Bounded(mem, e, CRLF);
    var q := AtValue(p, i, h);
    FeedValue(q, mem, v + 1, e, end);
    Join(p, mem, i, v + 1, e + 2, end, q, Feed(q, mem, v + 1, e + 2, end).core);
  }

  lemma NotInTail(mem: Bytes, i: nat, s: Bytes, skip: nat)
    requires At(mem, i, s) && CR !in s && skip <= |s|
    ensures i + |s| <= |mem| && CR !in mem[i + skip..i + |s|]
  {
    assert mem[i + skip..i + |s|] == mem[i..i + |s|][skip..] == s[skip..];
  }

  lemma LineLayout(mem: Bytes, i: nat, h: Header)
    requires At(mem, i, Line(h) + CRLF)
    ensures At(mem, i, h.name + [COLON])
    ensures At(mem, i + |h.name| + 1, [SP])
    ensures At(mem, i + |h.name| + 2, h.value)
    ensures At(mem, i + |Line(h)|, CRLF)
  {
    AtSplit(mem, i, Line(h), CRLF);
    assert Line(h) == h.name + [COLON] + ([SP] + h.value);
    AtSplit(mem, i, h.name + [COLON], [SP] + h.value);
    AtSplit(mem, i + |h.name| + 1, [SP], h.value);
  }

  /** A value of blanks only, or none at all: its CR is taken for the value. */
  lemma FeedBlankLine(p: Core, mem: Bytes, i: nat, h: Header, end: nat)
    requires p.state.HeaderStart? && ValidName(h.name) && !HasText(h.value)
    requires At(mem, i, Line(h) + CRLF)
    ensures var n := i + |Line(h)| + 2; var f := Feed(p, mem, i, n, end);
      f == Fed(f.core, Fine, n) && f.core.state.HeaderValue?
  {
    hide Feed, Step;
    LineLayout(mem, i, h);
    var start, e := i + |h.name| + 2, i + |Line(h)|;
    forall k | start - 1 <= k < e
      ensures IsBlank(mem[k])
    {
      if k == start - 1 {
        AtByte(mem, k, [SP], 0);
      } else {
        AtByte(mem, start, h.value, k - start);
      }
    }
    AtByte(mem, e, CRLF, 0);
    AtByte(mem, e, CRLF, 1);
    FeedLineStart(p, mem, i, h.name, 1 + |h.value|, end);
    StaysInValue(p, mem, i, e + 1, end, Feed(p, mem, i, e + 1, end).core);
  }

  lemma StaysInValue(p: Core, mem: Bytes, start: nat, i: nat, end: nat, q: Core)
    requires start <= i < |mem| && Feed(p, mem, start, i, end) == Fed(q, Fine, i)
    requires q.state.HeaderValue? && mem[i] != CR
    ensures Feed(p, mem, start, i + 1, end) == Fed(q, Fine, i + 1)
  {
    Advance(p, mem, start, i, end, q, q);
  }

  /** A header line is ended by its own CRLF exactly if its value has a byte
      other than space and tab; otherwise the next line becomes its value. */
  lemma LineEndsItselfIff(p: Core, mem: Bytes, i: nat, h: Header, end: nat)
    requires p.state.HeaderStart? && ValidName(h.name) && CR !in h.value && |mem| < TWO_64
    requires At(mem, i, Line(h) + CRLF)
    ensures i + |Line(h)| + 2 <= |mem|
    ensures Feed(p, mem, i, i + |Line(h)| + 2, end).core.state.HeaderStart? <==> HasText(h.value)
  {
    hide Feed, At;
    Bounded(mem, i, Line(h) + CRLF);
    if HasText(h.value) {
      FeedLine(p, mem, i, h, end);
    } else {
      FeedBlankLine(p, mem, i, h, end);
    }
  }

  /** The slices of consecutive lines that start at `i`. */
  function LineSlices(i: nat, hs: seq<Header>): (s: seq<Slice>)
    ensures |s| == |hs|
    decreases |hs|
  {
    if hs == [] then [] else [Slice(i, |Line(hs[0])|)] + LineSlices(i + |Line(hs[0])| + 2, hs[1..])
  }

  function Kept(s: seq<Slice>): seq<Slice> {
    if |s| <= MAX_HEADERS then s else s[..MAX_HEADERS]
  }

  lemma {:induction false} FeedLines(p: Core, mem: Bytes, i: nat, hs: seq<Header>, end: nat)
    requires p.state.HeaderStart? && |p.headers| <= MAX_HEADERS && |mem| < TWO_64
    requires forall k :: 0 <= k < |hs| ==> ValidHeader(hs[k])
    requires At(mem, i, Lines(hs))
    ensures var n := i + |Lines(hs)|; var f := Feed(p, mem, i, n, end);
      && f == Fed(f.core, Fine, n) && f.core.state.HeaderStart?
      && SameTarget(p, f.core) && f.core.contentLength == p.contentLength
      && f.core.headers == Kept(p.headers + LineSlices(i, hs))
    decreases |hs|
  {
    hide Feed, At, Line, ValidHeader;
    if hs == [] {
      Bounded(mem, i, Lines(hs));
      FeedNone(p, mem, i, end);
      assert p.headers + LineSlices(i, hs) == p.headers;
    } else {
      AtSplit(mem, i, Line(hs[0]) + CRLF, Lines(hs[1..]));
      FeedLine(p, mem, i, hs[0], end);
      var m, n := i + |Line(hs[0])| + 2, i + |Lines(hs)|;
      var q := Feed(p, mem, i, m, end).core;
      FeedLines(q, mem, m, hs[1..], end);
      Join(p, mem, i, m, n, end, q, Feed(q, mem, m, n, end).core);
      KeptPush(p.headers, Slice(i, |Line(hs[0])|), LineSlices(m, hs[1..]));
    }
  }

  lemma KeptPush(s: seq<Slice>, h: Slice, t: seq<Slice>)
    requires |s| <= MAX_HEADERS
    ensures |Push(s, h)| <= MAX_HEADERS
    ensures Kept(Push(s, h) + t) == Kept(s + ([h] + t))
  {
    assert s + [h] + t == s + ([h] + t);
  }

  // --------------------------------------------------------------- the body

  lemma FeedBody(p: Core, mem: Bytes, i: nat, end: nat)
    requires p.state.HeaderStart? && At(mem, i, CRLF) && i + 2 <= end <= |mem| < TWO_64
    ensures Feed(p, mem, i, end, end) == Fed(p.(bodyStart := i + 2, bodyLen := end - (i + 2), state := Body), Fine, end)
  {
    AtByte(mem, i, CRLF, 0);
    AtByte(mem, i, CRLF, 1);
    var q := p.(bodyStart := i + 2, bodyLen := end - (i + 2), state := Body);
    One(p, mem, i, end, p.(state := HeadersCompleteCrlf));
    Advance(p, mem, i, i + 1, end, p.(state := HeadersCompleteCrlf), q);
    Stay(q, mem, i + 2, end, end);
    Join(p, mem, i, i + 2, end, end, q, q);
  }

  // ------------------------------------------------------------ the round trip

  /** The parser has recovered the request: same verb, version, path and query,
      the first 64 header lines in order, and the body. */
  ghost predicate Recovered(p: Core, mem: Bytes, r: Request) {
    && p.state == Complete
    && p.verb == VerbOf(r.verb)
    && p.major == r.major && p.minor == r.minor
    && At(mem, p.pathStart, r.path) && p.pathLen == |r.path|
    && (r.query.Some? ==> p.queryStart != 0 && At(mem, p.queryStart, r.query.value) && p.queryLen == |r.query.value|)
    && (r.query.None? ==> p.queryStart == 0)
    && |p.headers| == (if |r.headers| <= 64 then |r.headers| else 64)
    && (forall k :: 0 <= k < |p.headers| ==>
          p.headers[k].len == |Line(r.headers[k])| && At(mem, p.headers[k].start, Line(r.headers[k])))
    && At(mem, p.bodyStart, r.body) && p.bodyLen == |r.body|
  }

  lemma {:induction false} LinesAt(mem: Bytes, i: nat, hs: seq<Header>)
    requires At(mem, i, Lines(hs))
    ensures forall k :: 0 <= k < |hs| ==>
              LineSlices(i, hs)[k].len == |Line(hs[k])| && At(mem, LineSlices(i, hs)[k].start, Line(hs[k]))
    decreases |hs|
  {
    if hs != [] {
      AtSplit(mem, i, Line(hs[0]) + CRLF, Lines(hs[1..]));
      AtSplit(mem, i, Line(hs[0]), CRLF);
      hide At, Line;
      var m := i + |Line(hs[0])| + 2;
      LinesAt(mem, m, hs[1..]);
      forall k | 0 <= k < |hs|
        ensures LineSlices(i, hs)[k].len == |Line(hs[k])| && At(mem, LineSlices(i, hs)[k].start, Line(hs[k]))
      {
        if k > 0 {
          assert LineSlices(i, hs)[k] == LineSlices(m, hs[1..])[k - 1] && hs[k] == hs[1..][k - 1];
        }
      }
    }
  }

  /** The addresses at which the pieces of a printed request begin. */
  function TargetAt(data: nat, r: Request): nat {
    data + |r.verb| + 1
  }

  function VersionAt(data: nat, r: Request): nat {
    TargetAt(data, r) + |TargetPart(r)|
  }

  function LinesEnd(data: nat, r: Request): nat {
    VersionAt(data, r) + 10 + |Lines(r.headers)|
  }

  lemma Layout(mem: Bytes, data: nat, r: Request)
    requires r.major <= 9 && r.minor <= 9 && At(mem, data, Print(r))
    ensures At(mem, data, r.verb + [SP])
    ensures At(mem, TargetAt(data, r), TargetPart(r))
    ensures At(mem, VersionAt(data, r), VersionPart(r.major, r.minor))
    ensures At(mem, VersionAt(data, r) + 10, Lines(r.headers))
    ensures At(mem, LinesEnd(data, r), CRLF) && At(mem, LinesEnd(data, r) + 2, r.body)
    ensures LinesEnd(data, r) + 2 + |r.body| == data + |Print(r)|
  {
    hide At, Lines, TargetPart, VersionPart;
    var version := VersionPart(r.major, r.minor);
    AtSplit(mem, data, r.verb + [SP], TargetPart(r) + (version + (Lines(r.headers) + (CRLF + r.body))));
    AtSplit(mem, TargetAt(data, r), TargetPart(r), version + (Lines(r.headers) + (CRLF + r.body)));
    AtSplit(mem, VersionAt(data, r), version, Lines(r.headers) + (CRLF + r.body));
    AtSplit(mem, VersionAt(data, r) + 10, Lines(r.headers), CRLF + r.body);
    AtSplit(mem, LinesEnd(data, r), CRLF, r.body);
  }

  lemma TargetLayout(mem: Bytes, t: nat, r: Request)
    requires At(mem, t, TargetPart(r))
    ensures At(mem, t, r.path)
    ensures r.query.Some? ==> At(mem, t + |r.path| + 1, r.query.value)
  {
    AtSplit(mem, t, r.path + QueryPart(r.query), [SP]);
    AtSplit(mem, t, r.path, QueryPart(r.query));
    if r.query.Some? {
      AtSplit(mem, t + |r.path|, [QUESTION], r.query.value);
    }
  }

  /** The parser behind the request line. */
  function LineOne(data: nat, r: Request): Core {
    var p := INIT.(verb := VerbOf(r.verb), pathStart := TargetAt(data, r), pathLen := |r.path|,
                   major := r.major, minor := r.minor, state := HeaderStart);
    if r.query.Some? then
      p.(queryStart := TargetAt(data, r) + |r.path| + 1, queryLen := |r.query.value|)
    else p
  }

  lemma FeedLineOne(mem: Bytes, data: nat, r: Request, end: nat)
    requires ValidRequest(r) && |mem| < TWO_64
    requires At(mem, data, Print(r))
    ensures var h := VersionAt(data, r) + 10;
      h <= |mem| && Feed(INIT, mem, data, h, end) == Fed(LineOne(data, r), Fine, h)
  {
    hide Feed, Step, At, Print, VersionPart, ValidHeader;
    Layout(mem, data, r);
    Bounded(mem, data, Print(r));
    VerbIsToken(r.verb);
    FeedVerb(mem, data, r.verb, end);
    var t, v := TargetAt(data, r), VersionAt(data, r);
    var p1 := INIT.(verb := VerbOf(r.verb), pathStart := t, state := InPath);
    FeedTarget(p1, mem, t, r.path, r.query, end);
    var p2 := Feed(p1, mem, t, v, end).core;
    Join(INIT, mem, data, t, v, end, p1, p2);
    FeedVersion(p2, mem, v, r.major, r.minor, end);
    Join(INIT, mem, data, v, v + 10, end, p2, LineOne(data, r));
  }

  lemma FeedHeadersAndBody(p: Core, mem: Bytes, data: nat, r: Request)
    requires ValidRequest(r) && |mem| < TWO_64 && p == LineOne(data, r)
    requires At(mem, data, Print(r))
    ensures var h, end := VersionAt(data, r) + 10, data + |Print(r)|;
      var f := Feed(p, mem, h, end, end);
      && f == Fed(f.core, Fine, end)
      && f.core.state.Body? && SameTarget(p, f.core) && f.core.contentLength == 0
      && f.core.headers == Kept(LineSlices(h, r.headers))
      && f.core.bodyStart == LinesEnd(data, r) + 2 && f.core.bodyLen == |r.body|
  {
    hide Feed, Print, At, ValidHeader;
    Layout(mem, data, r);
    var h, b, end := VersionAt(data, r) + 10, LinesEnd(data, r), data + |Print(r)|;
    Bounded(mem, data, Print(r));
    FeedLines(p, mem, h, r.headers, end);
    var q := Feed(p, mem, h, b, end).core;
    FeedBody(q, mem, b, end);
    var z := Feed(q, mem, b, end, end).core;
    Join(p, mem, h, b, end, end, q, z);
    assert p.headers + LineSlices(h, r.headers) == LineSlices(h, r.headers);
  }

  /** Print then parse: every valid request, printed anywhere in memory, is
      recovered by one call, which reads the whole text and is then complete. */
  lemma PrintThenParse(mem: Bytes, data: nat, r: Request)
    requires ValidRequest(r) && 0 < data && |mem| < TWO_64
    requires At(mem, data, Print(r))
    ensures var (x, e) := Execute(Parser(INIT, 0, 0), mem, data, data + |Print(r)|);
      && e == Fine && Recovered(x.core, mem, r)
      && x.rawStart == data && x.rawLen == |Print(r)|
  {
    hide Feed, Step, At, Print, Lines, Line, ValidHeader, QueryPart, VersionPart, TargetPart, VerbOf;
    var h, end := VersionAt(data, r) + 10, data + |Print(r)|;
    Layout(mem, data, r);
    TargetLayout(mem, TargetAt(data, r), r);
    LinesAt(mem, h, r.headers);
    FeedLineOne(mem, data, r, end);
    FeedHeadersAndBody(LineOne(data, r), mem, data, r);
    Bounded(mem, data, Print(r));
    Join(INIT, mem, data, h, end, end, LineOne(data, r), Feed(LineOne(data, r), mem, h, end, end).core);
  }
}
