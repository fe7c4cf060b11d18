/** src/http_parser.c: the HTTP/1.1 request automaton. Pointers are addresses in
    one memory, with 0 for NULL; pointer differences wrap as size_t does. */
module HttpParsing {
  import opened CMachine

  const SP: Byte := 32
  const TAB: Byte := 9
  const CR: Byte := 13
  const LF: Byte := 10
  const QUESTION: Byte := 63
  const SLASH: Byte := 47
  const COLON: Byte := 58
  const DOT: Byte := 46
  const ZERO: Byte := 48
  const NINE: Byte := 57

  const MAX_HEADERS := 64

  datatype Method = GET | POST | PUT | DELETE | HEAD | OPTIONS | PATCH | UNKNOWN

  datatype State =
    | MethodStart | InMethod | SpaceBeforePath | InPath | InQuery | SpaceBeforeVersion
    | VersionH | VersionHT | VersionHTT | VersionHTTP | VersionMajor | VersionMinorStart | VersionMinor
    | CrlfAfterVersion | HeaderStart | HeaderName | SpaceBeforeValue | HeaderValue | HeaderCrlf
    | HeadersCompleteCrlf | Body | Complete

  datatype Error = Fine | Incomplete | InvalidMethod | Internal

  datatype Slice = Slice(start: nat, len: nat)

  datatype Core = Core(
    state: State,
    verb: Method,
    pathStart: nat, pathLen: nat,
    queryStart: nat, queryLen: nat,
    nameStart: nat, nameLen: nat,
    valueStart: nat, valueLen: nat,
    headers: seq<Slice>,
    contentLength: nat,
    major: nat, minor: nat,
    keepAlive: bool,
    bodyStart: nat, bodyLen: nat,
    typeStart: nat, typeLen: nat)

  /** The parser with its record of the raw input. */
  datatype Parser = Parser(core: Core, rawStart: nat, rawLen: nat)

  const INIT := Core(MethodStart, GET, 0, 0, 0, 0, 0, 0, 0, 0, [], 0, 1, 1, false, 0, 0, 0, 0)

  // --------------------------------------------------------- small helpers

  function Read(mem: Bytes, start: nat, len: nat): Bytes {
    if start + len <= |mem| then mem[start..start + len] else []
  }

  function Lower(c: Byte): Byte {
    if 65 <= c <= 90 then c + 32 else c
  }

  function LowerAll(s: Bytes): (t: Bytes)
    ensures |t| == |s|
    ensures forall i :: 0 <= i < |s| ==> t[i] == Lower(s[i])
  {
    seq(|s|, i requires 0 <= i < |s| => Lower(s[i]))
  }

  function ParseMethod(mem: Bytes, start: nat, len: nat): Method {
    if len == 3 && Read(mem, start, 3) == Ascii("GET") then GET
    else if len == 3 && Read(mem, start, 3) == Ascii("PUT") then PUT
    else if len == 4 && Read(mem, start, 4) == Ascii("POST") then POST
    else if len == 4 && Read(mem, start, 4) == Ascii("HEAD") then HEAD
    else if len == 5 && Read(mem, start, 5) == Ascii("PATCH") then PATCH
    else if len == 6 && Read(mem, start, 6) == Ascii("DELETE") then DELETE
    else if len == 6 && Read(mem, start, 7) == Ascii("OPTIONS") then OPTIONS
    else UNKNOWN
  }

  predicate IsHeaderChar(c: Byte) {
    c > 32 && c != 127
  }

  predicate IsDigit(c: Byte) {
    ZERO <= c <= NINE
  }

  predicate IsBlank(c: Byte) {
    c == SP || c == TAB
  }

  /** strtoull on decimal text: leading white space, a sign, digits, saturation. */
  function Decimal(s: Bytes): U64 {
    if s == [] then 0
    else if s[0] == SP || TAB <= s[0] <= CR then Decimal(s[1..])
    else if s[0] == 45 then (var d: int := Digits(s[1..], 0); Wrap64(-d))
    else if s[0] == 43 then Digits(s[1..], 0)
    else Digits(s, 0)
  }

  function Digits(s: Bytes, acc: U64): U64 {
    if s == [] || !IsDigit(s[0]) then acc
    else
      var next := acc * 10 + s[0] - ZERO;
      Digits(s[1..], if next >= TWO_64 then TWO_64 - 1 else next)
  }

  predicate Contains(s: Bytes, word: Bytes) {
    word <= s || (s != [] && Contains(s[1..], word))
  }

  // --------------------------------------------------- one byte of the loop

  function Push(headers: seq<Slice>, h: Slice): seq<Slice> {
    if |headers| < MAX_HEADERS then headers + [h] else headers
  }

  function Recognized(p: Core, line: Bytes, lineLen: nat, value: Bytes, valLen: nat): Core {
    if lineLen == 14 then
      var p1 := if line == Ascii("content-length") then p.(contentLength := Decimal(value)) else p;
      if line[..if |line| < 12 then |line| else 12] == Ascii("content-type")
      then p1.(typeStart := p.valueStart, typeLen := valLen) else p1
    else if lineLen == 10 && line == Ascii("connection") then
      p.(keepAlive := Contains(LowerAll(value), Ascii("keep-alive")))
    else p
  }

  /** The CR that ends a header value at address `i`. */
  function EndOfValue(p: Core, mem: Bytes, i: nat): Core {
    var lineLen := Wrap64(i - p.nameStart);
    var valLen := Wrap64(i - p.valueStart);
    var p1 := p.(valueLen := valLen, headers := Push(p.headers, Slice(p.nameStart, lineLen)));
    var value := Read(mem, p.valueStart, if valLen > 31 then 31 else valLen);
    Recognized(p1, LowerAll(Read(mem, p.nameStart, lineLen)), lineLen, value, valLen).(state := HeaderCrlf)
  }

  /** States of the method, the path and the query. */
  function TargetStep(p: Core, mem: Bytes, i: nat, c: Byte): (Core, Error) {
    match p.state
    case MethodStart =>
      if c == SP || c == CR || c == LF then (p, InvalidMethod)
      else (p.(pathStart := i, state := InMethod), Fine)
    case SpaceBeforePath =>
      (if c == SLASH then p.(pathStart := i, pathLen := 0, state := InPath) else p, Fine)
    case InMethod =>
      if c == SP then
        var m := ParseMethod(mem, p.pathStart, Wrap64(i - p.pathStart));
        if m == UNKNOWN then (p.(verb := m), InvalidMethod)
        else (p.(verb := m, pathStart := i + 1, state := InPath), Fine)
      else (p, Fine)
    case InPath =>
      if c == QUESTION then
        (p.(pathLen := Wrap64(i - p.pathStart), queryStart := i + 1, state := InQuery), Fine)
      else if c == SP then
        (p.(pathLen := Wrap64(i - p.pathStart), state := SpaceBeforeVersion), Fine)
      else (p, Fine)
    case InQuery =>
      (if c == SP then p.(queryLen := Wrap64(i - p.queryStart), state := SpaceBeforeVersion) else p, Fine)
    case _ => (p, Fine)
  }

  /** States of the version. */
  function VersionStep(p: Core, c: Byte): Core {
    match p.state
    case SpaceBeforeVersion => if c == 72 then p.(state := VersionH) else p
    case VersionH => p.(state := if c == 84 then VersionHT else SpaceBeforeVersion)
    case VersionHT => p.(state := if c == 84 then VersionHTT else SpaceBeforeVersion)
    case VersionHTT => p.(state := if c == 80 then VersionHTTP else SpaceBeforeVersion)
    case VersionHTTP => p.(state := if c == SLASH then VersionMajor else SpaceBeforeVersion)
    case VersionMajor => if IsDigit(c) then p.(major := c - ZERO, state := VersionMinorStart) else p
    case VersionMinorStart => if c == DOT then p.(state := VersionMinor) else p
    case VersionMinor =>
      if IsDigit(c) then p.(minor := c - ZERO)
      else if c == CR then p.(state := CrlfAfterVersion) else p
    case CrlfAfterVersion => if c == LF then p.(state := HeaderStart) else p
    case _ => p
  }

  /** States of the header lines and of the body; `end` is the address behind
      the buffer of the current call. */
  function HeaderStep(p: Core, mem: Bytes, i: nat, c: Byte, end: nat): (Core, Error) {
    match p.state
    case HeaderStart =>
      if c == CR then (p.(state := HeadersCompleteCrlf), Fine)
      else if c == LF then (p.(state := Body), Fine)
      else if IsHeaderChar(c) then (p.(nameStart := i, nameLen := 1, state := HeaderName), Fine)
      else (p, Fine)
    case HeaderName =>
      if c == COLON then (p.(valueStart := i + 1, valueLen := 0, state := SpaceBeforeValue), Fine)
      else if IsHeaderChar(c) then (p.(nameLen := p.nameLen + 1), Fine)
      else (p, Incomplete)
    case SpaceBeforeValue =>
      if IsBlank(c) then (p, Fine) else (p.(valueStart := i, valueLen := 1, state := HeaderValue), Fine)
    case HeaderValue => if c == CR then (EndOfValue(p, mem, i), Fine) else (p, Fine)
    case HeaderCrlf => (if c == LF then p.(state := HeaderStart) else p, Fine)
    case HeadersCompleteCrlf =>
      (if c == LF then p.(bodyStart := i + 1, bodyLen := Wrap64(end - (i + 1)), state := Body) else p, Fine)
    case Body => (p.(bodyLen := Wrap64(end - p.bodyStart)), Fine)
    case _ => (p, Fine)
  }

  predicate IsTargetState(s: State) {
    s.MethodStart? || s.InMethod? || s.SpaceBeforePath? || s.InPath? || s.InQuery?
  }

  predicate IsVersionState(s: State) {
    || s.SpaceBeforeVersion? || s.VersionH? || s.VersionHT? || s.VersionHTT? || s.VersionHTTP?
    || s.VersionMajor? || s.VersionMinorStart? || s.VersionMinor? || s.CrlfAfterVersion?
  }

  function Step(p: Core, mem: Bytes, i: nat, end: nat): (Core, Error)
    requires i < |mem|
  {
    if IsTargetState(p.state) then TargetStep(p, mem, i, mem[i])
    else if IsVersionState(p.state) then (VersionStep(p, mem[i]), Fine)
    else HeaderStep(p, mem, i, mem[i], end)
  }

  // ---------------------------------------------------------- whole buffers

  /** What a run over part of a buffer leaves: the parser, the error that stopped
      it if any, and the address behind the last byte read. */
  datatype Fed = Fed(core: Core, error: Error, stop: nat)

  /** The bytes from `i` up to `to` of a buffer that ends at `end`. */
  function Feed(p: Core, mem: Bytes, i: nat, stop: nat, end: nat): (f: Fed)
    requires stop <= |mem|
    ensures i <= f.stop && (i <= stop ==> f.stop <= stop)
    decreases if i < stop then stop - i else 0
  {
    if i >= stop then Fed(p, Fine, i)
    else
      var (p', e) := Step(p, mem, i, end);
      if e != Fine then Fed(p', e, i + 1) else Feed(p', mem, i + 1, stop, end)
  }

  function Finished(p: Core): Core {
    if !p.state.Body? then p
    else if p.contentLength > 0 && p.bodyLen >= p.contentLength then
      p.(bodyLen := p.contentLength, state := Complete)
    else if p.contentLength == 0 then p.(state := Complete)
    else p
  }

  /** http_parser_execute on the buffer from `data` to `end`. */
  function Execute(x: Parser, mem: Bytes, data: nat, end: nat): (Parser, Error)
    requires data <= end <= |mem|
  {
    if data == 0 then (x, Internal)
    else if x.core.state.Complete? then (x, Fine)
    else
      var x1 := if x.rawStart == 0 then x.(rawStart := data, rawLen := 0) else x;
      var f := Feed(x.core, mem, data, end, end);
      var x2 := x1.(core := if f.error.Fine? then Finished(f.core) else f.core, rawLen := x1.rawLen + (f.stop - data));
      (x2, f.error)
  }

  // ------------------------------------------------------ the mutable parser

  class HTTPParser {
    var state: State
    var verb: Method
    var pathStart: nat
    var pathLen: nat
    var queryStart: nat
    var queryLen: nat
    var nameStart: nat
    var nameLen: nat
    var valueStart: nat
    var valueLen: nat
    var headerCount: nat
    const headerPtrs: array<nat>
    const headerLens: array<nat>
    var contentLength: nat
    var major: nat
    var minor: nat
    var keepAlive: bool
    var bodyStart: nat
    var bodyLen: nat
    var typeStart: nat
    var typeLen: nat
    var rawStart: nat
    var rawLen: nat

    ghost var Headers: seq<Slice>  // the filled part of the two arrays

    ghost predicate Valid()
      reads this, headerPtrs, headerLens
    {
      && headerPtrs.Length == headerLens.Length == MAX_HEADERS
      && headerPtrs != headerLens
      && headerCount == |Headers| <= MAX_HEADERS
      && forall k :: 0 <= k < headerCount ==> Headers[k] == Slice(headerPtrs[k], headerLens[k])
    }

    ghost function View(): Core
      reads this
    {
      Core(state, verb, pathStart, pathLen, queryStart, queryLen, nameStart, nameLen, valueStart, valueLen,
           Headers, contentLength, major, minor, keepAlive, bodyStart, bodyLen, typeStart, typeLen)
    }

    constructor ()
      ensures Valid() && fresh(headerPtrs) && fresh(headerLens)
      ensures View() == INIT && rawStart == 0 && rawLen == 0
    {
      state, verb := MethodStart, GET;
      pathStart, pathLen, queryStart, queryLen := 0, 0, 0, 0;
      nameStart, nameLen, valueStart, valueLen := 0, 0, 0, 0;
      headerCount, contentLength, major, minor, keepAlive := 0, 0, 1, 1, false;
      bodyStart, bodyLen, typeStart, typeLen, rawStart, rawLen := 0, 0, 0, 0, 0, 0;
      Headers := [];
      headerPtrs := new nat[MAX_HEADERS](_ => 0);
      headerLens := new nat[MAX_HEADERS](_ => 0);
    }

    method TargetByte(mem: Bytes, i: nat, c: Byte) returns (e: Error)
      requires Valid() && IsTargetState(state)
      modifies `state, `verb, `pathStart, `pathLen, `queryStart, `queryLen
      ensures Valid() && (View(), e) == TargetStep(old(View()), mem, i, c)
    {
      hide ParseMethod, Wrap64;
      e := Fine;
      match state {
        case MethodStart =>
          if c == SP || c == CR || c == LF { return InvalidMethod; }
          pathStart := i;
          state := InMethod;
        case SpaceBeforePath =>
          if c == SLASH {
            pathStart := i;
            pathLen := 0;
            state := InPath;
          }
        case InMethod =>
          if c == SP {
            verb := ParseMethod(mem, pathStart, Wrap64(i - pathStart));
            if verb == UNKNOWN { return InvalidMethod; }
            pathStart := i + 1;
            state := InPath;
          }
        case InPath =>
          if c == QUESTION {
            pathLen := Wrap64(i - pathStart);
            queryStart := i + 1;
            state := InQuery;
          } else if c == SP {
            pathLen := Wrap64(i - pathStart);
            state := SpaceBeforeVersion;
          }
        case InQuery =>
          if c == SP {
            queryLen := Wrap64(i - queryStart);
            state := SpaceBeforeVersion;
          }
        case _ =>
      }
    }

    method VersionByte(c: Byte)
      requires Valid() && IsVersionState(state)
      modifies `state, `major, `minor
      ensures Valid() && View() == VersionStep(old(View()), c)
    {
      match state {
        case SpaceBeforeVersion => if c == 72 { state := VersionH; }
        case VersionH => state := if c == 84 then VersionHT else SpaceBeforeVersion;
        case VersionHT => state := if c == 84 then VersionHTT else SpaceBeforeVersion;
        case VersionHTT => state := if c == 80 then VersionHTTP else SpaceBeforeVersion;
        case VersionHTTP => state := if c == SLASH then VersionMajor else SpaceBeforeVersion;
        case VersionMajor => if IsDigit(c) { major := c - ZERO; state := VersionMinorStart; }
        case VersionMinorStart => if c == DOT { state := VersionMinor; }
        case VersionMinor =>
          if IsDigit(c) {
            minor := c - ZERO;
          } else if c == CR {
            state := CrlfAfterVersion;
          }
        case CrlfAfterVersion => state := if c == LF then HeaderStart else CrlfAfterVersion;
        case _ =>
      }
    }

    /** Keeps the line while there is room for it. */
    method RecordHeader(start: nat, len: nat)
      requires Valid()
      modifies `headerCount, `Headers, headerPtrs, headerLens
      ensures Valid() && View() == old(View()).(headers := Push(old(Headers), Slice(start, len)))
    {
      if headerCount < MAX_HEADERS {
        headerPtrs[headerCount] := start;
        headerLens[headerCount] := len;
        headerCount := headerCount + 1;
        Headers := Headers + [Slice(start, len)];
      }
    }

    /** Looks for a header this server uses, by the length of the whole line. */
    method Recognize(line: Bytes, lineLen: nat, value: Bytes, valLen: nat)
      requires Valid()
      modifies `contentLength, `typeStart, `typeLen, `keepAlive
      ensures Valid() && View() == Recognized(old(View()), line, lineLen, value, valLen)
    {
      hide Ascii, LowerAll, Contains, Decimal, IsTargetState, IsVersionState;
      if lineLen == 14 {
        if line == Ascii("content-length") {
          contentLength := Decimal(value);
        }
        if line[..if |line| < 12 then |line| else 12] == Ascii("content-type") {
          typeStart := valueStart;
          typeLen := valLen;
        }
      }
      if lineLen == 10 {
        if line == Ascii("connection") {
          keepAlive := Contains(LowerAll(value), Ascii("keep-alive"));
        }
      }
    }

    method FinishValue(mem: Bytes, i: nat)
      requires Valid()
      modifies `state, `valueLen, `headerCount, `Headers, `contentLength, `typeStart, `typeLen, `keepAlive,
               headerPtrs, headerLens
      ensures Valid() && View() == EndOfValue(old(View()), mem, i)
    {
      hide Recognized, Push, Read, LowerAll, Wrap64;
      var lineLen := Wrap64(i - nameStart);
      var valLen := Wrap64(i - valueStart);
      valueLen := valLen;
      RecordHeader(nameStart, lineLen);
      var line := LowerAll(Read(mem, nameStart, lineLen));
      var value := Read(mem, valueStart, if valLen > 31 then 31 else valLen);
      Recognize(line, lineLen, value, valLen);
      state := HeaderCrlf;
    }

    /** The byte a header line or the blank line begins with. */
    method StartByte(mem: Bytes, i: nat, c: Byte, end: nat)
      requires Valid() && state.HeaderStart?
      modifies `state, `nameStart, `nameLen
      ensures Valid() && (View(), Fine) == HeaderStep(old(View()), mem, i, c, end)
    {
      if c == CR {
        state := HeadersCompleteCrlf;
      } else if c == LF {
        state := Body;
      } else if IsHeaderChar(c) {
        nameStart := i;
        nameLen := 1;
        state := HeaderName;
      }
    }

    /** A byte of a header's name, or its colon. */
    method NameByte(mem: Bytes, i: nat, c: Byte, end: nat) returns (e: Error)
      requires Valid() && state.HeaderName?
      modifies `state, `nameLen, `valueStart, `valueLen
      ensures Valid() && (View(), e) == HeaderStep(old(View()), mem, i, c, end)
    {
      e := Fine;
      if c == COLON {
        valueStart := i + 1;
        valueLen := 0;
        state := SpaceBeforeValue;
      } else if IsHeaderChar(c) {
        nameLen := nameLen + 1;
      } else {
        e := Incomplete;
      }
    }

    /** A blank in front of a value, or the value's first byte, whatever it is. */
    method ValueByte(mem: Bytes, i: nat, c: Byte, end: nat)
      requires Valid() && state.SpaceBeforeValue?
      modifies `state, `valueStart, `valueLen
      ensures Valid() && (View(), Fine) == HeaderStep(old(View()), mem, i, c, end)
    {
      if c == SP || c == TAB { return; }
      valueStart := i;
      valueLen := 1;
      state := HeaderValue;
    }

    /** A byte behind the CR of the blank line. */
    method BlankLineByte(mem: Bytes, i: nat, c: Byte, end: nat)
      requires Valid() && state.HeadersCompleteCrlf?
      modifies `state, `bodyStart, `bodyLen
      ensures Valid() && (View(), Fine) == HeaderStep(old(View()), mem, i, c, end)
    {
      hide Wrap64;
      if c == LF {
        bodyStart := i + 1;
        bodyLen := Wrap64(end - (i + 1));
        state := Body;
      }
    }

    /** A byte behind the CR of a header value, or of the body. */
    method RestByte(mem: Bytes, i: nat, c: Byte, end: nat)
      requires Valid() && (state.HeaderCrlf? || state.Body? || state.Complete?)
      modifies `state, `bodyLen
      ensures Valid() && (View(), Fine) == HeaderStep(old(View()), mem, i, c, end)
    {
      hide Wrap64;
      match state {
        case HeaderCrlf =>
          if c == LF { state := HeaderStart; }
        case Body =>
          bodyLen := Wrap64(end - bodyStart);
        case Complete =>
      }
    }

    method HeaderByte(mem: Bytes, i: nat, c: Byte, end: nat) returns (e: Error)
      requires Valid() && !IsTargetState(state) && !IsVersionState(state)
      modifies this, headerPtrs, headerLens
      ensures Valid() && (View(), e) == HeaderStep(old(View()), mem, i, c, end)
      ensures rawStart == old(rawStart) && rawLen == old(rawLen)
    {
      e := Fine;
      if state == HeaderValue {
        hide EndOfValue;
        if c == CR { FinishValue(mem, i); }
      } else {
        hide HeaderStep;
        if state == HeaderStart {
          StartByte(mem, i, c, end);
        } else if state == HeaderName {
          e := NameByte(mem, i, c, end);
        } else if state == SpaceBeforeValue {
          ValueByte(mem, i, c, end);
        } else if state == HeadersCompleteCrlf {
          BlankLineByte(mem, i, c, end);
        } else {
          RestByte(mem, i, c, end);
        }
      }
    }

    method ExecuteByte(mem: Bytes, i: nat, end: nat) returns (e: Error)
      requires Valid() && i < |mem|
      modifies this, headerPtrs, headerLens
      ensures Valid() && (View(), e) == Step(old(View()), mem, i, end)
      ensures rawStart == old(rawStart) && rawLen == old(rawLen)
    {
      hide TargetStep, VersionStep, HeaderStep;
      e := Fine;
      if IsTargetState(state) {
        e := TargetByte(mem, i, mem[i]);
      } else if IsVersionState(state) {
        VersionByte(mem[i]);
      } else {
        e := HeaderByte(mem, i, mem[i], end);
      }
    }

    method FinishBody()
      requires Valid()
      modifies `bodyLen, `state
      ensures Valid() && View() == Finished(old(View()))
    {
      if state == Body {
        if contentLength > 0 && bodyLen >= contentLength {
          bodyLen := contentLength;
          state := Complete;
        } else if contentLength == 0 {
          state := Complete;
        }
      }
    }

    method ExecuteBuffer(mem: Bytes, data: nat, len: nat) returns (e: Error)
      requires Valid() && data + len <= |mem|
      modifies this, headerPtrs, headerLens
      ensures Valid()
      ensures (Parser(View(), rawStart, rawLen), e)
           == Execute(old(Parser(View(), rawStart, rawLen)), mem, data, data + len)
    {
      hide Step, Finished;
      if data == 0 { return Internal; }
      if state == Complete { return Fine; }
      if rawStart == 0 {
        rawStart := data;
        rawLen := 0;
      }
      ghost var startLen, whole := rawLen, Feed(View(), mem, data, data + len, data + len);
      var i := 0;
      while i < len
        invariant Valid() && 0 <= i <= len
        invariant rawStart == (if old(rawStart) == 0 then data else old(rawStart))
        invariant rawLen == startLen + i
        invariant whole == Feed(View(), mem, data + i, data + len, data + len)
      {
        rawLen := rawLen + 1;
        e := ExecuteByte(mem, data + i, data + len);
        if e != Fine { return; }
        i := i + 1;
      }
      FinishBody();
      e := Fine;
    }

    method Finish() returns (e: Error)
      requires Valid()
      modifies `state
      ensures Valid() && View() == old(View()).(state := state)
      ensures e == Fine <==> state == Complete
      ensures state == Complete <==> old(state) in {Body, HeaderStart, HeadersCompleteCrlf, Complete}
      ensures state != Complete ==> state == old(state) && e == Incomplete
    {
      if state == Body || state == HeaderStart || state == HeadersCompleteCrlf {
        state := Complete;
        return Fine;
      }
      return if state == Complete then Fine else Incomplete;
    }
  }
}
