/** src/ai/prompt_router.c (json_escape) and src/parser.c (parse_json): escaping a
    text for JSON, and the cursor loop that takes a prompt out of a JSON object. */
module JsonText {
  import opened CMachine

  const QUOTE: Byte := 34
  const BACKSLASH: Byte := 92
  const NL: Byte := 10
  const CR: Byte := 13
  const TAB: Byte := 9
  const BS: Byte := 8
  const FF: Byte := 12
  const LOWER_B: Byte := 98
  const LOWER_F: Byte := 102
  const LOWER_N: Byte := 110
  const LOWER_R: Byte := 114
  const LOWER_T: Byte := 116
  const LOWER_U: Byte := 117
  const SLASH: Byte := 47
  const COLON: Byte := 58
  const SP: Byte := 32

  // ----------------------------------------------------------- escaping

  function HexDigit(d: nat): Byte
    requires d < 16
  {
    if d < 10 then 48 + d else 87 + d
  }

  function EscapeByte(c: Byte): (e: Bytes)
    ensures 1 <= |e| <= 6
  {
    if c == QUOTE then [BACKSLASH, QUOTE]
    else if c == BACKSLASH then [BACKSLASH, BACKSLASH]
    else if c == NL then [BACKSLASH, LOWER_N]
    else if c == CR then [BACKSLASH, LOWER_R]
    else if c == TAB then [BACKSLASH, LOWER_T]
    else if c == BS then [BACKSLASH, LOWER_B]
    else if c == FF then [BACKSLASH, LOWER_F]
    else if c < 32 then [BACKSLASH, LOWER_U, 48, 48, HexDigit(c / 16), HexDigit(c % 16)]
    else [c]
  }

  function Escape(s: Bytes): Bytes {
    if s == [] then [] else EscapeByte(s[0]) + Escape(s[1..])
  }

  lemma {:induction false} EscapeAppend(s: Bytes, c: Byte)
    ensures Escape(s + [c]) == Escape(s) + EscapeByte(c)
  {
    hide EscapeByte;
    if s == [] {
      assert s + [c] == [c] && [c][1..] == [];
    } else {
      assert (s + [c])[1..] == s[1..] + [c];
      EscapeAppend(s[1..], c);
    }
  }

  /** realloc: a larger buffer with the old contents. */
  method Grow(old_: array<Byte>, size: nat) returns (bigger: array<Byte>)
    requires old_.Length <= size
    ensures fresh(bigger) && bigger.Length == size
    ensures bigger[..old_.Length] == old_[..]
  {
    bigger := new Byte[size](i reads old_ => if 0 <= i < old_.Length then old_[i] else 0);
  }

  /** Writes a short piece behind the first `j` bytes. */
  method Put(out: array<Byte>, j: nat, piece: Bytes)
    requires j + |piece| <= out.Length
    modifies out
    ensures out[..j + |piece|] == old(out[..j]) + piece
  {
    var k := 0;
    while k < |piece|
      invariant 0 <= k <= |piece|
      invariant out[..j + k] == old(out[..j]) + piece[..k]
    {
      out[j + k] := piece[k];
      k := k + 1;
    }
  }

  /** Escapes the text into a buffer that doubles when fewer than nine bytes are
      free; the text is followed by a NUL, which is also within the buffer. */
  method JsonEscape(text: Bytes) returns (out: array<Byte>, j: nat)
    ensures fresh(out) && j < out.Length
    ensures out[..j] == Escape(text) && out[j] == 0
  {
    hide EscapeByte;
    var cap := |text| * 2 + 8;
    out := new Byte[cap](_ => 0);
    j := 0;
    var i := 0;
    while i < |text|
      invariant 0 <= i <= |text| && fresh(out)
      invariant out.Length == cap >= |text| * 2 + 8 && j + 3 <= cap
      invariant out[..j] == Escape(text[..i])
    {
      var c := text[i];
      if j + 8 >= cap {
        cap := cap * 2;
        out := Grow(out, cap);
      }
      assert text[..i + 1] == text[..i] + [c];
      EscapeAppend(text[..i], c);
      Put(out, j, EscapeByte(c));
      j := j + |EscapeByte(c)|;
      i := i + 1;
    }
    assert text[..i] == text;
    out[j] := 0;
  }

  // ------------------------------------------------------------- parsing

  const PROMPT_KEY: Bytes := [QUOTE, 112, 114, 111, 109, 112, 116, QUOTE]

  /** memchr for a quote. */
  function FindQuote(json: Bytes, p: nat): (q: nat)
    requires p <= |json|
    ensures p <= q <= |json|
    ensures q < |json| ==> json[q] == QUOTE
    decreases |json| - p
  {
    if p == |json| || json[p] == QUOTE then p else FindQuote(json, p + 1)
  }

  predicate IsSeparator(c: Byte) {
    c == SP || c == TAB || c == COLON
  }

  function SkipSeparators(json: Bytes, p: nat): (q: nat)
    requires p <= |json|
    ensures p <= q <= |json|
    decreases |json| - p
  {
    if p < |json| && IsSeparator(json[p]) then SkipSeparators(json, p + 1) else p
  }

  /** Where the text of the first string-valued "prompt" begins. */
  function PromptStart(json: Bytes, p: nat): (start: Option<nat>)
    requires p <= |json|
    ensures start.Some? ==> start.value <= |json|
    decreases |json| - p
  {
    if p == |json| then None
    else
      var q := FindQuote(json, p);
      if q == |json| || |json| - q < 8 then None
      else if json[q..q + 8] == PROMPT_KEY then
        var r := SkipSeparators(json, q + 8);
        if r < |json| && json[r] == QUOTE then Some(r + 1) else PromptStart(json, r)
      else PromptStart(json, q + 1)
  }

  /** The byte an escape letter stands for, as far as parse_json knows it. */
  function Unescaped(c: Byte): Option<Byte> {
    if c == LOWER_N then Some(NL)
    else if c == LOWER_T then Some(TAB)
    else if c == LOWER_R then Some(CR)
    else if c == BACKSLASH then Some(BACKSLASH)
    else if c == QUOTE then Some(QUOTE)
    else None
  }

  function Prepend(c: Byte, rest: Option<Bytes>): Option<Bytes> {
    if rest.Some? then Some([c] + rest.value) else None
  }

  /** The text from `p` on, cut off after `room` bytes; None on a bad escape. */
  function Text(json: Bytes, p: nat, room: nat): (t: Option<Bytes>)
    requires p <= |json|
    ensures t.Some? ==> |t.value| <= room
    decreases |json| - p
  {
    if p == |json| || json[p] == QUOTE || room == 0 then Some([])
    else if json[p] != BACKSLASH then Prepend(json[p], Text(json, p + 1, room - 1))
    else if p + 1 == |json| then Some([])
    else
      var c := Unescaped(json[p + 1]);
      if c.None? then None else Prepend(c.value, Text(json, p + 2, room - 1))
  }

  lemma FirstText(json: Bytes, p: nat, room: nat)
    requires p < |json| && json[p] != QUOTE && room > 0
    ensures json[p] != BACKSLASH ==> Text(json, p, room) == Prepend(json[p], Text(json, p + 1, room - 1))
    ensures json[p] == BACKSLASH && p + 1 < |json| ==>
      Text(json, p, room) ==
        if Unescaped(json[p + 1]).Some?
        then Prepend(Unescaped(json[p + 1]).value, Text(json, p + 2, room - 1))
        else None
  {
    hide Unescaped;
  }

  /** With `front` read, `rest` is what remains of the whole text. */
  predicate Continues(whole: Option<Bytes>, front: Bytes, rest: Option<Bytes>) {
    (whole.Some? <==> rest.Some?) && (rest.Some? ==> whole.value == front + rest.value)
  }

  lemma NothingRead(whole: Option<Bytes>)
    ensures Continues(whole, [], whole)
  {
  }

  lemma NoText(whole: Option<Bytes>, front: Bytes)
    ensures Continues(whole, front, None) ==> whole.None?
  {
  }

  lemma AllText(whole: Option<Bytes>, front: Bytes)
    ensures Continues(whole, front, Some([])) ==> whole == Some(front)
  {
    assert front + [] == front;
  }

  lemma TextStops(json: Bytes, p: nat, room: nat)
    requires p <= |json|
    ensures p == |json| || json[p] == QUOTE || room == 0 || (json[p] == BACKSLASH && p + 1 == |json|) ==>
      Text(json, p, room) == Some([])
  {
  }

  lemma Continued(whole: Option<Bytes>, front: Bytes, c: Byte, rest: Option<Bytes>)
    requires Continues(whole, front, Prepend(c, rest))
    ensures Continues(whole, front + [c], rest)
  {
  }

  function Parsed(json: Bytes, size: nat): Option<Bytes> {
    if size == 0 then None
    else
      var start := PromptStart(json, 0);
      if start.None? then None else Text(json, start.value, size - 1)
  }

  /** The unescaping loop of parse_json. */
  method ReadText(json: Bytes, start: nat, output: array<Byte>, size: nat) returns (ok: bool, i: nat)
    requires start <= |json| && 0 < size <= output.Length
    modifies output
    ensures ok <==> Text(json, start, size - 1).Some?
    ensures ok ==> i < size && output[..i] == Text(json, start, size - 1).value && output[i] == 0
    ensures output[size..] == old(output[size..])
  {
    hide Unescaped, Text, Continues, Prepend;
    ghost var whole := Text(json, start, size - 1);
    NothingRead(whole);
    var p := start;
    i := 0;
    while p < |json| && json[p] != QUOTE && i < size - 1
      invariant start <= p <= |json| && 0 <= i <= size - 1
      invariant Continues(whole, output[..i], Text(json, p, size - 1 - i))
      invariant output[size..] == old(output[size..])
      decreases |json| - p
    {
      ghost var before := output[..i];
      FirstText(json, p, size - 1 - i);
      TextStops(json, p, size - 1 - i);
      if json[p] == BACKSLASH {
        p := p + 1;
        if p >= |json| { break; }
        var c := Unescaped(json[p]);
        if c.None? {
          NoText(whole, before);
          return false, i;
        }
        output[i] := c.value;
      } else {
        output[i] := json[p];
      }
      i := i + 1;
      p := p + 1;
      Continued(whole, before, output[i - 1], Text(json, p, size - 1 - i));
      assert output[..i] == before + [output[i - 1]];
    }
    TextStops(json, p, size - 1 - i);
    AllText(whole, output[..i]);
    output[i] := 0;
    ok := true;
  }

  /** parse_json: -1 without touching anything behind `size`, or 0 with the text
      and its NUL in the output. */
  method ParseJson(json: Bytes, output: array<Byte>, size: nat) returns (result: int, n: nat)
    requires size <= output.Length
    modifies output
    ensures result == (if Parsed(json, size).Some? then 0 else -1)
    ensures result == 0 ==> n < size && output[..n] == Parsed(json, size).value && output[n] == 0
    ensures output[size..] == old(output[size..])
  {
    n := 0;
    if size == 0 || |json| == 0 { return -1, 0; }
    var p := 0;
    while p < |json|
      invariant 0 <= p <= |json|
      invariant PromptStart(json, 0) == PromptStart(json, p)
      invariant output[..] == old(output[..])
    {
      p := FindQuote(json, p);
      if p == |json| { return -1, 0; }
      if |json| - p < 8 { return -1, 0; }
      if json[p..p + 8] == PROMPT_KEY {
        p := SkipSeparators(json, p + 8);
        if p < |json| && json[p] == QUOTE {
          var ok;
          ok, n := ReadText(json, p + 1, output, size);
          return if ok then 0 else -1, n;
        }
      } else {
        p := p + 1;
      }
    }
    return -1, 0;
  }
}
