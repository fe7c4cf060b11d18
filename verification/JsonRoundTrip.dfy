/** What a text is after json_escape and parse_json, measured against the string
    grammar of section 7 of RFC 8259. */
module JsonRoundTrip {
  import opened CMachine
  import opened JsonText
  import opened StringReplacing

  // ---------------------------------------------- the string grammar of JSON

  function HexValue(c: Byte): Option<nat> {
    if 48 <= c <= 57 then Some(c - 48)
    else if 65 <= c <= 70 then Some(c - 55)
    else if 97 <= c <= 102 then Some(c - 87)
    else None
  }

  /** Four hexadecimal digits, most significant first. */
  function CodeUnit(t: Bytes): Option<nat>
    requires |t| == 4
  {
    var a, b, c, d := HexValue(t[0]), HexValue(t[1]), HexValue(t[2]), HexValue(t[3]);
    if a.Some? && b.Some? && c.Some? && d.Some?
    then Some(((a.value * 16 + b.value) * 16 + c.value) * 16 + d.value)
    else None
  }

  function ShortEscape(c: Byte): Option<nat> {
    if c == QUOTE || c == BACKSLASH || c == SLASH then Some(c)
    else if c == LOWER_B then Some(BS)
    else if c == LOWER_F then Some(FF)
    else if c == LOWER_N then Some(NL)
    else if c == LOWER_R then Some(CR)
    else if c == LOWER_T then Some(TAB)
    else None
  }

  function Cons(c: nat, rest: Option<seq<nat>>): Option<seq<nat>> {
    if rest.Some? then Some([c] + rest.value) else None
  }

  /** The units that the characters between two quotes stand for: a byte for
      itself, an escape for its character. None if the text is no JSON string. */
  function Units(t: Bytes): Option<seq<nat>>
    decreases |t|
  {
    if t == [] then Some([])
    else if t[0] == QUOTE || t[0] < 32 then None
    else if t[0] != BACKSLASH then Cons(t[0], Units(t[1..]))
    else if |t| < 2 then None
    else if t[1] == LOWER_U then
      if |t| < 6 then None
      else
        var u := CodeUnit(t[2..6]);
        if u.None? then None else Cons(u.value, Units(t[6..]))
    else
      var c := ShortEscape(t[1]);
      if c.None? then None else Cons(c.value, Units(t[2..]))
  }

  /** n, t, r, a backslash or a quote. */
  predicate IsBasicLetter(c: Byte) {
    c == 110 || c == 116 || c == 114 || c == 92 || c == 34
  }

  /** Only the five escapes that parse_json knows. */
  predicate Basic(t: Bytes)
    decreases |t|
  {
    t != [] ==>
      if t[0] != BACKSLASH then Basic(t[1..])
      else |t| >= 2 && IsBasicLetter(t[1]) && Basic(t[2..])
  }

  // ------------------------------------------------------ escaping is right

  lemma HexDigits(c: Byte)
    requires c < 32
    ensures CodeUnit([48, 48, HexDigit(c / 16), HexDigit(c % 16)]) == Some(c)
  {
  }

  lemma UnitsOfEscapedByte(c: Byte, rest: Bytes)
    ensures Units(EscapeByte(c) + rest) == Cons(c, Units(rest))
  {
    var e := EscapeByte(c);
    var t := e + rest;
    assert t[|e|..] == rest;
    if |e| == 6 {
      HexDigits(c);
      assert t[2..6] == e[2..6] == [48, 48, HexDigit(c / 16), HexDigit(c % 16)];
    }
  }

  /** The escaped text is a JSON string, and it stands for the text. */
  lemma {:induction false} UnitsOfEscape(s: Bytes)
    ensures Units(Escape(s)) == Some(s)
  {
    if s != [] {
      UnitsOfEscapedByte(s[0], Escape(s[1..]));
      UnitsOfEscape(s[1..]);
      assert s == [s[0]] + s[1..];
    }
  }

  /** No JSON string for a text is shorter than its escape. */
  lemma {:induction false} EscapeShortest(s: Bytes, t: Bytes)
    requires Units(t) == Some(s)
    ensures |t| >= |Escape(s)|
    decreases |t|
  {
    hide CodeUnit;
    if t != [] {
      var k := if t[0] != BACKSLASH then 1 else if t[1] == LOWER_U then 6 else 2;
      assert Units(t[k..]).Some? && s[1..] == Units(t[k..]).value;
      EscapeShortest(s[1..], t[k..]);
    }
  }

  /** A byte whose escape parse_json understands. */
  predicate Plain(c: Byte) {
    c >= 32 || c == NL || c == CR || c == TAB
  }

  ghost predicate AllPlain(s: Bytes) {
    forall k :: 0 <= k < |s| ==> Plain(s[k])
  }

  lemma BasicOfEscapedByte(c: Byte, rest: Bytes)
    ensures Basic(EscapeByte(c) + rest) <==> Plain(c) && Basic(rest)
  {
    var e := EscapeByte(c);
    assert (e + rest)[|e|..] == rest;
  }

  lemma {:induction false} BasicEscape(s: Bytes)
    ensures Basic(Escape(s)) <==> AllPlain(s)
  {
    if s != [] {
      hide Basic, EscapeByte, Plain;
      BasicOfEscapedByte(s[0], Escape(s[1..]));
      BasicEscape(s[1..]);
      assert s == [s[0]] + s[1..];
    }
  }

  // ------------------------------------------------------- parsing is right

  /** The bytes `t` stand in `json` at `p`, followed by a quote or by nothing. */
  ghost predicate Quoted(json: Bytes, p: nat, t: Bytes) {
    p + |t| <= |json| && json[p..p + |t|] == t && (p + |t| < |json| ==> json[p + |t|] == QUOTE)
  }

  lemma QuotedRest(json: Bytes, p: nat, t: Bytes, k: nat)
    requires Quoted(json, p, t) && k <= |t|
    ensures Quoted(json, p + k, t[k..])
  {
    assert json[p + k..p + |t|] == json[p..p + |t|][k..];
  }

  /** The escapes among the first `n` units are basic. */
  predicate BasicFor(t: Bytes, n: nat)
    decreases n
  {
    t != [] && n > 0 ==>
      if t[0] != BACKSLASH then BasicFor(t[1..], n - 1)
      else |t| >= 2 && IsBasicLetter(t[1]) && BasicFor(t[2..], n - 1)
  }

  function Take(u: seq<nat>, n: nat): seq<nat> {
    if n <= |u| then u[..n] else u
  }

  /** At a piece of a JSON string that stands before a quote or ends the text, the
      cursor loop reads what the grammar says, as far as there is room, if all
      escapes up to there are basic, and fails otherwise. */
  lemma {:induction false} TextIsUnits(json: Bytes, p: nat, t: Bytes, room: nat)
    requires Quoted(json, p, t) && p <= |json| && Units(t).Some?
    ensures var r := Text(json, p, room);
      if BasicFor(t, room) then r.Some? && r.value == Take(Units(t).value, room) else r == None
    decreases room
  {
    hide Quoted, CodeUnit, Text, Units, BasicFor, Unescaped, Take;
    if t == [] || room == 0 {
      TextEnds(json, p, t, room);
    } else {
      QuotedHead(json, p, t);
      QuotedRest(json, p, t, 1);
      FirstUnit(t, room);
      FirstText(json, p, room);
      if t[0] != BACKSLASH {
        TextIsUnits(json, p + 1, t[1..], room - 1);
        TakeOneMore(t[0], Units(t[1..]).value, room);
      } else if Unescaped(t[1]).Some? {
        QuotedRest(json, p, t, 2);
        TextIsUnits(json, p + 2, t[2..], room - 1);
        TakeOneMore(Unescaped(t[1]).value, Units(t[2..]).value, room);
      }
    }
  }

  lemma TakeOneMore(c: nat, u: seq<nat>, n: nat)
    requires n > 0
    ensures Take([c] + u, n) == [c] + Take(u, n - 1)
  {
  }

  lemma TextEnds(json: Bytes, p: nat, t: Bytes, room: nat)
    requires Quoted(json, p, t) && p <= |json| && Units(t).Some? && (t == [] || room == 0)
    ensures Text(json, p, room) == Some([]) && BasicFor(t, room) && Take(Units(t).value, room) == []
  {
  }

  /** With room for every unit, that is a question of all escapes. */
  lemma {:induction false} BasicForAll(t: Bytes, n: nat)
    requires Units(t).Some? && n >= |Units(t).value|
    ensures BasicFor(t, n) <==> Basic(t)
    ensures Take(Units(t).value, n) == Units(t).value
    decreases n
  {
    hide CodeUnit, Units;
    if t != [] {
      FirstUnit(t, n);
      if t[0] != BACKSLASH {
        BasicForAll(t[1..], n - 1);
      } else if Unescaped(t[1]).Some? {
        BasicForAll(t[2..], n - 1);
      }
    } else if n == 0 {
      assert Basic(t);
    }
  }

  /** The first unit of a JSON string, and whether its escape is basic. */
  lemma FirstUnit(t: Bytes, n: nat)
    requires t != [] && Units(t).Some?
    ensures t[0] != QUOTE && (t[0] == BACKSLASH ==> |t| >= 2) && |Units(t).value| >= 1
    ensures t[0] != BACKSLASH ==>
      && Units(t[1..]).Some? && Units(t).value == [t[0]] + Units(t[1..]).value
      && (n > 0 ==> (BasicFor(t, n) <==> BasicFor(t[1..], n - 1)))
    ensures t[0] == BACKSLASH ==>
      if Unescaped(t[1]).Some? then
        && Units(t[2..]).Some? && Units(t).value == [Unescaped(t[1]).value] + Units(t[2..]).value
        && (n > 0 ==> (BasicFor(t, n) <==> BasicFor(t[2..], n - 1)))
      else n > 0 ==> !BasicFor(t, n)
  {
    hide CodeUnit;
  }

  lemma QuotedHead(json: Bytes, p: nat, t: Bytes)
    requires Quoted(json, p, t) && t != []
    ensures p + |t| <= |json| && json[p] == t[0] && (|t| >= 2 ==> json[p + 1] == t[1])
  {
    assert t == json[p..p + |t|];
  }

  // ------------------------------------------------------ finding the prompt

  /** Behind the key at `q`, separators only lead to the quote at `k`. */
  ghost predicate ValueAt(json: Bytes, q: nat, k: nat) {
    && q + 8 <= k < |json| && json[k] == 34
    && forall i :: q + 8 <= i < k ==> json[i] == 32 || json[i] == 9 || json[i] == 58
  }

  ghost predicate Valued(json: Bytes, q: nat) {
    exists k :: ValueAt(json, q, k)
  }

  /** `start` is behind the opening quote of the first key in `ms` with a string
      value, if any has one. */
  ghost predicate FirstValued(json: Bytes, ms: seq<nat>, start: Option<nat>) {
    match start
    case None => forall i :: 0 <= i < |ms| ==> !Valued(json, ms[i])
    case Some(s) =>
      s > 0 && exists i :: 0 <= i < |ms| && ValueAt(json, ms[i], s - 1) && forall j :: 0 <= j < i ==> !Valued(json, ms[j])
  }

  lemma FirstValuedCons(json: Bytes, ms: seq<nat>, start: Option<nat>)
    requires ms != [] && !Valued(json, ms[0]) && FirstValued(json, ms[1..], start)
    ensures FirstValued(json, ms, start)
  {
    assert forall i :: 1 <= i < |ms| ==> ms[i] == ms[1..][i - 1];
    if start.Some? {
      var rest := ms[1..];
      var i :| 0 <= i < |rest| && ValueAt(json, rest[i], start.value - 1) && forall j :: 0 <= j < i ==> !Valued(json, rest[j]);
      assert ms[i + 1] == rest[i];
    }
  }

  lemma SeparatorsSkipped(json: Bytes, p: nat)
    requires p <= |json|
    ensures var r := SkipSeparators(json, p);
      && (forall i :: p <= i < r ==> json[i] == 32 || json[i] == 9 || json[i] == 58)
      && (r < |json| ==> json[r] != 32 && json[r] != 9 && json[r] != 58)
    decreases |json| - p
  {
  }

  lemma ValuedIff(json: Bytes, q: nat)
    requires q + 8 <= |json|
    ensures var r := SkipSeparators(json, q + 8);
      && (Valued(json, q) <==> r < |json| && json[r] == QUOTE)
      && forall k :: ValueAt(json, q, k) ==> k == r
  {
    SeparatorsSkipped(json, q + 8);
    var r := SkipSeparators(json, q + 8);
    if r < |json| && json[r] == QUOTE {
      assert ValueAt(json, q, r);
    }
    forall k: nat | ValueAt(json, q, k)
      ensures k == r
    {
    }
  }

  lemma NothingBetween(s: Bytes, rep: Bytes, a: nat, b: nat)
    requires rep != [] && a <= b <= |s| && forall i :: a <= i < b ==> !OccursAt(s, rep, i)
    ensures Matches(s, rep, a) == Matches(s, rep, b)
  {
    var k, m := StrStr(s, rep, a), StrStr(s, rep, b);
    assert k == m;
  }

  lemma KeyNeedsQuote(json: Bytes, i: nat)
    requires OccursAt(json, PROMPT_KEY, i)
    ensures i + 8 <= |json| && json[i] == QUOTE
  {
    assert json[i..i + 8][0] == QUOTE;
  }

  lemma QuoteFound(json: Bytes, p: nat)
    requires p <= |json|
    ensures forall i :: p <= i < FindQuote(json, p) ==> json[i] != QUOTE
    decreases |json| - p
  {
  }

  /** The search ends at the first key with a string value, among the places where
      the key occurs and no earlier occurrence overlaps it; and it finds nothing
      exactly if none of them has one. */
  lemma {:induction false} PromptIsFirst(json: Bytes, p: nat)
    requires p <= |json|
    ensures FirstValued(json, Matches(json, PROMPT_KEY, p), PromptStart(json, p))
    decreases |json| - p
  {
    hide FirstValued, Valued, ValueAt, FindQuote, SkipSeparators, OccursAt, Matches;
    forall i: nat | OccursAt(json, PROMPT_KEY, i)
      ensures i + 8 <= |json| && json[i] == QUOTE
    {
      KeyNeedsQuote(json, i);
    }
    if p < |json| {
      QuoteFound(json, p);
      var q := FindQuote(json, p);
      NothingBetween(json, PROMPT_KEY, p, q);
      if q == |json| || |json| - q < 8 {
        NothingBetween(json, PROMPT_KEY, q, |json|);
        NoMatch(json);
      } else if json[q..q + 8] == PROMPT_KEY {
        var r := SkipSeparators(json, q + 8);
        KeyMatched(json, q);
        ValuedIff(json, q);
        if r < |json| && json[r] == QUOTE {
          FoundHere(json, Matches(json, PROMPT_KEY, q), r);
        } else {
          SeparatorsSkipped(json, q + 8);
          NothingBetween(json, PROMPT_KEY, q + 8, r);
          PromptIsFirst(json, r);
          FirstValuedCons(json, Matches(json, PROMPT_KEY, q), PromptStart(json, p));
        }
      } else {
        NotKey(json, q);
        NothingBetween(json, PROMPT_KEY, q, q + 1);
        PromptIsFirst(json, q + 1);
      }
    } else {
      NoMatch(json);
    }
  }

  lemma NoMatch(json: Bytes)
    ensures Matches(json, PROMPT_KEY, |json|) == [] && FirstValued(json, [], None)
  {
  }

  lemma NotKey(json: Bytes, q: nat)
    requires q + 8 <= |json| && json[q..q + 8] != PROMPT_KEY
    ensures !OccursAt(json, PROMPT_KEY, q)
  {
  }

  lemma KeyMatched(json: Bytes, q: nat)
    requires q + 8 <= |json| && json[q..q + 8] == PROMPT_KEY
    ensures Matches(json, PROMPT_KEY, q) == [q] + Matches(json, PROMPT_KEY, q + 8)
  {
  }

  lemma FoundHere(json: Bytes, ms: seq<nat>, r: nat)
    requires ms != [] && Valued(json, ms[0]) && forall k :: ValueAt(json, ms[0], k) ==> k == r
    ensures FirstValued(json, ms, Some(r + 1))
  {
    var k :| ValueAt(json, ms[0], k);
    assert ValueAt(json, ms[0], r);
  }

  /** Whatever stands in front, as long as no key begins there: the key, any
      separators and a quoted string after it are read as the grammar says. */
  lemma PromptReadAnywhere(front: Bytes, separators: Bytes, body: Bytes, tail: Bytes, size: nat)
    requires forall i :: 0 <= i < |separators| ==> separators[i] in {32, 9, 58}
    requires Units(body).Some? && size > 0 && (tail != [] ==> tail[0] == 34)
    requires var json := front + Ascii("\"prompt\"") + separators + [34] + body + tail;
      forall i :: 0 <= i < |front| ==> !OccursAt(json, Ascii("\"prompt\""), i)
    ensures var json := front + Ascii("\"prompt\"") + separators + [34] + body + tail;
      var r := Parsed(json, size);
      if BasicFor(body, size - 1) then r.Some? && r.value == Take(Units(body).value, size - 1) else r == None
  {
    hide Text, Units, BasicFor, PromptStart, Quoted, Take, OccursAt;
    var json := front + Ascii("\"prompt\"") + separators + [34] + body + tail;
    var q, k := |front|, |front| + 8 + |separators|;
    Places(front, separators, body, tail);
    PromptIsFirst(json, 0);
    NothingBetween(json, PROMPT_KEY, 0, q);
    KeyMatched(json, q);
    assert Matches(json, PROMPT_KEY, 0)[0] == q;
    assert Valued(json, q);
    ValuedIff(json, q);
    var start := PromptStart(json, 0);
    assert start == Some(k + 1);
    TextIsUnits(json, k + 1, body, size - 1);
  }

  lemma Places(front: Bytes, separators: Bytes, body: Bytes, tail: Bytes)
    requires forall i :: 0 <= i < |separators| ==> separators[i] in {32, 9, 58}
    requires tail != [] ==> tail[0] == 34
    ensures Ascii("\"prompt\"") == PROMPT_KEY
    ensures var json := front + Ascii("\"prompt\"") + separators + [34] + body + tail;
      var q, k := |front|, |front| + 8 + |separators|;
      && q + 8 <= |json| && json[q..q + 8] == PROMPT_KEY && ValueAt(json, q, k) && Quoted(json, k + 1, body)
  {
    var key := Ascii("\"prompt\"");
    assert key == PROMPT_KEY;
    var json := front + key + separators + [34] + body + tail;
    var q, k := |front|, |front| + 8 + |separators|;
    assert json[q..q + 8] == key;
    forall i | q + 8 <= i < k
      ensures json[i] in {32, 9, 58}
    {
      assert json[i] == separators[i - q - 8];
    }
    assert json[k + 1..k + 1 + |body|] == body;
  }

  /** {"prompt": "..."} */
  const HEAD: Bytes := [123] + PROMPT_KEY + [COLON, SP, QUOTE]
  const TAIL: Bytes := [QUOTE, 125]

  function Document(body: Bytes): Bytes {
    HEAD + body + TAIL
  }

  lemma PromptFound(body: Bytes)
    ensures PromptStart(Document(body), 0) == Some(12)
  {
    var json := Document(body);
    assert json[0] == 123 && json[1] == QUOTE;
    assert FindQuote(json, 0) == FindQuote(json, 1) == 1;
    assert json[1..9] == HEAD[1..9] == PROMPT_KEY;
    assert json[9] == COLON && json[10] == SP && json[11] == QUOTE;
    assert SkipSeparators(json, 9) == SkipSeparators(json, 10) == SkipSeparators(json, 11) == 11;
  }

  lemma BodyQuoted(body: Bytes)
    ensures Quoted(Document(body), 12, body)
  {
  }

  /** For every JSON string body and every output with room for its text,
      parse_json returns that text if it uses no escape but the five known ones,
      and fails otherwise. */
  lemma ParseAgreesWithGrammar(body: Bytes, size: nat)
    requires Units(body).Some? && size > |Units(body).value|
    ensures var r := Parsed(Document(body), size);
      if Basic(body) then r.Some? && r.value == Units(body).value else r == None
  {
    hide Text, Units, Basic, PromptStart, Quoted, BasicFor, Take;
    PromptFound(body);
    BodyQuoted(body);
    TextIsUnits(Document(body), 12, body, size - 1);
    BasicForAll(body, size - 1);
  }

  /** Round trip: an escaped text is recovered exactly if its control characters
      are only line feeds, carriage returns and tabs; otherwise the call fails. */
  lemma EscapeThenParse(s: Bytes, size: nat)
    requires size > |s|
    ensures Parsed(Document(Escape(s)), size)
         == if AllPlain(s) then Some(s) else None
  {
    UnitsOfEscape(s);
    BasicEscape(s);
    ParseAgreesWithGrammar(Escape(s), size);
  }

  /** Different texts have different escapes. */
  lemma EscapeInjective(s: Bytes, t: Bytes)
    requires Escape(s) == Escape(t)
    ensures s == t
  {
    UnitsOfEscape(s);
    UnitsOfEscape(t);
  }
}
