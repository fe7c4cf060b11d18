/** src/server.c: b64_decode, which collects six bits a character in a 32-bit
    accumulator, skips characters outside both alphabets and ignores padding. */
module Base64Decoding {
  import opened CMachine

  const SKIP := 64  // table entry of a character outside the alphabets
  const PAD: Byte := 61

  /** The decoder's table: the standard and the URL-safe alphabet together. */
  function Value(c: Byte): (v: nat)
    ensures v <= SKIP
  {
    if 65 <= c <= 90 then c - 65
    else if 97 <= c <= 122 then c - 97 + 26
    else if 48 <= c <= 57 then c - 48 + 52
    else if c == 43 || c == 45 then 62
    else if c == 47 || c == 95 then 63
    else SKIP
  }

  /** `n` characters in a row. */
  function Range(first: nat, n: nat): (r: Bytes)
    requires first + n <= 256
    ensures |r| == n && forall i :: 0 <= i < n ==> r[i] == first + i
  {
    seq(n, i requires 0 <= i < n => first + i)
  }

  /** The alphabets of sections 4 and 5 of RFC 4648: A to Z, a to z, 0 to 9, and
      plus and slash or hyphen and underscore. */
  function Alphabet(urlSafe: bool): (r: Bytes)
    ensures |r| == 64
  {
    Range(65, 26) + Range(97, 26) + Range(48, 10) + (if urlSafe then [45, 95] else [43, 47])
  }

  /** The characters that count are those of the two alphabets, each with its
      place there as its value. */
  lemma AlphabetIs(c: Byte, v: nat)
    requires v < 64
    ensures Value(c) == v <==> c == Alphabet(false)[v] || c == Alphabet(true)[v]
  {
  }

  type Sextet = v: int | 0 <= v < 64

  /** The values of the characters that count, in order. */
  function Sextets(text: Bytes): seq<Sextet> {
    if text == [] then []
    else (if Value(text[0]) < SKIP then [Value(text[0])] else []) + Sextets(text[1..])
  }

  // --------------------------------------------------------- the algorithm

  /** The byte above the low `bits` bits: (unsigned char)(buf >> bits). */
  function ByteAbove(buf: nat, bits: nat): Byte {
    buf / Pow2(bits) % 256
  }

  /** The bytes the loop writes from accumulator `buf` with `bits` pending bits. */
  function Emit(buf: U32, bits: nat, vs: seq<Sextet>): Bytes
    decreases |vs|
  {
    if vs == [] then []
    else
      var next := Wrap32(buf * 64 + vs[0]);
      (if bits + 6 >= 8 then [ByteAbove(next, bits - 2)] else []) + Emit(next, BitsAfter(bits), vs[1..])
  }

  function Decoded(text: Bytes): Bytes {
    Emit(0, 0, Sextets(text))
  }

  lemma {:induction false} SextetsAppend(s: Bytes, t: Bytes)
    ensures Sextets(s + t) == Sextets(s) + Sextets(t)
  {
    if s == [] {
      assert s + t == t;
    } else {
      assert (s + t)[1..] == s[1..] + t;
      SextetsAppend(s[1..], t);
    }
  }

  /** Pending bits after one more sextet. */
  function BitsAfter(bits: nat): nat {
    if bits + 6 >= 8 then bits - 2 else bits + 6
  }

  /** The accumulator and the number of pending bits after some sextets. */
  function After(buf: U32, bits: nat, vs: seq<Sextet>): (U32, nat)
    decreases |vs|
  {
    if vs == [] then (buf, bits) else After(Wrap32(buf * 64 + vs[0]), BitsAfter(bits), vs[1..])
  }

  /** Decoding may be interrupted behind any sextet. */
  lemma {:induction false} EmitAppend(buf: U32, bits: nat, s: seq<Sextet>, t: seq<Sextet>)
    ensures Emit(buf, bits, s + t)
         == Emit(buf, bits, s) + Emit(After(buf, bits, s).0, After(buf, bits, s).1, t)
    ensures After(buf, bits, s + t) == After(After(buf, bits, s).0, After(buf, bits, s).1, t)
    decreases |s|
  {
    if s == [] {
      assert s + t == t;
    } else {
      assert (s + t)[1..] == s[1..] + t;
      EmitAppend(Wrap32(buf * 64 + s[0]), BitsAfter(bits), s[1..], t);
    }
  }

  method Strip(text: Bytes) returns (len: nat)
    ensures len <= |text| && Sextets(text[..len]) == Sextets(text)
  {
    len := |text|;
    assert text[..|text|] == text;
    while len > 0 && text[len - 1] == PAD
      invariant 0 <= len <= |text|
      invariant Sextets(text[..len]) == Sextets(text)
    {
      assert text[..len] == text[..len - 1] + [PAD];
      SextetsAppend(text[..len - 1], [PAD]);
      assert Sextets([PAD]) == [];
      len := len - 1;
    }
  }

  lemma EmitNothing()
    ensures Sextets([]) == [] && Emit(0, 0, []) == [] && After(0, 0, []) == (0, 0)
  {
  }

  lemma DecodedBySextets(text: Bytes, len: nat)
    requires len <= |text| && Sextets(text[..len]) == Sextets(text)
    ensures Emit(0, 0, Sextets(text[..len])) == Decoded(text)
  {
  }

  lemma NextSextet(seen: seq<Sextet>, v: Sextet)
    ensures var (buf, bits) := After(0, 0, seen);
      var next := Wrap32(buf * 64 + v);
      && Emit(0, 0, seen + [v])
           == Emit(0, 0, seen) + (if bits + 6 >= 8 then [ByteAbove(next, bits - 2)] else [])
      && After(0, 0, seen + [v]) == (next, BitsAfter(bits))
  {
    EmitAppend(0, 0, seen, [v]);
  }

  lemma OneCharacter(c: Byte)
    ensures Sextets([c]) == if Value(c) < SKIP then [Value(c)] else []
  {
  }

  lemma EmitPrefix(s: seq<Sextet>, t: seq<Sextet>)
    ensures Emit(0, 0, s) <= Emit(0, 0, s + t)
  {
    EmitAppend(0, 0, s, t);
  }

  /** Reading one more character of the text. */
  lemma NextCharacter(text: Bytes, i: nat, len: nat)
    requires i < len <= |text|
    ensures Sextets(text[..i + 1])
         == (if Value(text[i]) < SKIP then Sextets(text[..i]) + [Value(text[i])] else Sextets(text[..i]))
  {
    OneCharacter(text[i]);
    hide Sextets, Value;
    assert text[..i + 1] == text[..i] + [text[i]];
    SextetsAppend(text[..i], [text[i]]);
    assert Sextets(text[..i]) + [] == Sextets(text[..i]);
  }

  lemma SoFar(text: Bytes, i: nat, len: nat)
    requires i <= len <= |text| && Sextets(text[..len]) == Sextets(text)
    ensures Emit(0, 0, Sextets(text[..i])) <= Decoded(text)
  {
    hide Sextets, Emit;
    assert text[..len] == text[..i] + text[i..len];
    SextetsAppend(text[..i], text[i..len]);
    EmitPrefix(Sextets(text[..i]), Sextets(text[i..len]));
  }

  /** Decodes `text` into `out`, of which `maxOut` bytes may be used: everything
      is written exactly if it fits. */
  method Decode(text: Bytes, out: array<Byte>, maxOut: nat) returns (result: int, outLen: nat)
    requires maxOut <= out.Length
    modifies out
    ensures result == (if |Decoded(text)| <= maxOut then 0 else -1)
    ensures result == 0 ==> outLen == |Decoded(text)| && out[..outLen] == Decoded(text)
    ensures result == -1 ==> out[..maxOut] == Decoded(text)[..maxOut]
    ensures out[maxOut..] == old(out[maxOut..])
  {
    hide Emit, After, Decoded, Sextets, ByteAbove, Wrap32;
    var len := Strip(text);
    EmitNothing();
    var o, bits := 0, 0;
    var buf: U32 := 0;
    assert text[..0] == [];
    var i := 0;
    while i < len
      invariant 0 <= i <= len && o <= maxOut && bits < 8
      invariant (buf, bits) == After(0, 0, Sextets(text[..i]))
      invariant out[..o] == Emit(0, 0, Sextets(text[..i]))
      invariant out[maxOut..] == old(out[maxOut..])
    {
      NextCharacter(text, i, len);
      SoFar(text, i + 1, len);
      var v := Value(text[i]);
      if v <= 63 {
        NextSextet(Sextets(text[..i]), v);
        buf := Wrap32(buf * 64 + v);
        bits := bits + 6;
        if bits >= 8 {
          bits := bits - 8;
          if o >= maxOut {
            return -1, o;
          }
          out[o] := ByteAbove(buf, bits);
          o := o + 1;
        }
      }
      i := i + 1;
    }
    DecodedBySextets(text, len);
    outLen := o;
    result := 0;
  }

  // ------------------------------------------------------------- encoding

  /** Section 4 of RFC 4648: three bytes make four sextets, and a last one or two
      bytes make two or three. */
  function Encoded(data: Bytes): seq<Sextet> {
    if data == [] then []
    else if |data| == 1 then [data[0] / 4, data[0] % 4 * 16]
    else if |data| == 2 then [data[0] / 4, data[0] % 4 * 16 + data[1] / 16, data[1] % 16 * 4]
    else
      [data[0] / 4, data[0] % 4 * 16 + data[1] / 16, data[1] % 16 * 4 + data[2] / 64, data[2] % 64]
      + Encoded(data[3..])
  }

  /** The character of a sextet, in the standard or the URL-safe alphabet. */
  function Letter(v: Sextet, urlSafe: bool): (c: Byte)
    ensures Value(c) == v
  {
    if v < 26 then 65 + v
    else if v < 52 then 97 + v - 26
    else if v < 62 then 48 + v - 52
    else if v == 62 then (if urlSafe then 45 else 43)
    else if urlSafe then 95 else 47
  }

  function Letters(vs: seq<Sextet>, urlSafe: bool): Bytes {
    if vs == [] then [] else [Letter(vs[0], urlSafe)] + Letters(vs[1..], urlSafe)
  }

  function Padding(n: nat): Bytes {
    if n % 3 == 0 then [] else if n % 3 == 1 then [PAD, PAD] else [PAD]
  }

  /** The text of `data`, padded to whole groups if wanted. */
  function Encode(data: Bytes, urlSafe: bool, padded: bool): Bytes {
    Letters(Encoded(data), urlSafe) + (if padded then Padding(|data|) else [])
  }

  lemma {:induction false} SextetsOfLetters(vs: seq<Sextet>, urlSafe: bool)
    ensures Sextets(Letters(vs, urlSafe)) == vs
  {
    if vs != [] {
      SextetsOfLetters(vs[1..], urlSafe);
      assert Letters(vs, urlSafe)[1..] == Letters(vs[1..], urlSafe);
    }
  }

  lemma SextetsOfEncode(data: Bytes, urlSafe: bool, padded: bool)
    ensures Sextets(Encode(data, urlSafe, padded)) == Encoded(data)
  {
    SextetsOfLetters(Encoded(data), urlSafe);
    var tail := if padded then Padding(|data|) else [];
    SextetsAppend(Letters(Encoded(data), urlSafe), tail);
    assert Sextets([PAD]) == [] && Sextets([PAD, PAD][1..]) == [];
    assert Sextets(tail) == [];
  }

  // ---------------------------------------------- what the decoder recovers

  /** The same loop with an accumulator that never wraps. */
  function EmitExact(buf: nat, bits: nat, vs: seq<Sextet>): Bytes
    decreases |vs|
  {
    if vs == [] then []
    else
      var next := buf * 64 + vs[0];
      (if bits + 6 >= 8 then [ByteAbove(next, bits - 2)] else []) + EmitExact(next, BitsAfter(bits), vs[1..])
  }

  /** The wrapped accumulator and the unbounded one agree in their low 16 bits. */
  ghost predicate SameLow(x: nat, y: nat) {
    x % 65536 == y % 65536
  }

  lemma DropMultiples(t: nat, u: nat)
    ensures (256 * t + u) % 256 == u % 256
  {
    assert 256 * t + u == 256 * (t + u / 256) + u % 256;
  }

  /** Of 65536 * q + r, only r shows in the byte above 0, 2 or 4 bits. */
  lemma DivMod(q: nat, r: nat, k: nat)
    requires k == 0 || k == 2 || k == 4
    ensures ByteAbove(65536 * q + r, k) == ByteAbove(r, k)
  {
    assert Pow2(0) == 1 && Pow2(1) == 2 && Pow2(2) == 4 && Pow2(3) == 8 && Pow2(4) == 16;
    if k == 0 {
      assert 65536 * q == 256 * (256 * q);
      DropMultiples(256 * q, r);
    } else if k == 2 {
      Quarter(q, r);
      DropMultiples(64 * q, r / 4);
    } else {
      Sixteenth(q, r);
      DropMultiples(16 * q, r / 16);
    }
  }

  lemma Quarter(q: nat, r: nat)
    ensures (65536 * q + r) / 4 == 256 * (64 * q) + r / 4
  {
  }

  lemma Sixteenth(q: nat, r: nat)
    ensures (65536 * q + r) / 16 == 256 * (16 * q) + r / 16
  {
  }

  lemma SameLowNext(x: nat, y: nat, v: Sextet)
    requires SameLow(x, y)
    ensures SameLow(Wrap32(x * 64 + v), y * 64 + v)
  {
    var a, b := x * 64 + v, y * 64 + v;
    assert x == 65536 * (x / 65536) + x % 65536 && y == 65536 * (y / 65536) + y % 65536;
    assert a - b == 65536 * (64 * (x / 65536 - y / 65536));
    assert a == TWO_32 * (a / TWO_32) + Wrap32(a);
    assert Wrap32(a) - b == 65536 * (64 * (x / 65536 - y / 65536) - 65536 * (a / TWO_32));
    SameRemainder(Wrap32(a), b, 64 * (x / 65536 - y / 65536) - 65536 * (a / TWO_32));
  }

  lemma SameRemainder(a: nat, b: nat, k: int)
    requires a - b == 65536 * k
    ensures a % 65536 == b % 65536
  {
    assert a == 65536 * (b / 65536 + k) + b % 65536;
  }

  /** Letting the 32-bit accumulator overflow costs nothing: it writes the bytes
      that one of unbounded width would. */
  lemma {:induction false} WrapHarmless(x: U32, y: nat, bits: nat, vs: seq<Sextet>)
    requires SameLow(x, y) && bits < 8 && bits % 2 == 0
    ensures Emit(x, bits, vs) == EmitExact(y, bits, vs)
    decreases |vs|
  {
    hide ByteAbove, SameLow, Wrap32, BitsAfter, Pow2;
    if vs != [] {
      SameLowNext(x, y, vs[0]);
      BitsStayEven(bits);
      if bits + 6 >= 8 {
        SameByte(Wrap32(x * 64 + vs[0]), y * 64 + vs[0], bits - 2);
      }
      WrapHarmless(Wrap32(x * 64 + vs[0]), y * 64 + vs[0], BitsAfter(bits), vs[1..]);
    }
  }

  lemma BitsStayEven(bits: nat)
    requires bits < 8 && bits % 2 == 0
    ensures BitsAfter(bits) < 8 && BitsAfter(bits) % 2 == 0
    ensures bits + 6 >= 8 ==> bits - 2 == 0 || bits - 2 == 2 || bits - 2 == 4
  {
  }

  lemma SameByte(x: nat, y: nat, k: nat)
    requires SameLow(x, y) && (k == 0 || k == 2 || k == 4)
    ensures ByteAbove(x, k) == ByteAbove(y, k)
  {
    hide ByteAbove;
    DivMod(x / 65536, x % 65536, k);
    DivMod(y / 65536, y % 65536, k);
  }

  /** Four sextets give back the three bytes they were made of. */
  lemma Group(buf: nat, b0: Byte, b1: Byte, b2: Byte)
    ensures var n1 := buf * 64 + b0 / 4;
      var n2 := n1 * 64 + (b0 % 4 * 16 + b1 / 16);
      var n3 := n2 * 64 + (b1 % 16 * 4 + b2 / 64);
      var n4 := n3 * 64 + b2 % 64;
      ByteAbove(n2, 4) == b0 && ByteAbove(n3, 2) == b1 && ByteAbove(n4, 0) == b2
  {
    var n1 := buf * 64 + b0 / 4;
    var n2 := n1 * 64 + (b0 % 4 * 16 + b1 / 16);
    var n3 := n2 * 64 + (b1 % 16 * 4 + b2 / 64);
    var n4 := n3 * 64 + b2 % 64;
    hide ByteAbove;
    LowByte(n2, 4, buf, b0, b1 / 16);
    LowByte(n3, 2, buf * 256 + b0, b1, b2 / 64);
    LowByte(n4, 0, buf * 65536 + b0 * 256 + b1, b2, 0);
  }

  /** The byte above the last `k` bits. */
  lemma LowByte(n: nat, k: nat, high: nat, b: Byte, low: nat)
    requires (k == 4 && low < 16) || (k == 2 && low < 4) || (k == 0 && low == 0)
    requires n == (high * 256 + b) * (if k == 4 then 16 else if k == 2 then 4 else 1) + low
    ensures ByteAbove(n, k) == b
  {
    assert Pow2(0) == 1 && Pow2(1) == 2 && Pow2(2) == 4 && Pow2(3) == 8 && Pow2(4) == 16;
    assert n / Pow2(k) == high * 256 + b;
  }

  /** Two sextets write one byte, and each of the next two writes another. */
  lemma EmitTwo(buf: nat, vs: seq<Sextet>)
    requires |vs| >= 2
    ensures var n2 := (buf * 64 + vs[0]) * 64 + vs[1];
      EmitExact(buf, 0, vs) == [ByteAbove(n2, 4)] + EmitExact(n2, 4, vs[2..])
  {
    hide ByteAbove;
    var n1 := buf * 64 + vs[0];
    assert vs[1..][1..] == vs[2..];
    assert EmitExact(buf, 0, vs) == [] + EmitExact(n1, 6, vs[1..]);
  }

  lemma EmitNext(buf: nat, bits: nat, vs: seq<Sextet>)
    requires |vs| >= 1 && (bits == 4 || bits == 2)
    ensures EmitExact(buf, bits, vs)
         == [ByteAbove(buf * 64 + vs[0], bits - 2)] + EmitExact(buf * 64 + vs[0], bits - 2, vs[1..])
  {
  }

  lemma {:induction false} EmitEncoded(buf: nat, data: Bytes)
    ensures EmitExact(buf, 0, Encoded(data)) == data
    decreases |data|
  {
    hide ByteAbove, EmitExact;
    if data == [] {
      EmitEmpty(buf, 0);
    } else {
      var vs := Encoded(data);
      Group(buf, data[0], if |data| >= 2 then data[1] else 0, if |data| >= 3 then data[2] else 0);
      var n2 := (buf * 64 + vs[0]) * 64 + vs[1];
      EmitTwo(buf, vs);
      if |data| == 1 {
        EmitEmpty(n2, 4);
      } else {
        var n3 := n2 * 64 + vs[2];
        EmitNext(n2, 4, vs[2..]);
        assert vs[2..][1..] == vs[3..];
        if |data| == 2 {
          EmitEmpty(n3, 2);
        } else {
          EmitNext(n3, 2, vs[3..]);
          assert vs[3..][1..] == vs[4..] == Encoded(data[3..]);
          EmitEncoded(n3 * 64 + vs[3], data[3..]);
        }
      }
    }
  }

  lemma EmitEmpty(buf: nat, bits: nat)
    ensures EmitExact(buf, bits, []) == []
  {
  }

  /** Round trip: any text whose alphabet characters spell the encoding of `data`
      decodes to `data`, whatever other characters stand between them. */
  lemma DecodeSpelled(text: Bytes, data: Bytes)
    requires Sextets(text) == Encoded(data)
    ensures Decoded(text) == data
  {
    WrapHarmless(0, 0, 0, Sextets(text));
    EmitEncoded(0, data);
  }

  /** In particular every standard and every URL-safe encoding, padded or not. */
  lemma DecodeEncode(data: Bytes, urlSafe: bool, padded: bool)
    ensures Decoded(Encode(data, urlSafe, padded)) == data
  {
    SextetsOfEncode(data, urlSafe, padded);
    DecodeSpelled(Encode(data, urlSafe, padded), data);
  }

  /** Characters outside the alphabets do not matter, wherever they stand. */
  lemma ForeignCharactersIgnored(s: Bytes, junk: Bytes, t: Bytes)
    requires forall k :: 0 <= k < |junk| ==> Value(junk[k]) == SKIP
    ensures Decoded(s + junk + t) == Decoded(s + t)
  {
    SextetsAppend(s + junk, t);
    SextetsAppend(s, junk);
    SextetsAppend(s, t);
    NoSextets(junk);
    assert Sextets(s) + [] == Sextets(s);
  }

  lemma {:induction false} NoSextets(junk: Bytes)
    requires forall k :: 0 <= k < |junk| ==> Value(junk[k]) == SKIP
    ensures Sextets(junk) == []
  {
    if junk != [] {
      NoSextets(junk[1..]);
    }
  }

  /** The decoder writes six eighths of a byte for every character that counts. */
  lemma {:induction false} DecodedLength(buf: U32, bits: nat, vs: seq<Sextet>)
    requires bits < 8
    ensures |Emit(buf, bits, vs)| == (bits + 6 * |vs|) / 8
    decreases |vs|
  {
    if vs != [] {
      hide ByteAbove, Wrap32;
      DecodedLength(Wrap32(buf * 64 + vs[0]), BitsAfter(bits), vs[1..]);
    }
  }
}
