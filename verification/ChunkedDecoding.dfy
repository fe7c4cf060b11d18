/** A reader of the chunked transfer coding by section 7.1 of RFC 9112, and what
    it makes of the bytes written by src/stream.c. */
module ChunkedDecoding {
  import opened CMachine
  import opened ChunkedStream

  function HexValue(c: Byte): Option<nat> {
    if 48 <= c <= 57 then Some(c - 48)
    else if 65 <= c <= 70 then Some(c - 55)
    else if 97 <= c <= 102 then Some(c - 87)
    else None
  }

  /** How many hexadecimal digits the text begins with. */
  function HexRun(w: Bytes): (k: nat)
    ensures k <= |w|
    ensures forall i :: 0 <= i < k ==> HexValue(w[i]).Some?
  {
    if w == [] || HexValue(w[0]).None? then 0 else 1 + HexRun(w[1..])
  }

  /** The number that hexadecimal digits stand for. */
  function Number(digits: Bytes): nat
    requires forall i :: 0 <= i < |digits| ==> HexValue(digits[i]).Some?
  {
    if digits == [] then 0
    else Number(digits[..|digits| - 1]) * 16 + HexValue(digits[|digits| - 1]).value
  }

  datatype Message = Message(payload: Bytes, rest: Bytes)

  /** The size a chunk begins with, and what stands behind its size line. */
  function SizeLine(w: Bytes): (r: Option<(nat, Bytes)>)
    ensures r.Some? ==> |r.value.1| < |w|
  {
    var k := HexRun(w);
    if k == 0 || |w| < k + 2 || w[k..k + 2] != CRLF then None else Some((Number(w[..k]), w[k + 2..]))
  }

  /** The payload of a chunked body without chunk extensions or trailers, and
      the bytes behind its end; None if the text is not such a body. */
  function DecodeBody(w: Bytes): Option<Message>
    decreases |w|
  {
    var line := SizeLine(w);
    if line.None? then None
    else
      var (size, body) := line.value;
      if |body| < size + 2 || body[size..size + 2] != CRLF then None
      else if size == 0 then Some(Message([], body[2..]))
      else
        var rest := DecodeBody(body[size + 2..]);
        if rest.None? then None
        else Some(Message(body[..size] + rest.value.payload, rest.value.rest))
  }

  // ---------------------------------------------------- printing and reading

  /** Printing a size in hexadecimal and reading it back. */
  lemma {:induction false} NumberOfHex(n: nat)
    ensures forall i :: 0 <= i < |Hex(n)| ==> HexValue(Hex(n)[i]).Some?
    ensures Number(Hex(n)) == n
    decreases n
  {
    if n < 16 {
      assert Hex(n)[..0] == [];
    } else {
      NumberOfHex(n / 16);
      assert Hex(n)[..|Hex(n)| - 1] == Hex(n / 16);
    }
  }

  lemma {:induction false} HexRunExact(digits: Bytes, rest: Bytes)
    requires forall i :: 0 <= i < |digits| ==> HexValue(digits[i]).Some?
    requires rest != [] && HexValue(rest[0]).None?
    ensures HexRun(digits + rest) == |digits|
  {
    if digits == [] {
      assert digits + rest == rest;
    } else {
      assert (digits + rest)[1..] == digits[1..] + rest;
      HexRunExact(digits[1..], rest);
    }
  }

  /** A frame in front of a body adds its data in front of the payload. */
  lemma DecodeFrame(data: Bytes, w: Bytes)
    requires data != []
    ensures DecodeBody(Frame(data) + w) ==
      var rest := DecodeBody(w);
      if rest.None? then None else Some(Message(data + rest.value.payload, rest.value.rest))
  {
    hide SizeLine, Frame;
    FrameSize(data, w);
    Parts(data, CRLF, w);
    assert data + CRLF + w == data + (CRLF + w);
  }

  lemma FrameSize(data: Bytes, w: Bytes)
    ensures SizeLine(Frame(data) + w) == Some((|data|, data + CRLF + w))
  {
    NumberOfHex(|data|);
    SomeDigit(|data|);
    hide Hex, Number, SizeLine;
    var h, rest := Hex(|data|), data + CRLF + w;
    assert Frame(data) + w == h + (CRLF + rest);
    DigitsThenLine(h, rest);
  }

  lemma DigitsThenLine(h: Bytes, rest: Bytes)
    requires h != [] && forall i :: 0 <= i < |h| ==> HexValue(h[i]).Some?
    ensures SizeLine(h + (CRLF + rest)) == Some((Number(h), rest))
  {
    hide Number, HexRun, HexValue;
    NotHex(CRLF + rest);
    HexRunExact(h, CRLF + rest);
    Parts(h, CRLF, rest);
  }

  lemma Parts(a: Bytes, b: Bytes, c: Bytes)
    ensures var t := a + (b + c);
      t[..|a|] == a && t[|a|..|a| + |b|] == b && t[|a| + |b|..] == c
  {
  }

  lemma NotHex(w: Bytes)
    requires w != [] && w[0] == CR
    ensures HexValue(w[0]).None?
  {
  }

  lemma SomeDigit(n: nat)
    ensures Hex(n) != []
  {
  }

  lemma DecodeTerminator(rest: Bytes)
    ensures DecodeBody(TERMINATOR + rest) == Some(Message([], rest))
  {
    var text := TERMINATOR + rest;
    assert HexRun(text) == 1 by {
      assert text == [48] + (CRLF + [CR, LF] + rest);
      HexRunExact([48], CRLF + [CR, LF] + rest);
    }
    assert text[..1] == [48] && [48][..0] == [];
    assert Number([48]) == 0;
    assert text[1..3] == CRLF;
    var body := text[3..];
    assert body[..2] == CRLF && body[2..] == rest;
  }

  lemma {:induction false} DecodeChunks(data: Bytes, w: Bytes, payload: Bytes, rest: Bytes)
    requires DecodeBody(w) == Some(Message(payload, rest))
    ensures DecodeBody(Chunks(data) + w) == Some(Message(data + payload, rest))
    decreases |data|
  {
    hide DecodeBody, Frame;
    if data == [] {
      assert Chunks(data) + w == w && data + payload == payload;
    } else if |data| < CHUNK_SIZE {
      DecodeFrame(data, w);
    } else {
      var head, tail := data[..CHUNK_SIZE], data[CHUNK_SIZE..];
      DecodeChunks(tail, w, payload, rest);
      DecodeFrame(head, Chunks(tail) + w);
      assert Chunks(data) + w == Frame(head) + (Chunks(tail) + w);
      assert data + payload == head + (tail + payload);
    }
  }

  /** Whatever was sent, if all of it got out the reader gets exactly the payload
      and finds the end of the body where the writer ended it. */
  lemma WrittenBodyDecodes(data: Option<Bytes>, isStreaming: bool, rest: Bytes)
    requires isStreaming || data != Some([])
    ensures DecodeBody(BodyBytes(data, isStreaming, true) + TERMINATOR + rest)
         == Some(Message(if data.Some? then data.value else [], rest))
  {
    hide DecodeBody, Frame, Chunks;
    DecodeTerminator(rest);
    var end := TERMINATOR + rest;
    var body := BodyBytes(data, isStreaming, true);
    assert body + TERMINATOR + rest == body + end;
    if data.None? {
      assert body + end == end;
    } else {
      assert data.value + [] == data.value;
      if isStreaming {
        DecodeChunks(data.value, end, [], rest);
      } else {
        DecodeFrame(data.value, end);
      }
    }
  }

  // -------------------------------------------------------- cut-off bodies

  lemma {:induction false} HexRunExtends(w: Bytes, x: Bytes)
    requires HexRun(w) < |w|
    ensures HexRun(w + x) == HexRun(w)
  {
    if HexValue(w[0]).Some? {
      assert (w + x)[1..] == w[1..] + x;
      HexRunExtends(w[1..], x);
    }
  }

  /** What follows a complete body does not change how it is read. */
  lemma {:induction false} DecodeExtends(w: Bytes, x: Bytes)
    requires DecodeBody(w).Some?
    ensures DecodeBody(w + x) == Some(Message(DecodeBody(w).value.payload, DecodeBody(w).value.rest + x))
    decreases |w|
  {
    hide SizeLine;
    SizeLineExtends(w, x);
    var (size, body) := SizeLine(w).value;
    Behind(body, x, size);
    Behind(body, x, size + 2);
    Between(body, x, size);
    if size > 0 {
      DecodeExtends(body[size + 2..], x);
    }
  }

  lemma SizeLineExtends(w: Bytes, x: Bytes)
    requires SizeLine(w).Some?
    ensures SizeLine(w + x) == Some((SizeLine(w).value.0, SizeLine(w).value.1 + x))
  {
    hide HexRun, Number, HexValue;
    var k := HexRun(w);
    HexRunExtends(w, x);
    Behind(w, x, k);
    Behind(w, x, k + 2);
    Between(w, x, k);
  }

  lemma Between(w: Bytes, x: Bytes, i: nat)
    requires i + 2 <= |w|
    ensures (w + x)[i..i + 2] == w[i..i + 2]
  {
  }

  lemma Behind(w: Bytes, x: Bytes, i: nat)
    requires i <= |w|
    ensures (w + x)[..i] == w[..i] && (w + x)[i..] == w[i..] + x
  {
  }

  /** A response that was cut off anywhere is never taken for a whole one, nor for
      a shorter one. */
  lemma CutBodyIsIncomplete(data: Option<Bytes>, isStreaming: bool, wire: Bytes)
    requires isStreaming || data != Some([])
    requires Cut([], wire, BodyBytes(data, isStreaming, true) + TERMINATOR)
    ensures DecodeBody(wire) == None
  {
    var whole := BodyBytes(data, isStreaming, true) + TERMINATOR;
    var k :| 0 <= k < |whole| && wire == [] + whole[..k];
    assert wire == whole[..k];
    CutAt(data, isStreaming, k);
  }

  lemma CutAt(data: Option<Bytes>, isStreaming: bool, k: nat)
    requires isStreaming || data != Some([])
    requires k < |BodyBytes(data, isStreaming, true) + TERMINATOR|
    ensures DecodeBody((BodyBytes(data, isStreaming, true) + TERMINATOR)[..k]) == None
  {
    hide BodyBytes, DecodeBody, TERMINATOR;
    var whole := BodyBytes(data, isStreaming, true) + TERMINATOR;
    WrittenBodyDecodes(data, isStreaming, []);
    Rejoined(whole, k);
    if DecodeBody(whole[..k]).Some? {
      DecodeExtends(whole[..k], whole[k..]);
    }
  }

  lemma Rejoined(w: Bytes, k: nat)
    requires k < |w|
    ensures w[..k] + w[k..] == w == w + [] && w[k..] != []
  {
  }
}
