/** src/utils.c: str_replace_ex without a pool. A first pass over the text counts
    the matches, a wrapping formula sizes the buffer, and a second pass fills it. */
module StringReplacing {
  import opened CMachine

  predicate OccursAt(s: Bytes, rep: Bytes, k: nat) {
    k + |rep| <= |s| && s[k..k + |rep|] == rep
  }

  /** strstr(s + start, rep). */
  function StrStr(s: Bytes, rep: Bytes, start: nat): (k: Option<nat>)
    requires start <= |s|
    ensures k.Some? ==>
              && start <= k.value && OccursAt(s, rep, k.value)
              && forall i :: start <= i < k.value ==> !OccursAt(s, rep, i)
    ensures k.None? ==> forall i :: start <= i ==> !OccursAt(s, rep, i)
    decreases |s| - start
  {
    if OccursAt(s, rep, start) then Some(start)
    else if start == |s| then None
    else StrStr(s, rep, start + 1)
  }

  /** The places that repeated strstr calls visit, each from behind the last. */
  function Matches(s: Bytes, rep: Bytes, start: nat): (ms: seq<nat>)
    requires start <= |s| && rep != []
    decreases |s| - start
  {
    var k := StrStr(s, rep, start);
    if k.None? then [] else [k.value] + Matches(s, rep, k.value + |rep|)
  }

  /** `s` from `start` on, with the `len` bytes at every place in `ms` exchanged
      for `with`. */
  function Spliced(s: Bytes, ms: seq<nat>, len: nat, with: Bytes, start: nat): (t: Bytes)
    requires start <= |s| && Fits(s, ms, len, start)
    decreases |ms|
  {
    if ms == [] then s[start..]
    else s[start..ms[0]] + with + Spliced(s, ms[1..], len, with, ms[0] + len)
  }

  /** The places are in order, and `len` bytes at each do not reach the next. */
  predicate Fits(s: Bytes, ms: seq<nat>, len: nat, start: nat)
    decreases |ms|
  {
    ms == [] || (start <= ms[0] && ms[0] + len <= |s| && Fits(s, ms[1..], len, ms[0] + len))
  }

  lemma {:induction false} MatchesFit(s: Bytes, rep: Bytes, start: nat)
    requires start <= |s| && rep != []
    ensures Fits(s, Matches(s, rep, start), |rep|, start)
    decreases |s| - start
  {
    var k := StrStr(s, rep, start);
    if k.Some? {
      MatchesFit(s, rep, k.value + |rep|);
    }
  }

  function Replaced(s: Bytes, rep: Bytes, with: Bytes): (t: Bytes)
    requires rep != []
  {
    MatchesFit(s, rep, 0);
    Spliced(s, Matches(s, rep, 0), |rep|, with, 0)
  }

  // ----------------------------------------- what a leftmost replacement is

  /** `k` lies in the match at one of the places. */
  predicate Covered(ms: seq<nat>, len: nat, k: nat) {
    exists i :: 0 <= i < |ms| && ms[i] <= k < ms[i] + len
  }

  /** The places hold matches that do not overlap, and no occurrence anywhere
      begins outside them. */
  ghost predicate Leftmost(s: Bytes, rep: Bytes, ms: seq<nat>, start: nat) {
    && Fits(s, ms, |rep|, start)
    && (forall i :: 0 <= i < |ms| ==> OccursAt(s, rep, ms[i]))
    && (forall k :: start <= k && OccursAt(s, rep, k) ==> Covered(ms, |rep|, k))
  }

  lemma CoveredCons(ms: seq<nat>, len: nat, k: nat)
    requires ms != []
    ensures Covered(ms, len, k) <==> ms[0] <= k < ms[0] + len || Covered(ms[1..], len, k)
  {
    if Covered(ms[1..], len, k) {
      var i :| 0 <= i < |ms[1..]| && ms[1..][i] <= k < ms[1..][i] + len;
      assert ms[i + 1] <= k < ms[i + 1] + len;
    }
    if Covered(ms, len, k) && !(ms[0] <= k < ms[0] + len) {
      var i :| 0 <= i < |ms| && ms[i] <= k < ms[i] + len;
      assert ms[1..][i - 1] == ms[i];
    }
  }

  lemma {:induction false} FitsAfter(s: Bytes, ms: seq<nat>, len: nat, start: nat, i: nat)
    requires Fits(s, ms, len, start) && i < |ms|
    ensures start <= ms[i] && ms[i] + len <= |s|
    decreases |ms|
  {
    if i > 0 {
      FitsAfter(s, ms[1..], len, ms[0] + len, i - 1);
    }
  }

  lemma NoneFound(s: Bytes, rep: Bytes, start: nat)
    requires start <= |s| && StrStr(s, rep, start).None?
    ensures forall k :: start <= k ==> !OccursAt(s, rep, k)
  {
  }

  lemma FirstFound(s: Bytes, rep: Bytes, start: nat)
    requires start <= |s| && StrStr(s, rep, start).Some?
    ensures OccursAt(s, rep, StrStr(s, rep, start).value)
    ensures forall k :: start <= k < StrStr(s, rep, start).value ==> !OccursAt(s, rep, k)
  {
  }

  lemma {:induction false} MatchesLeftmost(s: Bytes, rep: Bytes, start: nat)
    requires start <= |s| && rep != []
    ensures Leftmost(s, rep, Matches(s, rep, start), start)
    decreases |s| - start
  {
    hide StrStr, Matches, Covered, OccursAt, Fits;
    var ms := Matches(s, rep, start);
    MatchesFit(s, rep, start);
    MoreToCome(s, rep, start);
    if ms == [] {
      NoneFound(s, rep, start);
    } else {
      MatchesLeftmost(s, rep, ms[0] + |rep|);
      FirstFound(s, rep, start);
      forall k | start <= k && OccursAt(s, rep, k)
        ensures Covered(ms, |rep|, k)
      {
        CoveredCons(ms, |rep|, k);
      }
    }
  }

  /** The first place of a leftmost list is where strstr stops. */
  lemma FirstPlace(s: Bytes, rep: Bytes, ms: seq<nat>, start: nat)
    requires start <= |s| && rep != []
    requires Leftmost(s, rep, ms, start)
    ensures StrStr(s, rep, start) == if ms == [] then None else Some(ms[0])
  {
    hide OccursAt, StrStr;
    var k := StrStr(s, rep, start);
    if k.Some? {
      var i :| 0 <= i < |ms| && ms[i] <= k.value < ms[i] + |rep|;
      FitsAfter(s, ms, |rep|, start, i);
      if i > 0 {
        FitsAfter(s, ms[1..], |rep|, ms[0] + |rep|, i - 1);
      }
    }
  }

  lemma {:induction false} LeftmostUnique(s: Bytes, rep: Bytes, ms: seq<nat>, start: nat)
    requires start <= |s| && rep != []
    requires Leftmost(s, rep, ms, start)
    ensures ms == Matches(s, rep, start)
    decreases |s| - start
  {
    hide OccursAt, StrStr, Covered, Leftmost;
    FirstPlace(s, rep, ms, start);
    if ms != [] {
      LeftmostRest(s, rep, ms, start);
      LeftmostUnique(s, rep, ms[1..], ms[0] + |rep|);
    }
  }

  lemma LeftmostRest(s: Bytes, rep: Bytes, ms: seq<nat>, start: nat)
    requires ms != [] && Leftmost(s, rep, ms, start)
    ensures start <= ms[0] && ms[0] + |rep| <= |s|
    ensures Leftmost(s, rep, ms[1..], ms[0] + |rep|)
  {
    hide OccursAt, Covered;
    var rest := ms[1..];
    forall k | ms[0] + |rep| <= k && OccursAt(s, rep, k)
      ensures Covered(rest, |rep|, k)
    {
      CoveredCons(ms, |rep|, k);
    }
  }

  /** The matches replaced are the one set of non-overlapping matches that
      leaves no occurrence beginning outside it. */
  lemma ReplacesLeftmostMatches(s: Bytes, rep: Bytes, with: Bytes, ms: seq<nat>)
    requires rep != []
    ensures Leftmost(s, rep, ms, 0) <==> ms == Matches(s, rep, 0)
    ensures Leftmost(s, rep, ms, 0) ==> Replaced(s, rep, with) == Spliced(s, ms, |rep|, with, 0)
  {
    MatchesLeftmost(s, rep, 0);
    if Leftmost(s, rep, ms, 0) {
      LeftmostUnique(s, rep, ms, 0);
    }
  }

  // ------------------------------------------------------ the length formula

  /** len_orig + (len_with - len_rep) * count in size_t arithmetic. */
  function ResultLen(orig: nat, rep: nat, with: nat, count: nat): (n: U64) {
    Wrap64(orig + Wrap64(Wrap64(with - rep) * count))
  }

  lemma {:induction false} SplicedLength(s: Bytes, ms: seq<nat>, len: nat, with: Bytes, start: nat)
    requires start <= |s| && Fits(s, ms, len, start)
    ensures |Spliced(s, ms, len, with, start)| == |s| - start + (|with| - len) * |ms|
    decreases |ms|
  {
    if ms != [] {
      SplicedLength(s, ms[1..], len, with, ms[0] + len);
      OneMoreMatch(|with| - len, |ms[1..]|);
    }
  }

  lemma OneMoreMatch(d: int, n: nat)
    ensures d * (n + 1) == d * n + d
  {
  }

  lemma WrapFixed(n: nat)
    ensures Wrap64(n) == n <==> n < TWO_64
  {
  }

  lemma WrappedFormula(orig: nat, rep: nat, with: nat, count: nat)
    ensures ResultLen(orig, rep, with, count) == Wrap64(orig + (with - rep) * count)
  {
    var d := with - rep;
    var q := d / TWO_64;
    var p := Wrap64(d) * count;
    var r := p / TWO_64;
    assert Wrap64(d) == d - q * TWO_64;
    assert p == d * count - (q * count) * TWO_64 by {
      assert (d - q * TWO_64) * count == d * count - (q * TWO_64) * count;
      assert (q * TWO_64) * count == (q * count) * TWO_64;
    }
    assert Wrap64(p) == p - r * TWO_64;
    WrapShift(orig + d * count, -(q * count) - r);
    assert orig + Wrap64(p) == orig + d * count + (-(q * count) - r) * TWO_64;
  }

  /** The wrapping formula is the true length exactly when that is a size_t. */
  lemma LengthFormula(s: Bytes, rep: Bytes, with: Bytes)
    requires rep != []
    ensures ResultLen(|s|, |rep|, |with|, |Matches(s, rep, 0)|) == |Replaced(s, rep, with)|
       <==> |Replaced(s, rep, with)| < TWO_64
  {
    hide Matches, Spliced, Fits, Wrap64, ResultLen;
    var ms := Matches(s, rep, 0);
    MatchesFit(s, rep, 0);
    SplicedLength(s, ms, |rep|, with, 0);
    WrappedFormula(|s|, |rep|, |with|, |ms|);
    WrapFixed(|Replaced(s, rep, with)|);
  }

  // -------------------------------------------------------------- the method

  lemma NothingLeft(s: Bytes, len: nat, with: Bytes, src: nat)
    requires src <= |s|
    ensures Fits(s, [], len, src) && Spliced(s, [], len, with, src) == s[src..]
  {
  }

  lemma MoreToCome(s: Bytes, rep: Bytes, src: nat)
    requires src <= |s| && rep != []
    ensures Matches(s, rep, src) == [] <==> StrStr(s, rep, src).None?
    ensures StrStr(s, rep, src).Some? ==>
              var k := StrStr(s, rep, src).value;
              && src <= k && k + |rep| <= |s|
              && Matches(s, rep, src) == [k] + Matches(s, rep, k + |rep|)
  {
  }

  /** One round of the second pass. */
  lemma PassStep(s: Bytes, rep: Bytes, with: Bytes, src: nat, k: nat)
    requires rep != [] && src <= k && k + |rep| <= |s| && StrStr(s, rep, src) == Some(k)
    requires Fits(s, Matches(s, rep, src), |rep|, src)
    ensures Fits(s, Matches(s, rep, k + |rep|), |rep|, k + |rep|)
    ensures Spliced(s, Matches(s, rep, src), |rep|, with, src)
         == s[src..k] + with + Spliced(s, Matches(s, rep, k + |rep|), |rep|, with, k + |rep|)
  {
    hide StrStr, OccursAt, Matches;
    MoreToCome(s, rep, src);
    assert Matches(s, rep, src)[1..] == Matches(s, rep, k + |rep|);
  }

  /** memcpy(buf + at, data, |data|). */
  method Copy(buf: array<Byte>, at: nat, data: Bytes)
    requires at + |data| <= buf.Length
    modifies buf
    ensures buf[..at + |data|] == old(buf[..at]) + data
  {
    forall i | 0 <= i < |data| {
      buf[at + i] := data[i];
    }
  }

  /** With `front` written, what belongs behind it comes from `src` on. */
  predicate Written(front: Bytes, s: Bytes, rep: Bytes, with: Bytes, src: nat)
    requires src <= |s| && rep != [] && Fits(s, Matches(s, rep, src), |rep|, src)
  {
    front + Spliced(s, Matches(s, rep, src), |rep|, with, src) == Replaced(s, rep, with)
  }

  lemma WrittenNothing(s: Bytes, rep: Bytes, with: Bytes)
    requires rep != [] && Fits(s, Matches(s, rep, 0), |rep|, 0)
    ensures Written([], s, rep, with, 0)
  {
  }

  lemma WrittenStep(front: Bytes, s: Bytes, rep: Bytes, with: Bytes, src: nat, k: nat)
    requires rep != [] && src <= k && k + |rep| <= |s| && StrStr(s, rep, src) == Some(k)
    requires Fits(s, Matches(s, rep, src), |rep|, src)
    requires Written(front, s, rep, with, src)
    ensures Fits(s, Matches(s, rep, k + |rep|), |rep|, k + |rep|)
    ensures Written(front + s[src..k] + with, s, rep, with, k + |rep|)
    ensures |front + s[src..k] + with| <= |Replaced(s, rep, with)|
  {
    hide Matches, StrStr, OccursAt, Spliced, Fits, Replaced;
    PassStep(s, rep, with, src, k);
    var rest := Spliced(s, Matches(s, rep, k + |rep|), |rep|, with, k + |rep|);
    assert front + (s[src..k] + with + rest) == front + s[src..k] + with + rest;
  }

  lemma WrittenAll(front: Bytes, s: Bytes, rep: Bytes, with: Bytes, src: nat)
    requires src <= |s| && rep != [] && Matches(s, rep, src) == []
    ensures Fits(s, [], |rep|, src)
    ensures Written(front, s, rep, with, src) ==> front + s[src..] == Replaced(s, rep, with)
  {
  }

  /** A null pointer is None, and so is a null result. The result fills its
      buffer up to the terminating NUL. */
  method StrReplace(orig: Option<Bytes>, rep: Option<Bytes>, with: Option<Bytes>)
    returns (result: array?<Byte>)
    requires orig.Some? && rep.Some? && rep.value != [] ==>
               |Replaced(orig.value, rep.value, if with.Some? then with.value else [])| + 1 < TWO_64
    ensures result == null <==> orig.None? || rep.None? || rep.value == []
    ensures result != null ==>
              result[..] == Replaced(orig.value, rep.value, if with.Some? then with.value else []) + [0]
  {
    hide StrStr, Spliced, Fits, ResultLen;
    if orig.None? || rep.None? || |rep.value| == 0 { return null; }
    var s, w := orig.value, rep.value;
    var v: Bytes := if with.Some? then with.value else [];

    var count: nat := 0;
    var pos := 0;
    var at := StrStr(s, w, pos);
    while at.Some?
      invariant pos <= |s| && at == StrStr(s, w, pos)
      invariant count + |Matches(s, w, pos)| == |Matches(s, w, 0)|
      decreases |s| - pos
    {
      count := count + 1;
      pos := at.value + |w|;
      at := StrStr(s, w, pos);
    }

    if count == 0 {
      NothingLeft(s, |w|, v, 0);
      result := new Byte[|s| + 1];
      Copy(result, 0, s + [0]);
      return;
    }
    LengthFormula(s, w, v);
    var resultLen := ResultLen(|s|, |w|, |v|, count);
    result := new Byte[resultLen + 1];
    result := Build(result, s, w, v, count);
  }

  /** The second pass, over a buffer of exactly the size needed. */
  method Build(buf: array<Byte>, s: Bytes, rep: Bytes, with: Bytes, count: nat) returns (result: array<Byte>)
    requires rep != [] && count == |Matches(s, rep, 0)|
    requires buf.Length == |Replaced(s, rep, with)| + 1
    modifies buf
    ensures result == buf && buf[..] == Replaced(s, rep, with) + [0]
  {
    hide Matches, StrStr, OccursAt, Spliced, Fits, Written, Replaced;
    result := buf;
    var dst: nat, src: nat := 0, 0;
    var left := count;
    MatchesFit(s, rep, 0);
    WrittenNothing(s, rep, with);
    while left > 0
      invariant src <= |s| && dst <= buf.Length
      invariant left == |Matches(s, rep, src)| && Fits(s, Matches(s, rep, src), |rep|, src)
      invariant Written(buf[..dst], s, rep, with, src)
    {
      MoreToCome(s, rep, src);
      var found := StrStr(s, rep, src).value;
      ghost var front := buf[..dst];
      WrittenStep(front, s, rep, with, src, found);
      Copy(buf, dst, s[src..found]);
      dst := dst + (found - src);
      if |with| > 0 {
        Copy(buf, dst, with);
        dst := dst + |with|;
      }
      assert buf[..dst] == front + s[src..found] + with;
      src := found + |rep|;
      left := left - 1;
    }
    NothingLeft(s, |rep|, with, src);
    WrittenAll(buf[..dst], s, rep, with, src);
    Copy(buf, dst, s[src..] + [0]);
  }
}
