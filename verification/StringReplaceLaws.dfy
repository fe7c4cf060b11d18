/** What callers get from str_replace_ex: when a replacement can be undone, and
    when it removes every occurrence. */
module StringReplaceLaws {
  import opened CMachine
  import opened StringReplacing

  /** The two texts have no byte in common. */
  predicate Apart(v: Bytes, s: Bytes) {
    forall i, j :: 0 <= i < |v| && 0 <= j < |s| ==> v[i] != s[j]
  }

  /** Where the replacements for the matches at `ms` land in the result. */
  function Landed(s: Bytes, ms: seq<nat>, len: nat, with: nat, start: nat, at: nat): seq<nat>
    requires Fits(s, ms, len, start)
    decreases |ms|
  {
    if ms == [] then []
    else
      var p := at + (ms[0] - start);
      [p] + Landed(s, ms[1..], len, with, ms[0] + len, p + with)
  }

  /** No copy of `v` begins in a stretch of the text that `v` has no byte of. */
  lemma NoneInGap(t: Bytes, v: Bytes, s: Bytes, j: nat)
    requires v != [] && Apart(v, s) && j < |t| && t[j] in s
    ensures !OccursAt(t, v, j)
  {
  }

  /** The text `t` from `at` on is a replacement in `s` from `start` on, and the
      reverse replacement at the right places leads back. */
  ghost predicate Back(t: Bytes, at: nat, s: Bytes, ms: seq<nat>, rep: Bytes, v: Bytes, start: nat)
    requires start <= |s| && at <= |t| && Fits(s, ms, |rep|, start)
  {
    var ps := Landed(s, ms, |rep|, |v|, start, at);
    && Leftmost(t, v, ps, at)
    && Spliced(t, ps, |v|, rep, at) == s[start..]
  }

  lemma {:induction false} SplicedBack(t: Bytes, at: nat, s: Bytes, ms: seq<nat>, rep: Bytes, v: Bytes, start: nat)
    requires start <= |s| && at <= |t| && Fits(s, ms, |rep|, start) && v != [] && Apart(v, s)
    requires t[at..] == Spliced(s, ms, |rep|, v, start)
    requires forall i :: 0 <= i < |ms| ==> OccursAt(s, rep, ms[i])
    ensures Back(t, at, s, ms, rep, v, start)
    decreases |ms|
  {
    hide OccursAt, Leftmost, Apart, Spliced, Back;
    if ms == [] {
      LastBack(t, at, s, rep, v, start);
    } else {
      var next := at + (ms[0] - start) + |v|;
      RoundSplit(t, at, s, ms, rep, v, start);
      SplicedBack(t, next, s, ms[1..], rep, v, ms[0] + |rep|);
      RoundBack(t, at, s, ms, rep, v, start);
    }
  }

  lemma LastBack(t: Bytes, at: nat, s: Bytes, rep: Bytes, v: Bytes, start: nat)
    requires start <= |s| && at <= |t| && v != [] && Apart(v, s)
    requires t[at..] == Spliced(s, [], |rep|, v, start)
    ensures Fits(s, [], |rep|, start) && Back(t, at, s, [], rep, v, start)
  {
    hide Apart;
    forall j | at <= j ensures !OccursAt(t, v, j) {
      if j < |t| {
        assert t[j] == t[at..][j - at] == s[start + (j - at)];
        NoneInGap(t, v, s, j);
      }
    }
  }

  lemma RoundSplit(t: Bytes, at: nat, s: Bytes, ms: seq<nat>, rep: Bytes, v: Bytes, start: nat)
    requires start <= |s| && at <= |t| && ms != [] && Fits(s, ms, |rep|, start)
    requires t[at..] == Spliced(s, ms, |rep|, v, start)
    ensures var p := at + (ms[0] - start);
            && p + |v| <= |t|
            && t[at..p] == s[start..ms[0]] && t[p..p + |v|] == v
            && t[p + |v|..] == Spliced(s, ms[1..], |rep|, v, ms[0] + |rep|)
  {
    var p := at + (ms[0] - start);
    var u := Spliced(s, ms[1..], |rep|, v, ms[0] + |rep|);
    var gap := s[start..ms[0]];
    Split3(t, at, gap, v, u);
  }

  lemma Split3(t: Bytes, at: nat, a: Bytes, b: Bytes, c: Bytes)
    requires at <= |t| && t[at..] == a + b + c
    ensures |t| == at + |a| + |b| + |c|
    ensures t[at..at + |a|] == a && t[at + |a|..at + |a| + |b|] == b && t[at + |a| + |b|..] == c
  {
    assert t == t[..at] + (a + b + c);
  }

  lemma RoundBack(t: Bytes, at: nat, s: Bytes, ms: seq<nat>, rep: Bytes, v: Bytes, start: nat)
    requires start <= |s| && at <= |t| && ms != [] && Fits(s, ms, |rep|, start) && v != [] && Apart(v, s)
    requires OccursAt(s, rep, ms[0])
    requires var p := at + (ms[0] - start);
             && p + |v| <= |t| && t[at..p] == s[start..ms[0]] && t[p..p + |v|] == v
             && Back(t, p + |v|, s, ms[1..], rep, v, ms[0] + |rep|)
    ensures Back(t, at, s, ms, rep, v, start)
  {
    hide Leftmost, Apart, Spliced, OccursAt;
    var k := ms[0];
    var p := at + (k - start);
    var rest := Landed(s, ms[1..], |rep|, |v|, k + |rep|, p + |v|);
    LeftmostExtended(t, at, p, s, start, v, rest);
    FitsOf(t, v, rest, p + |v|);
    SplicedExtended(t, at, p, rest, |v|, rep);
    JoinedBack(s, start, k, rep);
  }

  lemma JoinedBack(s: Bytes, start: nat, k: nat, rep: Bytes)
    requires start <= k && OccursAt(s, rep, k)
    ensures s[start..k] + rep + s[k + |rep|..] == s[start..]
  {
  }

  lemma SplicedExtended(t: Bytes, at: nat, p: nat, rest: seq<nat>, len: nat, rep: Bytes)
    requires at <= p && p + len <= |t| && Fits(t, rest, len, p + len)
    ensures Fits(t, [p] + rest, len, at)
    ensures Spliced(t, [p] + rest, len, rep, at) == t[at..p] + rep + Spliced(t, rest, len, rep, p + len)
  {
    assert ([p] + rest)[1..] == rest;
  }

  lemma FitsOf(t: Bytes, v: Bytes, ps: seq<nat>, at: nat)
    requires Leftmost(t, v, ps, at)
    ensures Fits(t, ps, |v|, at)
  {
  }

  /** A copy of `v` behind a stretch it has no byte of goes in front of the
      matches that follow it. */
  lemma LeftmostExtended(t: Bytes, at: nat, p: nat, s: Bytes, start: nat, v: Bytes, rest: seq<nat>)
    requires v != [] && Apart(v, s) && at <= p && p + |v| <= |t| && start + (p - at) <= |s|
    requires t[p..p + |v|] == v && t[at..p] == s[start..start + (p - at)]
    requires Leftmost(t, v, rest, p + |v|)
    ensures Leftmost(t, v, [p] + rest, at)
  {
    hide Apart;
    var ps := [p] + rest;
    assert ps[1..] == rest;
    forall j | at <= j && OccursAt(t, v, j)
      ensures Covered(ps, |v|, j)
    {
      hide OccursAt, Covered;
      if j < p {
        assert t[j] == t[at..p][j - at] == s[start + (j - at)];
        NoneInGap(t, v, s, j);
      }
      CoveredCons(ps, |v|, j);
    }
  }

  /** A replacement by text foreign to the original is undone by the reverse
      replacement. */
  lemma ReplaceBack(s: Bytes, rep: Bytes, v: Bytes)
    requires rep != [] && v != [] && Apart(v, s)
    ensures Replaced(Replaced(s, rep, v), v, rep) == s
  {
    var ms := Matches(s, rep, 0);
    MatchesLeftmost(s, rep, 0);
    var t := Replaced(s, rep, v);
    assert t[0..] == t;
    SplicedBack(t, 0, s, ms, rep, v, 0);
    var ps := Landed(s, ms, |rep|, |v|, 0, 0);
    LeftmostUnique(t, v, ps, 0);
  }

  // ------------------------------------------------------------- elimination

  /** No copy of `rep` reaches into text that shares no byte with it. */
  lemma NoneAcross(a: Bytes, v: Bytes, c: Bytes, rep: Bytes, j: nat)
    requires rep != [] && v != [] && Apart(v, rep) && j < |a| + |v| && |a| < j + |rep|
    ensures !OccursAt(a + v + c, rep, j)
  {
    var u := a + v + c;
    var i := if j < |a| then |a| else j;
    assert u[i] == v[i - |a|];
  }

  lemma {:induction false} SplicedClean(s: Bytes, ms: seq<nat>, rep: Bytes, v: Bytes, start: nat, j: nat)
    requires start <= |s| && rep != [] && v != [] && Apart(v, rep)
    requires Leftmost(s, rep, ms, start)
    ensures !OccursAt(Spliced(s, ms, |rep|, v, start), rep, j)
    decreases |ms|
  {
    hide Apart, OccursAt, Leftmost;
    var end := if ms == [] then |s| else ms[0];
    FitsOf(s, rep, ms, start);
    if start + j + |rep| <= end {
      GapClean(s, ms, rep, v, start, j);
    } else if ms != [] {
      var gap := s[start..end];
      var rest := Spliced(s, ms[1..], |rep|, v, end + |rep|);
      if j < |gap| + |v| {
        NoneAcross(gap, v, rest, rep, j);
      } else {
        LeftmostRest(s, rep, ms, start);
        SplicedClean(s, ms[1..], rep, v, end + |rep|, j - |gap + v|);
        OccursBehind(gap + v, rest, rep, j - |gap + v|);
      }
    } else {
      PastEnd(s[start..], rep, j);
    }
  }

  lemma PastEnd(s: Bytes, rep: Bytes, j: nat)
    requires j + |rep| > |s|
    ensures !OccursAt(s, rep, j)
  {
  }

  lemma OccursBehind(a: Bytes, b: Bytes, rep: Bytes, j: nat)
    ensures OccursAt(a + b, rep, |a| + j) <==> OccursAt(b, rep, j)
  {
    if j + |rep| <= |b| {
      assert (a + b)[|a| + j..|a| + j + |rep|] == b[j..j + |rep|];
    }
  }

  /** What is kept of the original has no copy of `rep` up to the first match. */
  lemma GapClean(s: Bytes, ms: seq<nat>, rep: Bytes, v: Bytes, start: nat, j: nat)
    requires start <= |s| && rep != [] && Leftmost(s, rep, ms, start)
    requires start + j + |rep| <= if ms == [] then |s| else ms[0]
    ensures !OccursAt(Spliced(s, ms, |rep|, v, start), rep, j)
  {
    hide OccursAt, Spliced, Fits, Covered;
    BeforeFirst(s, ms, |rep|, start, start + j);
    GapKept(s, ms, |rep|, v, start);
    var u := Spliced(s, ms, |rep|, v, start);
    var end := if ms == [] then |s| else ms[0];
    SameStretch(u, 0, s, start, end - start, rep, j);
  }

  lemma GapKept(s: Bytes, ms: seq<nat>, len: nat, v: Bytes, start: nat)
    requires start <= |s| && Fits(s, ms, len, start)
    ensures var u := Spliced(s, ms, len, v, start);
            var end := if ms == [] then |s| else ms[0];
            start <= end <= |s| && |u| >= end - start && u[..end - start] == s[start..end]
  {
  }

  lemma SubSlice(t: Bytes, at: nat, n: nat, j: nat, m: nat)
    requires at + n <= |t| && j + m <= n
    ensures t[at..at + n][j..j + m] == t[at + j..at + j + m]
  {
    var u, lo := t[at..at + n], at + j;
    var a, b := u[j..j + m], t[lo..lo + m];
    forall i | 0 <= i < m ensures a[i] == b[i] {
      assert a[i] == u[j + i] == t[at + (j + i)];
    }
  }

  /** Where two texts agree over `n` bytes, so do their occurrences there. */
  lemma SameStretch(t: Bytes, at: nat, s: Bytes, start: nat, n: nat, rep: Bytes, j: nat)
    requires at + n <= |t| && start + n <= |s| && t[at..at + n] == s[start..start + n]
    requires j + |rep| <= n
    ensures OccursAt(t, rep, at + j) <==> OccursAt(s, rep, start + j)
  {
    SubSlice(t, at, n, j, |rep|);
    SubSlice(s, start, n, j, |rep|);
  }

  lemma BeforeFirst(s: Bytes, ms: seq<nat>, len: nat, start: nat, k: nat)
    requires Fits(s, ms, len, start) && (ms != [] ==> k < ms[0])
    ensures !Covered(ms, len, k)
  {
    if Covered(ms, len, k) {
      var i :| 0 <= i < |ms| && ms[i] <= k < ms[i] + len;
      if i > 0 {
        FitsAfter(s, ms[1..], len, ms[0] + len, i - 1);
      }
    }
  }

  /** Text that shares no byte with the searched one leaves no occurrence. */
  lemma ReplaceEliminates(s: Bytes, rep: Bytes, v: Bytes)
    requires rep != [] && v != [] && Apart(v, rep)
    ensures Matches(Replaced(s, rep, v), rep, 0) == []
  {
    MatchesLeftmost(s, rep, 0);
    var k := StrStr(Replaced(s, rep, v), rep, 0);
    if k.Some? {
      SplicedClean(s, Matches(s, rep, 0), rep, v, 0, k.value);
    }
  }

  // ---------------------------------------------------------------- deletion

  ghost predicate OneByte(rep: Bytes) {
    forall i :: 0 <= i < |rep| ==> rep[i] == rep[0]
  }

  /** Before a match of equal bytes stands another byte, or nothing is left of
      the original between this match and the last. */
  lemma GapEndsDifferently(s: Bytes, ms: seq<nat>, rep: Bytes, start: nat)
    requires rep != [] && OneByte(rep) && Leftmost(s, rep, ms, start) && ms != [] && start < ms[0]
    ensures s[ms[0] - 1] != rep[0]
  {
    var k: nat := ms[0] - 1;
    BeforeFirst(s, ms, |rep|, start, k);
    assert OccursAt(s, rep, ms[0]);
    assert !OccursAt(s, rep, k);
    if s[k] == rep[0] {
      forall i | 0 <= i < |rep|
        ensures s[k + i] == rep[i]
      {
        if i > 0 {
          assert s[ms[0]..ms[0] + |rep|][i - 1] == rep[i - 1];
        }
      }
    }
  }

  /** No occurrence of equal bytes takes in a byte that differs from them. */
  lemma NoneOverOther(t: Bytes, rep: Bytes, j: nat, k: nat)
    requires OneByte(rep) && j <= k < j + |rep| && k < |t| && t[k] != rep[0]
    ensures !OccursAt(t, rep, j)
  {
    assert j + |rep| <= |t| ==> t[j..j + |rep|][k - j] == t[k];
  }

  lemma {:induction false} DeletedClean(s: Bytes, ms: seq<nat>, rep: Bytes, start: nat, j: nat)
    requires start <= |s| && rep != [] && OneByte(rep) && Leftmost(s, rep, ms, start)
    ensures !OccursAt(Spliced(s, ms, |rep|, [], start), rep, j)
    decreases |ms|
  {
    hide OccursAt, Leftmost, OneByte;
    var end := if ms == [] then |s| else ms[0];
    FitsOf(s, rep, ms, start);
    if start + j + |rep| <= end {
      GapClean(s, ms, rep, [], start, j);
    } else if ms != [] {
      var gap := s[start..end];
      var rest := Spliced(s, ms[1..], |rep|, [], end + |rep|);
      assert gap + [] + rest == gap + rest;
      if j < |gap| {
        GapEndsDifferently(s, ms, rep, start);
        NoneOverOther(gap + rest, rep, j, |gap| - 1);
      } else {
        LeftmostRest(s, rep, ms, start);
        DeletedClean(s, ms[1..], rep, end + |rep|, j - |gap|);
        OccursBehind(gap, rest, rep, j - |gap|);
      }
    } else {
      PastEnd(s[start..], rep, j);
    }
  }

  /** The text that hides one occurrence around another. */
  function Nested(rep: Bytes): Bytes
    requires rep != []
  {
    rep[..1] + rep + rep[1..]
  }

  lemma {:induction false} ShiftedEqual(rep: Bytes, n: nat)
    requires rep != [] && n < |rep| && OccursAt(Nested(rep), rep, 0)
    ensures rep[n] == rep[0]
  {
    if n > 0 {
      ShiftedEqual(rep, n - 1);
      assert Nested(rep)[0..|rep|][n] == Nested(rep)[n] == rep[n - 1];
    }
  }

  lemma NestedMatches(rep: Bytes)
    requires rep != [] && !OneByte(rep)
    ensures Matches(Nested(rep), rep, 0) == [1]
  {
    var s := Nested(rep);
    if OccursAt(s, rep, 0) {
      forall i | 0 <= i < |rep| ensures rep[i] == rep[0] {
        ShiftedEqual(rep, i);
      }
    }
    assert s[1..1 + |rep|] == rep;
    assert StrStr(s, rep, 0) == Some(1);
    assert Matches(s, rep, 1 + |rep|) == [];
  }

  /** Deleting a text that is not one byte repeated can bring it together again. */
  lemma DeletionLeavesOccurrence(rep: Bytes)
    requires rep != [] && !OneByte(rep)
    ensures Replaced(Nested(rep), rep, []) == rep
    ensures Matches(rep, rep, 0) == [0]
  {
    var s := Nested(rep);
    NestedMatches(rep);
    assert Spliced(s, [], |rep|, [], 1 + |rep|) == rep[1..];
    assert s[0..1] == rep[..1] && [1][1..] == [];
    assert rep[0..|rep|] == rep && StrStr(rep, rep, 0) == Some(0);
    assert StrStr(rep, rep, |rep|) == None;
  }

  /** Deletion leaves no occurrence, whatever the text, exactly if the deleted
      text repeats a single byte. */
  lemma DeletionEliminatesIff(rep: Bytes)
    requires rep != []
    ensures (forall s :: Matches(Replaced(s, rep, []), rep, 0) == []) <==> OneByte(rep)
  {
    if OneByte(rep) {
      forall s
        ensures Matches(Replaced(s, rep, []), rep, 0) == []
      {
        MatchesLeftmost(s, rep, 0);
        var k := StrStr(Replaced(s, rep, []), rep, 0);
        if k.Some? {
          DeletedClean(s, Matches(s, rep, 0), rep, 0, k.value);
        }
      }
    } else {
      DeletionLeavesOccurrence(rep);
      assert Matches(Replaced(Nested(rep), rep, []), rep, 0) != [];
    }
  }
}
