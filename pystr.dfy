/**
 Python's built-in string operations that the wrapper relies on, on `string`
 (= `seq<char>`): `str.split` with an explicit, non-empty separator, and the
 `str.join` that undoes it.
 */
module PyStr {

  /** `w` occurs in `t` starting at index `i`. */
  predicate OccursAt(t: string, w: string, i: nat)
  {
    i + |w| <= |t| && t[i..i + |w|] == w
  }

  /** Python's `w in t`, for a non-empty `w`. */
  predicate Contains(t: string, w: string)
  {
    exists i: nat | i <= |t| :: OccursAt(t, w, i)
  }

  /** Python's `t.endswith(w)`. */
  predicate EndsWith(t: string, w: string)
  {
    |w| <= |t| && t[|t| - |w|..] == w
  }

  /** `w` written `n` times in a row. */
  function Repeat(w: string, n: nat): (r: string)
    ensures |r| == n * |w|
  {
    if n == 0 then "" else w + Repeat(w, n - 1)
  }

  /**
   `t.split(sep)`: cut `t` at every occurrence of `sep`, matching from the left
   and never overlapping two matches. There is always at least one piece, and
   the first piece is the text up to the first cut.
   */
  function Split(t: string, sep: string): (pieces: seq<string>)
    requires sep != []
    ensures |pieces| >= 1
    ensures pieces[0] <= t
    decreases |t|
  {
    if |t| < |sep| then [t]
    else if t[..|sep|] == sep then [""] + Split(t[|sep|..], sep)
    else
      var rest := Split(t[1..], sep);
      [[t[0]] + rest[0]] + rest[1..]
  }

  /** `sep.join(pieces)`: the pieces in order, `sep` between neighbours. */
  function Join(sep: string, pieces: seq<string>): (t: string)
  {
    if |pieces| == 0 then ""
    else if |pieces| == 1 then pieces[0]
    else pieces[0] + sep + Join(sep, pieces[1..])
  }

  /** Joining the pieces of a split with the same separator gives back the text. */
  lemma {:induction false} JoinSplit(t: string, sep: string)
    requires sep != []
    ensures Join(sep, Split(t, sep)) == t
    decreases |t|
  {
    if |t| < |sep| {
    } else if t[..|sep|] == sep {
      var tail := t[|sep|..];
      var ps := [""] + Split(tail, sep);
      assert Split(t, sep) == ps;
      assert ps[1..] == Split(tail, sep);
      JoinSplit(tail, sep);
      assert Join(sep, ps) == "" + sep + tail;
      assert sep + tail == t;
    } else {
      var rest := Split(t[1..], sep);
      JoinSplit(t[1..], sep);
      if |rest| == 1 {
        assert [t[0]] + t[1..] == t;
      } else {
        assert Split(t, sep) == [[t[0]] + rest[0]] + rest[1..];
        JoinPrepend(sep, [t[0]], rest);
        assert [t[0]] + t[1..] == t;
      }
    }
  }

  /** Glueing text to the front of the first piece glues it to the front of the join. */
  lemma JoinPrepend(sep: string, c: string, pieces: seq<string>)
    requires |pieces| >= 1
    ensures Join(sep, [c + pieces[0]] + pieces[1..]) == c + Join(sep, pieces)
  {
    var ps := [c + pieces[0]] + pieces[1..];
    if |pieces| > 1 {
      assert ps[1..] == pieces[1..];
    }
  }

  /** No piece of a split contains the separator. */
  lemma {:induction false} SplitPiecesFree(t: string, sep: string)
    requires sep != []
    ensures forall p | p in Split(t, sep) :: !Contains(p, sep)
    decreases |t|
  {
    if |t| < |sep| {
      assert forall i: nat :: !OccursAt(t, sep, i);
    } else if t[..|sep|] == sep {
      SplitPiecesFree(t[|sep|..], sep);
      assert forall i: nat :: !OccursAt("", sep, i);
    } else {
      var rest := Split(t[1..], sep);
      SplitPiecesFree(t[1..], sep);
      var first := [t[0]] + rest[0];
      assert first <= t;
      assert rest[0] in rest;
      forall i: nat | i <= |first|
        ensures !OccursAt(first, sep, i)
      {
        if i == 0 {
          if |sep| <= |first| {
            assert first[..|sep|] == t[..|sep|];
          }
        } else {
          assert !OccursAt(rest[0], sep, i - 1);
          if i + |sep| <= |first| {
            assert first[i..i + |sep|] == rest[0][i - 1..i - 1 + |sep|];
          }
        }
      }
      assert Split(t, sep) == [first] + rest[1..];
    }
  }

  /** A text without the separator splits into itself alone. */
  lemma {:induction false} SplitNoOccurrence(t: string, sep: string)
    requires sep != []
    requires !Contains(t, sep)
    ensures Split(t, sep) == [t]
    decreases |t|
  {
    if |t| < |sep| {
    } else {
      assert !OccursAt(t, sep, 0);
      forall i: nat | i <= |t| - 1
        ensures !OccursAt(t[1..], sep, i)
      {
        assert !OccursAt(t, sep, i + 1);
        if i + |sep| <= |t| - 1 {
          assert t[1..][i..i + |sep|] == t[i + 1..i + 1 + |sep|];
        }
      }
      SplitNoOccurrence(t[1..], sep);
      assert [t[0]] + t[1..] == t;
    }
  }

  /**
   The first cut is made at the leftmost occurrence of the separator, and the
   rest of the text after it is split the same way.
   */
  lemma {:induction false} SplitLeftmost(t: string, sep: string, i: nat)
    requires sep != []
    requires OccursAt(t, sep, i)
    requires forall j: nat | j < i :: !OccursAt(t, sep, j)
    ensures Split(t, sep) == [t[..i]] + Split(t[i + |sep|..], sep)
    decreases i
  {
    if i == 0 {
      assert t[..|sep|] == sep;
    } else {
      assert !OccursAt(t, sep, 0);
      var u := t[1..];
      assert u[i - 1..i - 1 + |sep|] == t[i..i + |sep|];
      forall j: nat | j < i - 1
        ensures !OccursAt(u, sep, j)
      {
        assert u[j..j + |sep|] == t[j + 1..j + 1 + |sep|];
        assert !OccursAt(t, sep, j + 1);
      }
      SplitLeftmost(u, sep, i - 1);
      assert u[i - 1 + |sep|..] == t[i + |sep|..];
      assert [t[0]] + u[..i - 1] == t[..i];
    }
  }

  /** Splitting `n` separators in a row gives `n + 1` empty pieces. */
  lemma {:induction false} SplitRepeat(sep: string, n: nat)
    requires sep != []
    ensures Split(Repeat(sep, n), sep) == seq(n + 1, _ => "")
  {
    if n > 0 {
      var t := Repeat(sep, n);
      assert t[..|sep|] == sep;
      assert t[|sep|..] == Repeat(sep, n - 1);
      SplitRepeat(sep, n - 1);
    }
  }

  /** Joining only empty pieces gives the separator repeated between them. */
  lemma {:induction false} JoinEmpties(sep: string, pieces: seq<string>)
    requires |pieces| >= 1
    requires forall p | p in pieces :: p == ""
    ensures Join(sep, pieces) == Repeat(sep, |pieces| - 1)
  {
    assert pieces[0] in pieces;
    if |pieces| > 1 {
      assert forall p | p in pieces[1..] :: p in pieces;
      JoinEmpties(sep, pieces[1..]);
      assert Join(sep, pieces) == "" + sep + Join(sep, pieces[1..]);
      assert Repeat(sep, |pieces| - 1) == sep + Repeat(sep, |pieces| - 2);
    }
  }

  /** Followed by `sep`, the piece `p` has no occurrence of `sep` that starts inside `p`. */
  predicate CutsCleanly(p: string, sep: string)
  {
    forall j: nat | j < |p| :: !OccursAt(p + sep, sep, j)
  }

  /**
   Splitting joined pieces gives back exactly the pieces when no occurrence of
   the separator starts inside a piece: neither wholly inside it nor
   straddling it and the separator after it.
   */
  lemma {:induction false} SplitJoin(sep: string, pieces: seq<string>)
    requires sep != [] && |pieces| >= 1
    requires !Contains(pieces[|pieces| - 1], sep)
    requires forall k | 0 <= k < |pieces| - 1 :: CutsCleanly(pieces[k], sep)
    ensures Split(Join(sep, pieces), sep) == pieces
  {
    var p0 := pieces[0];
    if |pieces| == 1 {
      SplitNoOccurrence(p0, sep);
    } else {
      var rest := pieces[1..];
      var t := Join(sep, pieces);
      assert t == p0 + sep + Join(sep, rest);
      assert t[..|p0| + |sep|] == p0 + sep;
      assert CutsCleanly(p0, sep);
      forall j: nat | j < |p0|
        ensures !OccursAt(t, sep, j)
      {
        assert !OccursAt(p0 + sep, sep, j);
        assert t[j..j + |sep|] == (p0 + sep)[j..j + |sep|];
      }
      assert OccursAt(t, sep, |p0|);
      SplitLeftmost(t, sep, |p0|);
      assert t[|p0| + |sep|..] == Join(sep, rest);
      assert t[..|p0|] == p0;
      assert rest[|rest| - 1] == pieces[|pieces| - 1];
      assert forall k | 0 <= k < |rest| - 1 :: rest[k] == pieces[k + 1];
      SplitJoin(sep, rest);
    }
  }
}
