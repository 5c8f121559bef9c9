/**
 * Python's `str.split(sep)` and `sep.join(pieces)` for a one-character
 * separator, the two string operations the output-name expressions use.
 */
module PyText {

  import opened Wrappers

  /**
   * `s.split(c)`: the maximal runs of non-`c` characters, including the empty
   * runs before a leading, after a trailing, and between adjacent separators.
   * There is always at least one piece (`SplitPieces` says more).
   */
  function SplitOn(s: string, c: char): (pieces: seq<string>)
    ensures |pieces| >= 1
    decreases |s|
  {
    if |s| == 0 then [""]
    else
      assert s == [s[0]] + s[1..];
      var rest := SplitOn(s[1..], c);
      if s[0] == c then [""] + rest
      else [[s[0]] + rest[0]] + rest[1..]
  }

  /** `c.join(pieces)`: the pieces with one `c` between each pair of neighbours. */
  function JoinWith(pieces: seq<string>, c: char): (s: string)
    ensures |pieces| == 1 ==> s == pieces[0]
    ensures |pieces| == 0 ==> s == ""
    decreases |pieces|
  {
    if |pieces| == 0 then ""
    else if |pieces| == 1 then pieces[0]
    else pieces[0] + [c] + JoinWith(pieces[1..], c)
  }

  /** One step of `SplitOn` on a string written as a first character and a rest. */
  lemma SplitCons(x: char, t: string, c: char)
    ensures SplitOn([x] + t, c)
         == if x == c then [""] + SplitOn(t, c)
            else [[x] + SplitOn(t, c)[0]] + SplitOn(t, c)[1..]
  {
    assert ([x] + t)[1..] == t;
  }

  /** Prepending a character to the first piece prepends it to the joined text. */
  lemma {:induction false} JoinConsFirst(x: char, pieces: seq<string>, c: char)
    requires |pieces| >= 1
    ensures JoinWith([[x] + pieces[0]] + pieces[1..], c) == [x] + JoinWith(pieces, c)
  {
    var ps' := [[x] + pieces[0]] + pieces[1..];
    if |pieces| > 1 {
      assert ps'[1..] == pieces[1..];
    }
  }

  /** Prepending a separator adds an empty first piece. */
  lemma JoinConsEmpty(pieces: seq<string>, c: char)
    requires |pieces| >= 1
    ensures JoinWith([""] + pieces, c) == [c] + JoinWith(pieces, c)
  {
    assert ([""] + pieces)[1..] == pieces;
  }

  /**
   * No piece contains the separator, and there is more than one piece
   * exactly when `s` contains a separator.
   */
  lemma {:induction false} SplitPieces(s: string, c: char)
    ensures forall k :: 0 <= k < |SplitOn(s, c)| ==> c !in SplitOn(s, c)[k]
    ensures |SplitOn(s, c)| == 1 <==> c !in s
    decreases |s|
  {
    if |s| > 0 {
      var t := s[1..];
      assert s == [s[0]] + t;
      SplitCons(s[0], t, c);
      SplitPieces(t, c);
      var rt := SplitOn(t, c);
      if s[0] != c {
        assert c !in [s[0]] + rt[0];
      }
    }
  }

  /** Joining undoes splitting: `c.join(s.split(c)) == s`. */
  lemma {:induction false} JoinSplit(s: string, c: char)
    ensures JoinWith(SplitOn(s, c), c) == s
    decreases |s|
  {
    if |s| > 0 {
      var t := s[1..];
      assert s == [s[0]] + t;
      SplitCons(s[0], t, c);
      JoinSplit(t, c);
      if s[0] == c {
        JoinConsEmpty(SplitOn(t, c), c);
      } else {
        JoinConsFirst(s[0], SplitOn(t, c), c);
      }
    }
  }

  /** Extending the first piece of a concatenation extends the first piece of its left part. */
  lemma ConsFirstOfConcat(x: char, ra: seq<string>, rb: seq<string>)
    requires |ra| >= 1
    ensures [[x] + (ra + rb)[0]] + (ra + rb)[1..] == ([[x] + ra[0]] + ra[1..]) + rb
  {
    assert (ra + rb)[0] == ra[0];
    assert (ra + rb)[1..] == ra[1..] + rb;
  }

  /** The inductive step of `SplitAround`: one more leading character. */
  lemma SplitAroundStep(x: char, t: string, b: string, c: char)
    requires SplitOn(t + [c] + b, c) == SplitOn(t, c) + SplitOn(b, c)
    ensures SplitOn([x] + (t + [c] + b), c) == SplitOn([x] + t, c) + SplitOn(b, c)
  {
    var ra, rb := SplitOn(t, c), SplitOn(b, c);
    SplitCons(x, t, c);
    SplitCons(x, t + [c] + b, c);
    if x != c {
      ConsFirstOfConcat(x, ra, rb);
    } else {
      assert [""] + (ra + rb) == ([""] + ra) + rb;
    }
  }

  /** Splitting at a separator concatenates the pieces of either side. */
  lemma {:induction false} SplitAround(a: string, b: string, c: char)
    ensures SplitOn(a + [c] + b, c) == SplitOn(a, c) + SplitOn(b, c)
    decreases |a|
  {
    if |a| == 0 {
      assert a + [c] + b == [c] + b;
      SplitCons(c, b, c);
    } else {
      var t := a[1..];
      assert a == [a[0]] + t;
      assert a + [c] + b == [a[0]] + (t + [c] + b);
      SplitAround(t, b, c);
      SplitAroundStep(a[0], t, b, c);
    }
  }

  /** A separator-free string splits into itself alone. */
  lemma {:induction false} SplitFree(s: string, c: char)
    requires c !in s
    ensures SplitOn(s, c) == [s]
  {
    SplitPieces(s, c);
    JoinSplit(s, c);
  }

  /** Splitting undoes joining of at least one separator-free piece. */
  lemma {:induction false} SplitJoin(pieces: seq<string>, c: char)
    requires |pieces| >= 1
    requires forall k :: 0 <= k < |pieces| ==> c !in pieces[k]
    ensures SplitOn(JoinWith(pieces, c), c) == pieces
    decreases |pieces|
  {
    SplitFree(pieces[0], c);
    if |pieces| > 1 {
      assert forall k :: 0 <= k < |pieces| - 1 ==> pieces[1..][k] == pieces[k + 1];
      SplitJoin(pieces[1..], c);
      SplitAround(pieces[0], JoinWith(pieces[1..], c), c);
    }
  }

  /** Joining all pieces is joining all but the last, a separator, and the last. */
  lemma {:induction false} JoinSnoc(pieces: seq<string>, c: char)
    requires |pieces| >= 2
    ensures JoinWith(pieces, c)
         == JoinWith(pieces[..|pieces| - 1], c) + [c] + pieces[|pieces| - 1]
    decreases |pieces|
  {
    var n := |pieces|;
    if n > 2 {
      JoinSnoc(pieces[1..], c);
      assert pieces[1..][..n - 2] == pieces[..n - 1][1..];
    } else {
      assert pieces[..n - 1] == [pieces[0]];
    }
  }

  /**
   * Position of the rightmost `c` in `s`, if any: an independent description
   * of where the text after the last separator starts.
   */
  function LastIndexOf(s: string, c: char): (r: Option<nat>)
    ensures r.Some? ==> r.value < |s| && s[r.value] == c
    ensures r.Some? ==> forall j :: r.value < j < |s| ==> s[j] != c
    ensures r.None? <==> c !in s
    decreases |s|
  {
    if |s| == 0 then None
    else if s[|s| - 1] == c then Some(|s| - 1)
    else
      assert s == s[..|s| - 1] + [s[|s| - 1]];
      LastIndexOf(s[..|s| - 1], c)
  }
}
