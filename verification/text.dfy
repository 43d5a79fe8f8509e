/** The string operations the components rely on, with JavaScript's semantics:
    `String.prototype.split` on a one-character separator and on a run regex
    (`/[\/]+/`), `Array.prototype.join`, prefix tests, and the ordering that
    `localeCompare` is abstracted to (code-point lexicographic order). */
module Text {

  function Last<T>(xs: seq<T>): T
    requires |xs| > 0
  {
    xs[|xs| - 1]
  }

  predicate StartsWith(s: string, prefix: string) {
    |prefix| <= |s| && s[..|prefix|] == prefix
  }

  /* ---------------------------------------------------------------------- */
  /* split / join on a single character                                      */
  /* ---------------------------------------------------------------------- */

  /** `s.split(sep)`: at least one piece, no piece holds the separator, and
      adjacent separators yield empty pieces ("".split("-") is [""]). */
  function Split(s: string, sep: char): (pieces: seq<string>)
    ensures |pieces| >= 1
    ensures forall i :: 0 <= i < |pieces| ==> sep !in pieces[i]
    ensures sep !in s ==> pieces == [s]
    ensures sep in s ==> |pieces| >= 2
    decreases |s|
  {
    if |s| == 0 then [""]
    else
      var rest := Split(s[1..], sep);
      if s[0] == sep then [""] + rest
      else
        assert sep !in s ==> [s[0]] + s[1..] == s;
        assert sep in s ==> sep in s[1..];
        [[s[0]] + rest[0]] + rest[1..]
  }

  /** `pieces.join(sep)`; the join of no pieces is the empty string. */
  function Join(pieces: seq<string>, sep: string): string
  {
    if |pieces| == 0 then ""
    else if |pieces| == 1 then pieces[0]
    else pieces[0] + sep + Join(pieces[1..], sep)
  }

  /** Pieces and a separator that avoid `c` join into a string that avoids it. */
  lemma {:induction false} JoinAvoids(pieces: seq<string>, sep: string, c: char)
    requires forall i :: 0 <= i < |pieces| ==> c !in pieces[i]
    requires c !in sep
    ensures c !in Join(pieces, sep)
    decreases |pieces|
  {
    if |pieces| > 1 {
      JoinAvoids(pieces[1..], sep, c);
    }
  }

  /** `s` with every occurrence of `c` deleted. */
  function Without(s: string, c: char): (r: string)
    ensures c !in r
    ensures |r| <= |s|
  {
    if |s| == 0 then ""
    else (if s[0] == c then "" else [s[0]]) + Without(s[1..], c)
  }

  /** Prepending text to the first piece prepends it to the join. */
  lemma JoinExtendFirst(h: string, xs: seq<string>, sep: string)
    requires |xs| >= 1
    ensures Join([h + xs[0]] + xs[1..], sep) == h + Join(xs, sep)
  {
    var ys := [h + xs[0]] + xs[1..];
    if |xs| > 1 {
      assert ys[1..] == xs[1..];
    }
  }

  /** Splitting and re-joining with the same separator gives the string back. */
  lemma {:induction false} JoinOfSplit(s: string, c: char)
    ensures Join(Split(s, c), [c]) == s
    decreases |s|
  {
    if |s| > 0 {
      var rest := Split(s[1..], c);
      JoinOfSplit(s[1..], c);
      if s[0] == c {
        assert ([""] + rest)[1..] == rest;
        assert s == [c] + s[1..];
      } else {
        JoinExtendFirst([s[0]], rest, [c]);
        assert s == [s[0]] + s[1..];
      }
    }
  }

  /** A separator-free first piece followed by the separator splits off as one piece. */
  lemma {:induction false} SplitAfterPiece(a: string, t: string, c: char)
    requires c !in a
    ensures Split(a + [c] + t, c) == [a] + Split(t, c)
    decreases |a|
  {
    var s := a + [c] + t;
    if |a| == 0 {
      assert s == [c] + t;
      assert s[1..] == t;
    } else {
      assert s[1..] == a[1..] + [c] + t;
      SplitAfterPiece(a[1..], t, c);
      assert [a[0]] + a[1..] == a;
    }
  }

  /** Joining separator-free pieces and splitting again gives the pieces back. */
  lemma {:induction false} SplitOfJoin(xs: seq<string>, c: char)
    requires |xs| >= 1
    requires forall i :: 0 <= i < |xs| ==> c !in xs[i]
    ensures Split(Join(xs, [c]), c) == xs
    decreases |xs|
  {
    if |xs| > 1 {
      SplitOfJoin(xs[1..], c);
      SplitAfterPiece(xs[0], Join(xs[1..], [c]), c);
      assert [xs[0]] + xs[1..] == xs;
    }
  }

  /** Joining the pieces with no separator deletes the separator from the string. */
  lemma {:induction false} ConcatOfSplit(s: string, c: char)
    ensures Join(Split(s, c), "") == Without(s, c)
    decreases |s|
  {
    if |s| > 0 {
      var rest := Split(s[1..], c);
      ConcatOfSplit(s[1..], c);
      if s[0] == c {
        assert ([""] + rest)[1..] == rest;
      } else {
        JoinExtendFirst([s[0]], rest, "");
      }
    }
  }

  /* ---------------------------------------------------------------------- */
  /* split on runs of one character                                          */
  /* ---------------------------------------------------------------------- */

  /** `s` without its leading run of `c`. */
  function DropLeading(s: string, c: char): (t: string)
    ensures |t| <= |s| && t == s[|s| - |t|..]
    ensures t == [] || t[0] != c
    ensures forall i :: 0 <= i < |s| - |t| ==> s[i] == c
    decreases |s|
  {
    if |s| > 0 && s[0] == c then DropLeading(s[1..], c) else s
  }

  /** `s.split(/c+/)`: pieces separated by maximal runs of `c`. A leading
      run gives an empty first piece and a trailing run an empty last one. */
  function SplitRuns(s: string, c: char): (pieces: seq<string>)
    ensures |pieces| >= 1
    decreases |s|
  {
    if |s| == 0 then [""]
    else if s[0] == c then [""] + SplitRuns(DropLeading(s[1..], c), c)
    else
      var rest := SplitRuns(s[1..], c);
      [[s[0]] + rest[0]] + rest[1..]
  }

  /** No piece of a run split holds `c`; a string without `c` is its own
      single piece, and one with `c` splits into at least two. */
  lemma {:induction false} SplitRunsShape(s: string, c: char)
    ensures forall i :: 0 <= i < |SplitRuns(s, c)| ==> c !in SplitRuns(s, c)[i]
    ensures c !in s ==> SplitRuns(s, c) == [s]
    ensures c in s ==> |SplitRuns(s, c)| >= 2
    decreases |s|
  {
    if |s| > 0 {
      if s[0] == c {
        SplitRunsShape(DropLeading(s[1..], c), c);
        ShapeAfterRun(s, c);
      } else {
        SplitRunsShape(s[1..], c);
        ShapeAfterChar(s, c);
      }
    }
  }

  /** A leading run adds an empty first piece in front of the pieces of the rest. */
  lemma ShapeAfterRun(s: string, c: char)
    requires |s| > 0 && s[0] == c
    requires forall i :: 0 <= i < |SplitRuns(DropLeading(s[1..], c), c)| ==> c !in SplitRuns(DropLeading(s[1..], c), c)[i]
    ensures forall i :: 0 <= i < |SplitRuns(s, c)| ==> c !in SplitRuns(s, c)[i]
    ensures |SplitRuns(s, c)| >= 2
  {
    var rest := SplitRuns(DropLeading(s[1..], c), c);
    var p := SplitRuns(s, c);
    assert p == [""] + rest;
    forall i | 0 <= i < |p| ensures c !in p[i] {
      if i > 0 {
        assert p[i] == rest[i - 1];
        assert c !in rest[i - 1];
      } else {
        assert p[i] == "";
      }
    }
  }

  /** A first character other than `c` joins the first piece of the rest. */
  lemma ShapeAfterChar(s: string, c: char)
    requires |s| > 0 && s[0] != c
    requires forall i :: 0 <= i < |SplitRuns(s[1..], c)| ==> c !in SplitRuns(s[1..], c)[i]
    requires c !in s[1..] ==> SplitRuns(s[1..], c) == [s[1..]]
    requires c in s[1..] ==> |SplitRuns(s[1..], c)| >= 2
    ensures forall i :: 0 <= i < |SplitRuns(s, c)| ==> c !in SplitRuns(s, c)[i]
    ensures c !in s ==> SplitRuns(s, c) == [s]
    ensures c in s ==> |SplitRuns(s, c)| >= 2
  {
    var rest := SplitRuns(s[1..], c);
    var p := SplitRuns(s, c);
    assert p == [[s[0]] + rest[0]] + rest[1..];
    assert c !in s ==> [s[0]] + s[1..] == s;
    assert c in s ==> c in s[1..];
    forall i | 0 <= i < |p| ensures c !in p[i] {
      if i > 0 {
        assert p[i] == rest[i];
      }
    }
  }

  /** `r` is the part of `s` after its last `c`: a suffix of `s` free of `c`
      that is either all of `s` or preceded by a `c`. */
  predicate IsFinalSegment(s: string, c: char, r: string) {
    && |r| <= |s|
    && r == s[|s| - |r|..]
    && c !in r
    && (|r| < |s| ==> s[|s| - |r| - 1] == c)
  }

  /** The text after the last `c` in `s` (all of `s` when it has none),
      computed from the end of the string. */
  function AfterLast(s: string, c: char): (r: string)
    ensures IsFinalSegment(s, c, r)
  {
    if |s| == 0 then ""
    else if s[|s| - 1] == c then ""
    else
      var r := AfterLast(s[..|s| - 1], c) + [s[|s| - 1]];
      assert r == s[|s| - |r|..];
      r
  }

  /** A string has only one final segment. */
  lemma FinalSegmentUnique(s: string, c: char, r1: string, r2: string)
    requires IsFinalSegment(s, c, r1) && IsFinalSegment(s, c, r2)
    ensures r1 == r2
  {
  }

  /** A final segment of a suffix `s[k..]` is one of `s` when it does not start that suffix or a `c` precedes it. */
  lemma FinalSegmentOfSuffix(s: string, c: char, k: nat, r: string)
    requires k <= |s|
    requires IsFinalSegment(s[k..], c, r)
    requires |r| == |s| - k && k > 0 ==> s[k - 1] == c
    ensures IsFinalSegment(s, c, r)
  {
    assert r == s[|s| - |r|..];
    if |r| < |s| - k {
      assert s[|s| - |r| - 1] == s[k..][|s| - k - |r| - 1];
    }
  }

  /** The last piece of a one-character split is the final segment of `s`. */
  lemma {:induction false} LastPieceIsFinal(s: string, c: char)
    ensures IsFinalSegment(s, c, Last(Split(s, c)))
    decreases |s|
  {
    if |s| > 0 {
      var rest := Split(s[1..], c);
      var r := Last(rest);
      assert IsFinalSegment(s[1..], c, r) by {
        LastPieceIsFinal(s[1..], c);
      }
      if s[0] == c {
        assert Last(Split(s, c)) == r by {
          assert Split(s, c) == [""] + rest;
        }
        FinalSegmentOfSuffix(s, c, 1, r);
      } else if |rest| > 1 {
        assert Last(Split(s, c)) == r by {
          assert Split(s, c) == [[s[0]] + rest[0]] + rest[1..];
        }
        assert |r| < |s| - 1 by {
          assert c in s[1..];
        }
        FinalSegmentOfSuffix(s, c, 1, r);
      } else {
        assert Split(s, c) == [s] by {
          assert c !in s[1..];
          assert [s[0]] + s[1..] == s;
        }
      }
    }
  }

  /** Splitting on `c` and taking the last piece is `AfterLast`. */
  lemma LastPiece(s: string, c: char)
    ensures Last(Split(s, c)) == AfterLast(s, c)
  {
    LastPieceIsFinal(s, c);
    FinalSegmentUnique(s, c, Last(Split(s, c)), AfterLast(s, c));
  }

  /** The last piece of a run split is the final segment of `s`. */
  lemma {:induction false} LastRunPieceIsFinal(s: string, c: char)
    ensures IsFinalSegment(s, c, Last(SplitRuns(s, c)))
    decreases |s|
  {
    if |s| == 0 {
      assert SplitRuns(s, c) == [""];
    } else {
      if s[0] == c {
        var t := DropLeading(s[1..], c);
        LastRunPieceIsFinal(t, c);
        LastPieceAfterLeadingRun(s, c);
        FinalAfterLeadingRun(s, c, Last(SplitRuns(t, c)));
      } else {
        LastRunPieceIsFinal(s[1..], c);
        FirstCharStep(s, c);
      }
    }
  }

  lemma LastPieceAfterLeadingRun(s: string, c: char)
    requires |s| > 0 && s[0] == c
    ensures Last(SplitRuns(s, c)) == Last(SplitRuns(DropLeading(s[1..], c), c))
  {
    var rest := SplitRuns(DropLeading(s[1..], c), c);
    assert SplitRuns(s, c) == [""] + rest;
    assert ([""] + rest)[|rest|] == rest[|rest| - 1];
  }

  /** The final segment after a leading run of `c` is the final segment of the whole. */
  lemma FinalAfterLeadingRun(s: string, c: char, r: string)
    requires |s| > 0 && s[0] == c
    requires IsFinalSegment(DropLeading(s[1..], c), c, r)
    ensures IsFinalSegment(s, c, r)
  {
    var t := DropLeading(s[1..], c);
    var k := |s| - |t|;
    assert t == s[k..];
    assert s[k - 1] == c by {
      if k > 1 {
        assert s[k - 1] == s[1..][k - 2];
      }
    }
    FinalSegmentOfSuffix(s, c, k, r);
  }

  /** A first character other than `c` joins the first piece and keeps the last one final. */
  lemma FirstCharStep(s: string, c: char)
    requires |s| > 0 && s[0] != c
    requires IsFinalSegment(s[1..], c, Last(SplitRuns(s[1..], c)))
    ensures IsFinalSegment(s, c, Last(SplitRuns(s, c)))
  {
    var rest := SplitRuns(s[1..], c);
    SplitRunsShape(s[1..], c);
    if |rest| == 1 {
      assert c !in s[1..];
      assert [s[0]] + s[1..] == s;
    } else {
      assert Last(SplitRuns(s, c)) == Last(rest);
      FinalSegmentOfSuffix(s, c, 1, Last(rest));
    }
  }

  /** Splitting on runs of `c` and taking the last piece is `AfterLast`. */
  lemma LastRunPiece(s: string, c: char)
    ensures Last(SplitRuns(s, c)) == AfterLast(s, c)
  {
    LastRunPieceIsFinal(s, c);
    FinalSegmentUnique(s, c, Last(SplitRuns(s, c)), AfterLast(s, c));
  }

  /* ---------------------------------------------------------------------- */
  /* ordering                                                                */
  /* ---------------------------------------------------------------------- */

  /** The sign `a.localeCompare(b)` returns, abstracted to code-point
      lexicographic order: -1, 0 or 1, and 0 exactly on equal strings. */
  function Compare(a: string, b: string): (r: int)
    ensures -1 <= r <= 1
    ensures r == 0 <==> a == b
  {
    if |a| == 0 && |b| == 0 then 0
    else if |a| == 0 then -1
    else if |b| == 0 then 1
    else if a[0] < b[0] then -1
    else if a[0] > b[0] then 1
    else
      var r := Compare(a[1..], b[1..]);
      assert r == 0 ==> a == [a[0]] + a[1..] == [b[0]] + b[1..] == b;
      r
  }

  /** Swapping the operands negates the comparison. */
  lemma {:induction false} CompareAntisymmetric(a: string, b: string)
    ensures Compare(a, b) == -Compare(b, a)
    decreases |a|
  {
    if |a| > 0 && |b| > 0 && a[0] == b[0] {
      CompareAntisymmetric(a[1..], b[1..]);
    }
  }

  /** The order is transitive. */
  lemma {:induction false} CompareTransitive(a: string, b: string, c: string)
    requires Compare(a, b) <= 0 && Compare(b, c) <= 0
    ensures Compare(a, c) <= 0
    decreases |a|
  {
    if |a| > 0 && |b| > 0 && |c| > 0 && a[0] == b[0] == c[0] {
      CompareTransitive(a[1..], b[1..], c[1..]);
    }
  }
}
