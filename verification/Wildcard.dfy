/** The wildcard matcher shared by the rules engine and the per-user policy. */
module Wildcard {
  import opened Text

  /** What one pattern character takes: `*` any segment, `?` one character, a literal itself. */
  predicate Takes(c: char, segment: string) {
    c == '*' || (|segment| == 1 && (c == '?' || segment[0] == c))
  }

  /** Piece `k`, between cuts `k` and `k + 1`, is taken by pattern character `k`. */
  ghost predicate Piece(cuts: seq<nat>, s: string, p: string, k: nat)
    requires k + 1 < |cuts| && k < |p|
  {
    cuts[k] <= cuts[k + 1] <= |s| && Takes(p[k], s[cuts[k]..cuts[k + 1]])
  }

  /** `cuts` splits the first `i` characters of `s` into one segment per character of `p[..j]`. */
  ghost predicate CutsFor(cuts: seq<nat>, s: string, p: string, i: nat, j: nat)
    requires i <= |s| && j <= |p|
  {
    && |cuts| == j + 1
    && cuts[0] == 0 && cuts[j] == i
    && forall k | 0 <= k < j :: Piece(cuts, s, p, k)
  }

  ghost predicate PrefixMatches(s: string, p: string, i: nat, j: nat)
    requires i <= |s| && j <= |p|
  {
    exists cuts :: CutsFor(cuts, s, p, i, j)
  }

  /** The meaning of a pattern: the string splits into one segment per pattern character. */
  ghost predicate Matches(s: string, p: string) {
    PrefixMatches(s, p, |s|, |p|)
  }

  /** The recurrence behind cell (i, j) of the lookup table. */
  predicate Cell(s: string, p: string, i: nat, j: nat)
    requires i <= |s| && j <= |p|
    decreases i + j
  {
    if j == 0 then i == 0
    else if p[j - 1] == '*' then Cell(s, p, i, j - 1) || (i > 0 && Cell(s, p, i - 1, j))
    else i > 0 && (p[j - 1] == '?' || s[i - 1] == p[j - 1]) && Cell(s, p, i - 1, j - 1)
  }

  predicate Accepts(s: string, p: string) {
    Cell(s, p, |s|, |p|)
  }

  /** Fills the lookup table bottom-up. */
  method WildcardPatternMatch(s: string, p: string) returns (matched: bool)
    ensures matched == Accepts(s, p)
    ensures matched <==> Matches(s, p)
  {
    AcceptsIffMatches(s, p);
    if |p| == 0 {
      return |s| == 0;
    }
    var lookup := new bool[|s| + 1, |p| + 1]((_, _) => false);
    lookup[0, 0] := true;
    for j := 1 to |p| + 1
      invariant forall k {:trigger lookup[0, k]} | 0 <= k < j :: lookup[0, k] == Cell(s, p, 0, k)
      invariant forall i, k | 0 <= i <= |s| && 0 <= k <= |p| && (i > 0 || k >= j) :: !lookup[i, k]
    {
      if p[j - 1] == '*' {
        lookup[0, j] := lookup[0, j - 1];
      }
    }
    for i := 1 to |s| + 1
      invariant forall h, k {:trigger lookup[h, k]} | 0 <= h < i && 0 <= k <= |p| :: lookup[h, k] == Cell(s, p, h, k)
      invariant forall h, k | i <= h <= |s| && 0 <= k <= |p| :: !lookup[h, k]
    {
      for j := 1 to |p| + 1
        invariant forall h, k {:trigger lookup[h, k]} | 0 <= h < i && 0 <= k <= |p| :: lookup[h, k] == Cell(s, p, h, k)
        invariant forall k {:trigger lookup[i, k]} | 0 <= k < j :: lookup[i, k] == Cell(s, p, i, k)
        invariant forall h, k | i < h <= |s| && 0 <= k <= |p| :: !lookup[h, k]
      {
        if p[j - 1] == '*' {
          lookup[i, j] := lookup[i, j - 1] || lookup[i - 1, j];
        } else if p[j - 1] == '?' || s[i - 1] == p[j - 1] {
          lookup[i, j] := lookup[i - 1, j - 1];
        } else {
          lookup[i, j] := false;
        }
      }
    }
    return lookup[|s|, |p|];
  }

  /** The table recurrence computes exactly the declarative meaning. */
  lemma AcceptsIffMatches(s: string, p: string)
    ensures Accepts(s, p) <==> Matches(s, p)
  {
    if Accepts(s, p) {
      var cuts := CellHasCuts(s, p, |s|, |p|);
    }
    if Matches(s, p) {
      var cuts :| CutsFor(cuts, s, p, |s|, |p|);
      CutsMakeCell(cuts, s, p, |s|, |p|);
    }
  }

  lemma Extended(before: seq<nat>, s: string, p: string, i: nat, j: nat, end: nat) returns (cuts: seq<nat>)
    requires i <= end <= |s| && j < |p| && CutsFor(before, s, p, i, j)
    requires Takes(p[j], s[i..end])
    ensures CutsFor(cuts, s, p, end, j + 1)
  {
    cuts := before + [end];
    forall k | 0 <= k < j + 1 ensures Piece(cuts, s, p, k) {
      assert k < j ==> Piece(before, s, p, k);
    }
  }

  lemma {:induction false} CellHasCuts(s: string, p: string, i: nat, j: nat) returns (cuts: seq<nat>)
    requires i <= |s| && j <= |p| && Cell(s, p, i, j)
    ensures CutsFor(cuts, s, p, i, j)
    decreases i + j
  {
    if j == 0 {
      cuts := [0];
    } else if p[j - 1] == '*' && Cell(s, p, i, j - 1) {
      var before := CellHasCuts(s, p, i, j - 1);
      cuts := Extended(before, s, p, i, j - 1, i);
    } else if p[j - 1] == '*' {
      var before := CellHasCuts(s, p, i - 1, j);
      cuts := before[j := i];
      forall k | 0 <= k < j ensures Piece(cuts, s, p, k) {
        assert Piece(before, s, p, k);
      }
    } else {
      var before := CellHasCuts(s, p, i - 1, j - 1);
      cuts := Extended(before, s, p, i - 1, j - 1, i);
    }
  }

  lemma PrefixCuts(cuts: seq<nat>, s: string, p: string, i: nat, j: nat, h: nat)
    requires i <= |s| && h <= j <= |p| && CutsFor(cuts, s, p, i, j)
    ensures cuts[h] <= |s| && CutsFor(cuts[..h + 1], s, p, cuts[h], h)
  {
    assert h < j ==> Piece(cuts, s, p, h);
    var front := cuts[..h + 1];
    forall k | 0 <= k < h ensures Piece(front, s, p, k) {
      assert Piece(cuts, s, p, k);
    }
  }

  lemma {:induction false} CutsMakeCell(cuts: seq<nat>, s: string, p: string, i: nat, j: nat)
    requires i <= |s| && j <= |p| && CutsFor(cuts, s, p, i, j)
    ensures Cell(s, p, i, j)
    decreases i + j
  {
    if j > 0 {
      var start := cuts[j - 1];
      assert Piece(cuts, s, p, j - 1);
      if start < i && p[j - 1] == '*' {
        var shorter := cuts[j := i - 1];
        forall k | 0 <= k < j ensures Piece(shorter, s, p, k) {
          assert Piece(cuts, s, p, k);
        }
        CutsMakeCell(shorter, s, p, i - 1, j);
      } else {
        PrefixCuts(cuts, s, p, i, j, j - 1);
        CutsMakeCell(cuts[..j], s, p, start, j - 1);
      }
    }
  }

  lemma {:induction false} CutsMonotone(cuts: seq<nat>, s: string, p: string, i: nat, j: nat, k: nat)
    requires i <= |s| && k <= j <= |p| && CutsFor(cuts, s, p, i, j)
    ensures cuts[k] <= i
    decreases j - k
  {
    if k < j {
      assert Piece(cuts, s, p, k);
      CutsMonotone(cuts, s, p, i, j, k + 1);
    }
  }

  /** Patterns compose: matching a concatenation is matching some split of the string. */
  lemma MatchesConcatenation(s: string, p1: string, p2: string)
    ensures Matches(s, p1 + p2) <==>
            exists k :: 0 <= k <= |s| && Matches(s[..k], p1) && Matches(s[k..], p2)
  {
    if Matches(s, p1 + p2) {
      var k := SplitMatch(s, p1, p2);
    }
    if exists k :: 0 <= k <= |s| && Matches(s[..k], p1) && Matches(s[k..], p2) {
      var k :| 0 <= k <= |s| && Matches(s[..k], p1) && Matches(s[k..], p2);
      JoinMatches(s, p1, p2, k);
    }
  }

  lemma SplitMatch(s: string, p1: string, p2: string) returns (k: nat)
    requires Matches(s, p1 + p2)
    ensures k <= |s| && Matches(s[..k], p1) && Matches(s[k..], p2)
  {
    var n, p := |p1|, p1 + p2;
    var cuts :| CutsFor(cuts, s, p, |s|, |p|);
    k := cuts[n];
    forall h | 0 <= h <= |p| ensures cuts[h] <= |s| {
      CutsMonotone(cuts, s, p, |s|, |p|, h);
    }
    forall h | 0 <= h <= n ensures cuts[h] <= k {
      PrefixCuts(cuts, s, p, |s|, |p|, n);
      CutsMonotone(cuts[..n + 1], s, p, k, n, h);
    }
    forall h | n <= h < |cuts| ensures k <= cuts[h] {
      PrefixCuts(cuts, s, p, |s|, |p|, h);
      CutsMonotone(cuts[..h + 1], s, p, cuts[h], h, n);
    }
    LeftCuts(cuts, s, p1, p2, k);
    RightCuts(cuts, s, p1, p2, k);
  }

  lemma LeftCuts(cuts: seq<nat>, s: string, p1: string, p2: string, k: nat)
    requires CutsFor(cuts, s, p1 + p2, |s|, |p1 + p2|)
    requires k == cuts[|p1|] <= |s| && forall h | 0 <= h <= |p1| :: cuts[h] <= k
    ensures Matches(s[..k], p1)
  {
    var left := cuts[..|p1| + 1];
    forall h | 0 <= h < |p1| ensures Piece(left, s[..k], p1, h) {
      assert Piece(cuts, s, p1 + p2, h) && cuts[h + 1] <= k;
      assert s[..k][cuts[h]..cuts[h + 1]] == s[cuts[h]..cuts[h + 1]];
      assert (p1 + p2)[h] == p1[h];
    }
    assert CutsFor(left, s[..k], p1, k, |p1|);
  }

  /** The cuts from position `n` on, counted from `k`. */
  ghost function Shifted(cuts: seq<nat>, n: nat, k: nat): (r: seq<nat>)
    requires n <= |cuts| && forall h | n <= h < |cuts| :: k <= cuts[h]
    ensures |r| == |cuts| - n && forall h | 0 <= h < |r| :: r[h] + k == cuts[n + h]
  {
    seq(|cuts| - n, h requires 0 <= h < |cuts| - n => cuts[n + h] - k)
  }

  lemma RightCut(cuts: seq<nat>, s: string, p1: string, p2: string, k: nat, h: nat)
    requires CutsFor(cuts, s, p1 + p2, |s|, |p1 + p2|)
    requires k <= |s| && h < |p2| && k <= cuts[|p1| + h]
    ensures k <= cuts[|p1| + h] <= cuts[|p1| + h + 1] <= |s|
    ensures Takes(p2[h], s[k..][cuts[|p1| + h] - k..cuts[|p1| + h + 1] - k])
  {
    assert Piece(cuts, s, p1 + p2, |p1| + h);
    var a, b := cuts[|p1| + h], cuts[|p1| + h + 1];
    assert (p1 + p2)[|p1| + h] == p2[h];
    assert s[k..][a - k..b - k] == s[a..b];
  }

  lemma RightCuts(cuts: seq<nat>, s: string, p1: string, p2: string, k: nat)
    requires CutsFor(cuts, s, p1 + p2, |s|, |p1 + p2|)
    requires k == cuts[|p1|] <= |s|
    requires forall h | |p1| <= h < |cuts| :: k <= cuts[h]
    ensures Matches(s[k..], p2)
  {
    var right := Shifted(cuts, |p1|, k);
    forall h | 0 <= h < |p2| ensures Piece(right, s[k..], p2, h) {
      RightCut(cuts, s, p1, p2, k, h);
    }
    assert CutsFor(right, s[k..], p2, |s[k..]|, |p2|);
  }

  /** The cuts of both halves, the right ones moved by `k`. */
  ghost function Glued(left: seq<nat>, right: seq<nat>, k: nat): (r: seq<nat>)
    requires |left| > 0 && |right| > 0 && left[|left| - 1] == k && right[0] == 0
    ensures |r| == |left| + |right| - 1
    ensures forall h | 0 <= h < |left| :: r[h] == left[h]
    ensures forall h | |left| - 1 <= h < |r| :: r[h] == k + right[h - |left| + 1]
  {
    seq(|left| + |right| - 1, h requires 0 <= h < |left| + |right| - 1 =>
      if h < |left| then left[h] else k + right[h - |left| + 1])
  }

  lemma GluedCut(left: seq<nat>, right: seq<nat>, s: string, p1: string, p2: string, k: nat, h: nat)
    requires k <= |s| && h < |p1 + p2|
    requires CutsFor(left, s[..k], p1, k, |p1|) && CutsFor(right, s[k..], p2, |s| - k, |p2|)
    ensures Piece(Glued(left, right, k), s, p1 + p2, h)
  {
    var cuts := Glued(left, right, k);
    if h < |p1| {
      assert Piece(left, s[..k], p1, h);
      assert s[..k][left[h]..left[h + 1]] == s[cuts[h]..cuts[h + 1]];
    } else {
      var g := h - |p1|;
      assert Piece(right, s[k..], p2, g);
      assert s[k..][right[g]..right[g + 1]] == s[cuts[h]..cuts[h + 1]];
    }
  }

  lemma JoinMatches(s: string, p1: string, p2: string, k: nat)
    requires k <= |s| && Matches(s[..k], p1) && Matches(s[k..], p2)
    ensures Matches(s, p1 + p2)
  {
    var p := p1 + p2;
    var left :| CutsFor(left, s[..k], p1, k, |p1|);
    var right :| CutsFor(right, s[k..], p2, |s| - k, |p2|);
    var cuts := Glued(left, right, k);
    forall h | 0 <= h < |p| ensures Piece(cuts, s, p, h) {
      GluedCut(left, right, s, p1, p2, k, h);
    }
    assert CutsFor(cuts, s, p, |s|, |p|);
  }

  predicate WildcardFree(p: string) {
    !Contains(p, '*') && !Contains(p, '?')
  }

  /** Any text, read as a pattern, matches itself, wildcards included. */
  lemma AcceptsItself(s: string)
    ensures Accepts(s, s)
  {
    CellDiagonal(s, |s|);
  }

  lemma {:induction false} CellDiagonal(s: string, i: nat)
    requires i <= |s|
    ensures Cell(s, s, i, i)
  {
    if i > 0 {
      CellDiagonal(s, i - 1);
    }
  }

  /** A pattern without wildcards is an exact name. */
  lemma LiteralMatchesOnlyItself(s: string, p: string)
    requires WildcardFree(p)
    ensures Accepts(s, p) <==> s == p
  {
    LiteralCell(s, p, |s|, |p|);
    assert s[..|s|] == s && p[..|p|] == p;
  }

  lemma {:induction false} LiteralCell(s: string, p: string, i: nat, j: nat)
    requires i <= |s| && j <= |p| && WildcardFree(p)
    ensures Cell(s, p, i, j) <==> s[..i] == p[..j]
    decreases j
  {
    if j > 0 {
      assert p[j - 1] != '*' && p[j - 1] != '?';
      if i > 0 {
        LiteralCell(s, p, i - 1, j - 1);
        assert s[..i] == s[..i - 1] + [s[i - 1]] && p[..j] == p[..j - 1] + [p[j - 1]];
      }
    }
  }

  /** Each character of a matching pattern that is not `*` uses up one character of the string. */
  lemma NonStarsFit(s: string, p: string)
    requires Accepts(s, p)
    ensures |p| - Count(p, '*') <= |s|
    ensures Count(p, '*') == 0 ==> |p| == |s|
  {
    NonStarsFitCell(s, p, |s|, |p|);
    assert p[..|p|] == p;
  }

  lemma {:induction false} NonStarsFitCell(s: string, p: string, i: nat, j: nat)
    requires i <= |s| && j <= |p| && Cell(s, p, i, j)
    ensures j - Count(p[..j], '*') <= i
    ensures Count(p[..j], '*') == 0 ==> j == i
    decreases i + j
  {
    if j > 0 {
      assert p[..j][..j - 1] == p[..j - 1];
      if p[j - 1] == '*' && Cell(s, p, i, j - 1) {
        NonStarsFitCell(s, p, i, j - 1);
      } else if p[j - 1] == '*' {
        NonStarsFitCell(s, p, i - 1, j);
      } else {
        NonStarsFitCell(s, p, i - 1, j - 1);
      }
    }
  }
}
