/** Which pattern wins: scores, their order and the stable sort that picks the first (internal/rules/rulesengine.go). */
module Precedence {
  import opened Text

  datatype Score = Score(exact: bool, wildcards: nat, length: nat, pattern: string)

  function ScorePattern(pattern: string, exact: bool): Score {
    Score(exact, Count(pattern, '*') + Count(pattern, '?'), |pattern|, pattern)
  }

  predicate CompareScore(a: Score, b: Score) {
    if a.exact != b.exact then a.exact
    else if a.wildcards != b.wildcards then a.wildcards < b.wildcards
    else if a.length != b.length then a.length > b.length
    else false
  }

  /** More specific first: exact, then fewer wildcards, then longer, then alphabetical. */
  predicate Before(a: Score, b: Score) {
    if a.exact != b.exact then a.exact
    else if a.wildcards != b.wildcards then a.wildcards < b.wildcards
    else if a.length != b.length then a.length > b.length
    else LexLess(a.pattern, b.pattern)
  }

  /** The comparator of pickBestDomain, written with CompareScore, is the one of pickBestHost. */
  lemma DomainComparatorIsBefore(a: Score, b: Score)
    ensures (if CompareScore(a, b) then true else if CompareScore(b, a) then false else LexLess(a.pattern, b.pattern))
            == Before(a, b)
  {
  }

  /** A strict weak order in which only equal pattern texts tie. */
  lemma BeforeIsStrictWeakOrder(a: Score, b: Score, c: Score)
    ensures !(Before(a, b) && Before(b, a))
    ensures Before(a, b) && Before(b, c) ==> Before(a, c)
    ensures !Before(a, b) && !Before(b, a) ==> a.pattern == b.pattern
    ensures !Before(a, b) && !Before(b, a) && !Before(b, c) && !Before(c, b) ==> !Before(a, c) && !Before(c, a)
  {
    LexLessTrichotomy(a.pattern, b.pattern);
    LexLessTrichotomy(b.pattern, c.pattern);
    LexLessTrichotomy(a.pattern, c.pattern);
    if LexLess(a.pattern, b.pattern) && LexLess(b.pattern, c.pattern) {
      LexLessTransitive(a.pattern, b.pattern, c.pattern);
    }
  }

  // --- The sort ---------------------------------------------------------------------------------

  /** A matching entry: its score and its place in the configured list. */
  datatype Candidate = Candidate(score: Score, index: nat)

  /** Sorted and stable: ties keep the configured order. */
  predicate Ahead(a: Candidate, b: Candidate) {
    Before(a.score, b.score) || (!Before(b.score, a.score) && a.index < b.index)
  }

  lemma AheadIsTransitive(a: Candidate, b: Candidate, c: Candidate)
    requires Ahead(a, b) && Ahead(b, c)
    ensures Ahead(a, c)
  {
    BeforeIsStrictWeakOrder(a.score, b.score, c.score);
    BeforeIsStrictWeakOrder(b.score, c.score, a.score);
    BeforeIsStrictWeakOrder(c.score, a.score, b.score);
  }

  lemma AheadIsTotal(a: Candidate, b: Candidate)
    ensures a.index != b.index ==> Ahead(a, b) || Ahead(b, a)
    ensures !(Ahead(a, b) && Ahead(b, a))
  {
    BeforeIsStrictWeakOrder(a.score, b.score, a.score);
  }

  predicate Ordered(s: seq<Candidate>) {
    forall i, j | 0 <= i < j < |s| :: Ahead(s[i], s[j])
  }

  /** Candidates come in list order. */
  predicate InListOrder(s: seq<Candidate>) {
    forall i, j | 0 <= i < j < |s| :: s[i].index < s[j].index
  }

  /** The best of the candidates, found in one pass. */
  function Best(s: seq<Candidate>): Option<Candidate> {
    if s == [] then None
    else
      var n := |s| - 1;
      match Best(s[..n])
      case None => Some(s[n])
      case Some(b) => if Ahead(s[n], b) then Some(s[n]) else Some(b)
  }

  /** The best candidate is in the list and ahead of every other one. */
  ghost predicate IsBest(c: Candidate, s: seq<Candidate>) {
    c in s && forall d | d in s && d != c :: Ahead(c, d)
  }

  lemma {:induction false} BestIsBest(s: seq<Candidate>)
    requires forall c, d | c in s && d in s && c != d :: c.index != d.index
    ensures Best(s).None? <==> s == []
    ensures s != [] ==> IsBest(Best(s).value, s)
  {
    if s != [] {
      var n := |s| - 1;
      var init := s[..n];
      assert s == init + [s[n]];
      BestIsBest(init);
      if init != [] {
        var b := Best(init).value;
        AheadIsTotal(s[n], b);
        forall d | d in init && d != b ensures Ahead(s[n], b) ==> Ahead(s[n], d) {
          if Ahead(s[n], b) {
            AheadIsTransitive(s[n], b, d);
          }
        }
      }
    }
  }

  lemma BestIsUnique(c: Candidate, s: seq<Candidate>)
    requires forall c, d | c in s && d in s && c != d :: c.index != d.index
    requires IsBest(c, s)
    ensures Best(s) == Some(c)
  {
    BestIsBest(s);
    var b := Best(s).value;
    AheadIsTotal(b, c);
  }

  /** Where one more candidate goes: from the right, past everything it comes strictly before. */
  function Insert(s: seq<Candidate>, c: Candidate): (r: seq<Candidate>)
    ensures |r| == |s| + 1
  {
    if s == [] || !Before(c.score, s[|s| - 1].score) then s + [c]
    else Insert(s[..|s| - 1], c) + [s[|s| - 1]]
  }

  function StableSorted(s: seq<Candidate>): (r: seq<Candidate>)
    ensures |r| == |s|
  {
    if s == [] then [] else Insert(StableSorted(s[..|s| - 1]), s[|s| - 1])
  }

  /** Inserting stops at the last place whose left neighbour does not give way. */
  lemma {:induction false} InsertStops(s: seq<Candidate>, c: Candidate, j: nat)
    requires j <= |s| && (j > 0 ==> !Before(c.score, s[j - 1].score))
    requires forall k | j <= k < |s| :: Before(c.score, s[k].score)
    ensures Insert(s, c) == s[..j] + [c] + s[j..]
  {
    var n := |s| - 1;
    if j <= n {
      InsertStops(s[..n], c, j);
      assert s[..n][..j] == s[..j] && s[..n][j..] + [s[n]] == s[j..];
    } else {
      assert s[..j] == s && s[j..] == [];
    }
  }

  /** Element `i` inserted into what is before it. */
  function Moved(s: seq<Candidate>, i: nat): seq<Candidate>
    requires i < |s|
  {
    Insert(s[..i], s[i]) + s[i + 1..]
  }

  /** `c` on its way left through `s`. */
  function Passing(s: seq<Candidate>, c: Candidate, j: nat, rest: seq<Candidate>): seq<Candidate>
    requires j <= |s|
  {
    s[..j] + [c] + s[j..] + rest
  }

  lemma SwapPasses(s: seq<Candidate>, c: Candidate, j: nat, rest: seq<Candidate>)
    requires 0 < j <= |s|
    ensures Passing(s, c, j, rest)[j - 1] == s[j - 1] && Passing(s, c, j, rest)[j] == c
    ensures Passing(s, c, j - 1, rest) == Passing(s, c, j, rest)[j := s[j - 1]][j - 1 := c]
  {
    assert s[..j] == s[..j - 1] + [s[j - 1]] && s[j - 1..] == [s[j - 1]] + s[j..];
  }

  /** The inner loop: moves element `i` into the sorted prefix before it. */
  method MoveLeft(a: array<Candidate>, i: nat)
    requires i < a.Length
    modifies a
    ensures a[..] == Moved(old(a[..]), i)
  {
    var j := i;
    ghost var s, c, rest := a[..][..i], a[..][i], a[..][i + 1..];
    assert a[..] == Passing(s, c, i, rest);
    while j > 0 && Before(a[j].score, a[j - 1].score)
      invariant 0 <= j <= i
      invariant a[..] == Passing(s, c, j, rest)
      invariant forall k | j <= k < i :: Before(c.score, s[k].score)
    {
      SwapPasses(s, c, j, rest);
      assert a[j] == a[..][j] && a[j - 1] == a[..][j - 1];
      a[j], a[j - 1] := a[j - 1], a[j];
      j := j - 1;
    }
    if j > 0 {
      SwapPasses(s, c, j, rest);
      assert a[j] == a[..][j] && a[j - 1] == a[..][j - 1];
    }
    InsertStops(s, c, j);
  }

  lemma SortStep(was: seq<Candidate>, s: seq<Candidate>, i: nat)
    requires i < |was| && s == StableSorted(was[..i]) + was[i..]
    ensures Moved(s, i) == StableSorted(was[..i + 1]) + was[i + 1..]
  {
    assert s[..i] == StableSorted(was[..i]) && s[i] == was[i] && s[i + 1..] == was[i + 1..];
    assert was[..i + 1][..i] == was[..i];
  }

  /** Go's stable insertion sort: each element moves left by swaps while it comes strictly before its neighbour. */
  method SliceStable(a: array<Candidate>)
    modifies a
    ensures a[..] == StableSorted(old(a[..]))
  {
    ghost var was := a[..];
    for i := 0 to a.Length
      invariant a[..] == StableSorted(was[..i]) + was[i..]
    {
      SortStep(was, a[..], i);
      MoveLeft(a, i);
    }
    assert was[..a.Length] == was;
  }

  lemma {:induction false} InsertKeepsOrder(s: seq<Candidate>, c: Candidate)
    requires Ordered(s) && forall d | d in s :: d.index < c.index
    ensures Ordered(Insert(s, c))
    ensures forall d :: d in Insert(s, c) <==> d in s || d == c
  {
    if s != [] {
      var n := |s| - 1;
      var init, last := s[..n], s[n];
      assert s == init + [last];
      if Before(c.score, last.score) {
        InsertKeepsOrder(init, c);
        BeforeIsStrictWeakOrder(c.score, last.score, c.score);
        assert forall d | d in Insert(init, c) :: d in init || d == c;
        assert forall d | d in init :: Ahead(d, last);
      } else {
        assert last in s && Ahead(last, c);
        forall d | d in s ensures Ahead(d, c) {
          if d != last {
            AheadIsTransitive(d, last, c);
          }
        }
      }
    }
  }

  /** The sort leaves the same candidates, ordered, ties in list order; so its head is the best. */
  lemma {:induction false} StableSortedMeaning(s: seq<Candidate>)
    requires InListOrder(s)
    ensures Ordered(StableSorted(s))
    ensures forall c :: c in StableSorted(s) <==> c in s
    ensures s != [] ==> Best(s) == Some(StableSorted(s)[0])
  {
    if s != [] {
      var n := |s| - 1;
      StableSortedMeaning(s[..n]);
      assert s == s[..n] + [s[n]];
      InsertKeepsOrder(StableSorted(s[..n]), s[n]);
      HeadIsBest(StableSorted(s), s);
    }
  }

  /** Only one list has the same candidates in order: any stable sort yields it. */
  lemma StableSortIsUnique(s: seq<Candidate>, r: seq<Candidate>)
    requires InListOrder(s) && Ordered(r) && forall c :: c in r <==> c in s
    ensures r == StableSorted(s)
  {
    StableSortedMeaning(s);
    OrderedIsUnique(r, StableSorted(s));
  }

  lemma {:induction false} OrderedIsUnique(r: seq<Candidate>, q: seq<Candidate>)
    requires Ordered(r) && Ordered(q) && forall c :: c in r <==> c in q
    ensures r == q
  {
    EmptyTogether(r, q);
    if r != [] {
      SameHead(r, q);
      forall c ensures c in r[1..] <==> c in q[1..] {
        TailMembers(r, c);
        TailMembers(q, c);
      }
      OrderedIsUnique(r[1..], q[1..]);
      assert r == [r[0]] + r[1..] && q == [q[0]] + q[1..];
    }
  }

  lemma EmptyTogether(r: seq<Candidate>, q: seq<Candidate>)
    requires forall c :: c in r <==> c in q
    ensures r == [] <==> q == []
  {
    assert r != [] ==> r[0] in r;
    assert q != [] ==> q[0] in q;
  }

  lemma SameHead(r: seq<Candidate>, q: seq<Candidate>)
    requires Ordered(r) && Ordered(q) && r != [] && q != [] && forall c :: c in r <==> c in q
    ensures r[0] == q[0]
  {
    assert r[0] in q && q[0] in r;
    AheadIsTotal(r[0], q[0]);
  }

  lemma TailMembers(r: seq<Candidate>, c: Candidate)
    requires Ordered(r) && r != []
    ensures c in r[1..] <==> c in r && c != r[0]
  {
    AheadIsTotal(r[0], r[0]);
    assert r == [r[0]] + r[1..];
  }

  lemma HeadIsBest(r: seq<Candidate>, s: seq<Candidate>)
    requires InListOrder(s) && Ordered(r) && r != [] && forall c :: c in r <==> c in s
    ensures Best(s) == Some(r[0])
  {
    assert r[0] in s;
    forall d | d in s && d != r[0] ensures Ahead(r[0], d) {
      assert d in r;
    }
    BestIsUnique(r[0], s);
  }

  // --- Picking from a list ------------------------------------------------------------------------

  /** The candidates of a list, given the score of each entry that matches. */
  function Candidates(scores: seq<Option<Score>>): seq<Candidate> {
    if scores == [] then []
    else
      var n := |scores| - 1;
      Candidates(scores[..n]) + (if scores[n].Some? then [Candidate(scores[n].value, n)] else [])
  }

  predicate HasScore(scores: seq<Option<Score>>, i: nat) {
    i < |scores| && scores[i].Some?
  }

  function CandidateAt(scores: seq<Option<Score>>, i: nat): Candidate
    requires HasScore(scores, i)
  {
    Candidate(scores[i].value, i)
  }

  lemma {:induction false} CandidatesAreListed(scores: seq<Option<Score>>, i: nat)
    requires HasScore(scores, i)
    ensures CandidateAt(scores, i) in Candidates(scores)
  {
    if i < |scores| - 1 {
      CandidatesAreListed(scores[..|scores| - 1], i);
    }
  }

  /** The candidate is one of the scored entries. */
  predicate IsScored(scores: seq<Option<Score>>, c: Candidate) {
    HasScore(scores, c.index) && c == CandidateAt(scores, c.index)
  }

  lemma {:induction false} CandidatesHaveScores(scores: seq<Option<Score>>)
    ensures InListOrder(Candidates(scores))
    ensures forall k | 0 <= k < |Candidates(scores)| :: IsScored(scores, Candidates(scores)[k])
  {
    if scores != [] {
      var n := |scores| - 1;
      var prefix, init, r := scores[..n], Candidates(scores[..n]), Candidates(scores);
      CandidatesHaveScores(prefix);
      forall k | 0 <= k < |r| ensures IsScored(scores, r[k]) {
        if k < |init| {
          assert r[k] == init[k] && IsScored(prefix, init[k]);
        }
      }
      forall i, j | 0 <= i < j < |r| ensures r[i].index < r[j].index {
        assert r[i] == init[i] && IsScored(prefix, init[i]);
        if j < |init| {
          assert r[j] == init[j];
        }
      }
    }
  }

  lemma CandidatesAreMatches(scores: seq<Option<Score>>)
    ensures InListOrder(Candidates(scores))
    ensures forall c | c in Candidates(scores) :: IsScored(scores, c)
    ensures forall i: nat | HasScore(scores, i) :: CandidateAt(scores, i) in Candidates(scores)
  {
    CandidatesHaveScores(scores);
    forall i: nat | HasScore(scores, i) ensures CandidateAt(scores, i) in Candidates(scores) {
      CandidatesAreListed(scores, i);
    }
  }

  /** The place of the entry that is picked. */
  function BestIndex(scores: seq<Option<Score>>): Option<nat> {
    match Best(Candidates(scores))
    case Some(c) => Some(c.index)
    case None => None
  }

  /** Entry `i` matches and is ahead of every other entry that matches. */
  ghost predicate IsBestIndex(i: nat, scores: seq<Option<Score>>) {
    HasScore(scores, i) && forall j: nat | HasScore(scores, j) && j != i ::
        Ahead(CandidateAt(scores, i), CandidateAt(scores, j))
  }

  /** The pick is the first least entry: the one entry that is ahead of all others, if anything matches at all. */
  lemma BestIndexMeaning(scores: seq<Option<Score>>)
    ensures BestIndex(scores).None? <==> forall i: nat :: !HasScore(scores, i)
    ensures forall i: nat :: BestIndex(scores) == Some(i) <==> IsBestIndex(i, scores)
  {
    var s := Candidates(scores);
    CandidatesAreMatches(scores);
    BestIsBest(s);
    if s == [] {
      assert forall i: nat :: !HasScore(scores, i);
    } else {
      var b := Best(s).value;
      assert HasScore(scores, b.index) && IsBestIndex(b.index, scores);
      forall i: nat | IsBestIndex(i, scores) ensures i == b.index {
        AheadIsTotal(CandidateAt(scores, i), b);
      }
    }
  }

  /** Which pattern is picked depends on which scored entries there are, not on their order. */
  lemma PickIgnoresOrder(scores: seq<Option<Score>>, other: seq<Option<Score>>)
    requires forall i: nat | HasScore(scores, i) :: scores[i] in other
    requires forall i: nat | HasScore(other, i) :: other[i] in scores
    ensures BestIndex(scores).None? <==> BestIndex(other).None?
    ensures BestIndex(scores).Some? ==>
              && HasScore(scores, BestIndex(scores).value) && HasScore(other, BestIndex(other).value)
              && scores[BestIndex(scores).value].value.pattern == other[BestIndex(other).value].value.pattern
  {
    BestIndexMeaning(scores);
    BestIndexMeaning(other);
    if i: nat :| HasScore(scores, i) {
      var m :| 0 <= m < |other| && other[m] == scores[i];
      assert HasScore(other, m);
    }
    if i: nat :| HasScore(other, i) {
      var m :| 0 <= m < |scores| && scores[m] == other[i];
      assert HasScore(scores, m);
      var b, c := BestIndex(scores).value, BestIndex(other).value;
      assert IsBestIndex(b, scores) && IsBestIndex(c, other);
      var l :| 0 <= l < |scores| && scores[l] == other[c];
      var k :| 0 <= k < |other| && other[k] == scores[b];
      assert HasScore(scores, l) && HasScore(other, k);
      BeforeIsStrictWeakOrder(scores[b].value, other[c].value, scores[b].value);
    }
  }

  /** The stable sort, and the place in the list of its first element. */
  method FirstSorted(matches: seq<Candidate>) returns (index: Option<nat>)
    requires InListOrder(matches)
    ensures index == match Best(matches) case Some(c) => Some(c.index) case None => None
  {
    StableSortedMeaning(matches);
    if |matches| == 0 {
      return None;
    }
    var sorted := new Candidate[|matches|](i requires 0 <= i < |matches| => matches[i]);
    assert sorted[..] == matches;
    SliceStable(sorted);
    assert sorted[..][0] == sorted[0];
    return Some(sorted[0].index);
  }
}
