/** Per-user domain rules and allow windows (internal/policy/evaluator.go). */
module Policy {
  import opened Text
  import opened Wildcard

  datatype DomainAction = Block | Allow | Other(text: string)

  datatype DomainRule = DomainRule(id: string, pattern: string, action: DomainAction)

  predicate RuleMatches(r: DomainRule, domain: string) {
    Accepts(domain, Lower(r.pattern))
  }

  function Wildcards(pattern: string): nat {
    Count(pattern, '*') + Count(pattern, '?')
  }

  function RuleScore(r: DomainRule): int {
    |r.pattern| * 2 - Wildcards(r.pattern)
  }

  /** Rule `i` matches, no matching rule scores more, and no earlier one as much. */
  ghost predicate IsEarliestBest(i: nat, rules: seq<DomainRule>, domain: string) {
    && i < |rules| && RuleMatches(rules[i], domain)
    && (forall j | 0 <= j < |rules| && RuleMatches(rules[j], domain) :: RuleScore(rules[j]) <= RuleScore(rules[i]))
    && forall j | 0 <= j < i && RuleMatches(rules[j], domain) :: RuleScore(rules[j]) < RuleScore(rules[i])
  }

  /** The place of the rule the loop ends with. */
  function MatchedIndex(rules: seq<DomainRule>, domain: string): (i: Option<nat>)
    ensures i.Some? ==> i.value < |rules|
  {
    if rules == [] then None
    else
      var n := |rules| - 1;
      var before := MatchedIndex(rules[..n], domain);
      if RuleMatches(rules[n], domain) && (before.None? || RuleScore(rules[n]) > RuleScore(rules[before.value]))
      then Some(n) else before
  }

  function MatchedRule(rules: seq<DomainRule>, domain: string): Option<DomainRule> {
    match MatchedIndex(rules, domain)
    case Some(i) => Some(rules[i])
    case None => None
  }

  lemma ScoreIsNotNegative(r: DomainRule)
    ensures RuleScore(r) >= |r.pattern|
    ensures RuleScore(r) == 2 * (|r.pattern| - Wildcards(r.pattern)) + Wildcards(r.pattern)
  {
    CountsDisjoint(r.pattern, '*', '?');
  }

  /** Two points for each literal character of a pattern, one for each wildcard. */
  function Points(p: string): nat {
    if p == "" then 0
    else Points(p[..|p| - 1]) + (if p[|p| - 1] == '*' || p[|p| - 1] == '?' then 1 else 2)
  }

  lemma {:induction false} PointsMeaning(p: string)
    ensures 2 * |p| - Wildcards(p) == Points(p)
  {
    if p != "" {
      PointsMeaning(p[..|p| - 1]);
    }
  }

  /** The score of a rule is what the characters of its pattern are worth. */
  lemma ScoreIsPoints(r: DomainRule)
    ensures RuleScore(r) == Points(r.pattern)
  {
    PointsMeaning(r.pattern);
  }

  lemma EarliestBestOfOneMore(rules: seq<DomainRule>, domain: string, i: nat)
    requires rules != [] && IsEarliestBest(i, rules[..|rules| - 1], domain)
    ensures var r := rules[|rules| - 1];
            if RuleMatches(r, domain) && RuleScore(r) > RuleScore(rules[i])
            then IsEarliestBest(|rules| - 1, rules, domain)
            else IsEarliestBest(i, rules, domain)
  {
    var init := rules[..|rules| - 1];
    assert forall j | 0 <= j < |init| :: rules[j] == init[j];
  }

  /** A rule is found iff one matches, and it is the earliest of the highest score. */
  lemma {:induction false} MatchedRuleIsEarliestBest(rules: seq<DomainRule>, domain: string)
    ensures var m := MatchedIndex(rules, domain);
            && (m.None? <==> forall i | 0 <= i < |rules| :: !RuleMatches(rules[i], domain))
            && (m.Some? ==> IsEarliestBest(m.value, rules, domain))
  {
    if rules != [] {
      var init := rules[..|rules| - 1];
      MatchedRuleIsEarliestBest(init, domain);
      assert forall j | 0 <= j < |init| :: rules[j] == init[j];
      if MatchedIndex(init, domain).Some? {
        EarliestBestOfOneMore(rules, domain, MatchedIndex(init, domain).value);
      }
    }
  }

  lemma EarliestBestIsUnique(rules: seq<DomainRule>, domain: string, i: nat)
    requires IsEarliestBest(i, rules, domain)
    ensures MatchedIndex(rules, domain) == Some(i)
  {
    MatchedRuleIsEarliestBest(rules, domain);
    var m := MatchedIndex(rules, domain).value;
    assert !(m < i) && !(i < m);
  }

  method MatchDomainRule(rules: seq<DomainRule>, domain: string) returns (best: Option<DomainRule>)
    ensures best == MatchedRule(rules, domain)
  {
    best := None;
    var bestScore := -1;
    for i := 0 to |rules|
      invariant best == MatchedRule(rules[..i], domain)
      invariant bestScore == if best.Some? then RuleScore(best.value) else -1
    {
      assert rules[..i + 1][..i] == rules[..i];
      var r := rules[i];
      var matched := WildcardPatternMatch(domain, Lower(r.pattern));
      if !matched {
        continue;
      }
      var wildcards := Count(r.pattern, '*') + Count(r.pattern, '?');
      var score := |r.pattern| * 2 - wildcards;
      ScoreIsNotNegative(r);
      if score > bestScore {
        bestScore, best := score, Some(r);
      }
    }
    assert rules[..|rules|] == rules;
  }

  lemma {:induction false} LowerKeepsWildcards(p: string, c: char)
    requires c == '*' || c == '?'
    ensures Count(Lower(p), c) == Count(p, c)
  {
    if p != "" {
      LowerKeepsWildcards(p[..|p| - 1], c);
      assert Lower(p)[..|p| - 1] == Lower(p[..|p| - 1]);
    }
  }

  /** An exact name scores twice its length. */
  lemma LiteralScore(literal: DomainRule, domain: string)
    requires WildcardFree(domain) && Lower(literal.pattern) == domain
    ensures RuleMatches(literal, domain) && RuleScore(literal) == 2 * |domain|
  {
    AcceptsItself(domain);
    LowerKeepsWildcards(literal.pattern, '*');
    LowerKeepsWildcards(literal.pattern, '?');
    CountZeroIffAbsent(domain, '*');
    CountZeroIffAbsent(domain, '?');
  }

  /** Too weak to keep an exact name `i` for `domain` from being found: by length and wildcards, ties to the earlier. */
  predicate GivesWay(rules: seq<DomainRule>, j: nat, i: nat, domain: string)
    requires j < |rules|
  {
    if j < i then Points(rules[j].pattern) < 2 * |domain| else Points(rules[j].pattern) <= 2 * |domain|
  }

  /** An exact rule is the one found exactly when every other matching rule is short or wild enough to give way. */
  lemma LiteralFoundIff(rules: seq<DomainRule>, domain: string, i: nat)
    requires i < |rules| && WildcardFree(domain) && Lower(rules[i].pattern) == domain
    ensures MatchedIndex(rules, domain) == Some(i)
            <==> forall j: nat | j < |rules| && j != i && RuleMatches(rules[j], domain) :: GivesWay(rules, j, i, domain)
  {
    LiteralScore(rules[i], domain);
    MatchedRuleIsEarliestBest(rules, domain);
    forall j: nat | j < |rules| ensures RuleScore(rules[j]) == Points(rules[j].pattern) {
      ScoreIsPoints(rules[j]);
    }
    if forall j: nat | j < |rules| && j != i && RuleMatches(rules[j], domain) :: GivesWay(rules, j, i, domain) {
      assert IsEarliestBest(i, rules, domain);
      EarliestBestIsUnique(rules, domain, i);
    }
  }

  /** So it is found if it is the first exact one and no matching pattern is longer than the name. */
  lemma LiteralAgainstPattern(rules: seq<DomainRule>, domain: string, i: nat)
    requires i < |rules| && WildcardFree(domain) && Lower(rules[i].pattern) == domain
    requires forall j: nat | j < |rules| && RuleMatches(rules[j], domain) :: |rules[j].pattern| <= |domain|
    requires forall j: nat | j < i && RuleMatches(rules[j], domain) :: !WildcardFree(rules[j].pattern)
    ensures MatchedIndex(rules, domain) == Some(i)
  {
    forall j: nat | j < |rules| && j != i && RuleMatches(rules[j], domain) ensures GivesWay(rules, j, i, domain) {
      CountZeroIffAbsent(rules[j].pattern, '*');
      CountZeroIffAbsent(rules[j].pattern, '?');
      PointsMeaning(rules[j].pattern);
    }
    LiteralFoundIff(rules, domain, i);
  }

  /** But a star in front of the exact name is found instead of it, wherever it stands. */
  lemma StarredNameBeatsLiteral(literal: DomainRule, starred: DomainRule, domain: string)
    requires WildcardFree(domain) && IsLower(domain)
    requires literal.pattern == domain && starred.pattern == "*" + domain
    ensures MatchedRule([literal, starred], domain) == MatchedRule([starred, literal], domain) == Some(starred)
  {
    var p := "*" + domain;
    assert Lower(p) == p;
    StarPrefixAccepts(domain, |domain|);
    CountWithStar(domain, '*');
    CountWithStar(domain, '?');
    LiteralScore(literal, domain);
    CountZeroIffAbsent(domain, '*');
    CountZeroIffAbsent(domain, '?');
    assert RuleMatches(starred, domain) && RuleScore(starred) == 2 * |domain| + 1;
    EarliestBestIsUnique([literal, starred], domain, 1);
    EarliestBestIsUnique([starred, literal], domain, 0);
  }

  lemma {:induction false} StarPrefixAccepts(s: string, i: nat)
    requires i <= |s|
    ensures Cell(s, "*" + s, i, i + 1)
  {
    var p := "*" + s;
    if i > 0 {
      StarPrefixAccepts(s, i - 1);
      assert p[i] == s[i - 1];
      StarCell(s, p, i);
    } else {
      assert Cell(s, p, 0, 0);
    }
  }

  lemma StarCell(s: string, p: string, i: nat)
    requires 0 < i <= |s| && |p| == |s| + 1 && p[i] == s[i - 1] && Cell(s, p, i - 1, i)
    ensures Cell(s, p, i, i + 1)
  {
  }

  lemma {:induction false} CountWithStar(s: string, c: char)
    ensures Count("*" + s, c) == Count(s, c) + if c == '*' then 1 else 0
  {
    if s != "" {
      CountWithStar(s[..|s| - 1], c);
      assert ("*" + s)[..|s|] == "*" + s[..|s| - 1];
    }
  }

  datatype TimeWindow = TimeWindow(name: string, timeSpan: string)

  type Checker = (string, int) -> bool

  predicate Holds(w: TimeWindow, now: int, checker: Checker) {
    checker(w.timeSpan, now)
  }

  /** A user without windows is always allowed; else one of them must hold now. */
  predicate InWindows(windows: seq<TimeWindow>, now: int, checker: Checker) {
    windows == [] || exists i | 0 <= i < |windows| :: Holds(windows[i], now, checker)
  }

  method InAllowWindow(windows: seq<TimeWindow>, now: int, checker: Checker) returns (allowed: bool)
    ensures allowed <==> InWindows(windows, now, checker)
  {
    if |windows| == 0 {
      return true;
    }
    for i := 0 to |windows|
      invariant forall j | 0 <= j < i :: !Holds(windows[j], now, checker)
    {
      if checker(windows[i].timeSpan, now) {
        assert Holds(windows[i], now, checker);
        return true;
      }
    }
    return false;
  }
}
