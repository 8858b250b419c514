/** Rule evaluation and precedence (internal/rules/rulesengine.go). */
module RulesEngine {
  import opened Config
  import opened Devices
  import opened Precedence
  import opened Text
  import opened TimeSpan
  import opened Wildcard

  /** When and where rules are evaluated. */
  datatype Moment = Moment(now: int, local: Zone, cal: Calendar)

  // --- One rule, one rule list ------------------------------------------------------------------

  /** A time-span rule acts while its span covers now; None when the span cannot be read. */
  function SpanAction(def: string, action: ActionType, at: Moment): Option<ActionType> {
    match RulesSpan(def, at.local, at.cal)
    case None => None
    case Some(span) => Some(if Covers(span, at.cal.wall(span.zone, at.now)) then action else NoAction)
  }

  function RuleAction(rule: Rule, at: Moment): Option<ActionType> {
    if rule.timeSpan != "" || rule.action == BlockedTimeSpan then SpanAction(rule.timeSpan, rule.action, at)
    else if rule.action.Unknown? then Some(NoAction)
    else Some(rule.action)
  }

  /** The rule has a span that can be read and covers the moment. */
  predicate SpanHolds(rule: Rule, at: Moment) {
    match RulesSpan(rule.timeSpan, at.local, at.cal)
    case Some(span) => Covers(span, at.cal.wall(span.zone, at.now))
    case None => false
  }

  datatype EvalResult = EvalResult(action: ActionType, timeSpan: string, timeMatched: bool)
  const NO_RESULT := EvalResult(NoAction, "", false)

  datatype Verdict = Acts(action: ActionType, index: nat) | Fails(index: nat) | Silent

  /** What each rule of a list comes to. */
  type Outcomes = seq<Option<ActionType>>

  function OutcomesOf(rules: seq<Rule>, at: Moment): (os: Outcomes)
    ensures |os| == |rules| && forall i | 0 <= i < |rules| :: os[i] == RuleAction(rules[i], at)
  {
    seq(|rules|, i requires 0 <= i < |rules| => RuleAction(rules[i], at))
  }

  /** The first outcome from `i` on that is an action or a failure. */
  function FirstOf(os: Outcomes, i: nat): Verdict
    requires i <= |os|
    decreases |os| - i
  {
    if i == |os| then Silent
    else
      match os[i]
      case None => Fails(i)
      case Some(NoAction) => FirstOf(os, i + 1)
      case Some(action) => Acts(action, i)
  }

  lemma FirstStep(os: Outcomes, i: nat)
    requires i < |os|
    ensures FirstOf(os, i) == if os[i].None? then Fails(i)
                              else if os[i] == Some(NoAction) then FirstOf(os, i + 1)
                              else Acts(os[i].value, i)
  {
  }

  /** The verdict of a rule list. */
  function FirstVerdict(rules: seq<Rule>, at: Moment): Verdict {
    FirstOf(OutcomesOf(rules, at), 0)
  }

  ghost predicate SilentUpTo(os: Outcomes, n: nat)
    requires n <= |os|
  {
    forall j | 0 <= j < n :: os[j] == Some(NoAction)
  }

  /** What a verdict says: every rule before the deciding one is inactive. */
  ghost predicate Decides(v: Verdict, os: Outcomes) {
    match v
    case Silent => SilentUpTo(os, |os|)
    case Acts(action, i) => i < |os| && SilentUpTo(os, i) && action != NoAction && os[i] == Some(action)
    case Fails(i) => i < |os| && SilentUpTo(os, i) && os[i].None?
  }

  lemma {:induction false} FirstDecides(os: Outcomes, n: nat)
    requires n <= |os| && SilentUpTo(os, n)
    ensures Decides(FirstOf(os, n), os)
    decreases |os| - n
  {
    if n < |os| && os[n] == Some(NoAction) {
      FirstDecides(os, n + 1);
    }
  }

  lemma OneDecides(os: Outcomes, v: Verdict, w: Verdict)
    requires Decides(v, os) && Decides(w, os)
    ensures v == w
  {
    if !v.Silent? && !w.Silent? {
      assert !(w.index < v.index) && !(v.index < w.index);
    }
  }

  /** First non-None rule wins: the verdict is the one and only one that decides the list. */
  lemma VerdictMeaning(rules: seq<Rule>, at: Moment, v: Verdict)
    ensures v == FirstVerdict(rules, at) <==> Decides(v, OutcomesOf(rules, at))
  {
    var os := OutcomesOf(rules, at);
    FirstDecides(os, 0);
    if Decides(v, os) {
      OneDecides(os, v, FirstOf(os, 0));
    }
  }

  // --- Matching ---------------------------------------------------------------------------------

  /** A host pattern is the address itself, or matches the device name; the address only when the name is unknown. */
  predicate HostMatch(name: Option<string>, host: string, pattern: string) {
    host == pattern || Accepts(if name.Some? then name.value else host, pattern)
  }

  function HostScore(host: string, pattern: string): Score {
    ScorePattern(pattern, WildcardFree(pattern) && host == pattern)
  }

  function HostScores(name: Option<string>, host: string, hosts: seq<Host>): seq<Option<Score>> {
    seq(|hosts|, i requires 0 <= i < |hosts| =>
      if HostMatch(name, host, hosts[i].name) then Some(HostScore(host, hosts[i].name)) else None)
  }

  function DomainScore(domain: string, pattern: string): Score {
    ScorePattern(pattern, domain == pattern)
  }

  function DomainScores(domain: string, domains: seq<Domain>): seq<Option<Score>> {
    seq(|domains|, i requires 0 <= i < |domains| =>
      if Accepts(domain, domains[i].name) then Some(DomainScore(domain, domains[i].name)) else None)
  }

  /** The host entry that is picked, if any matches. */
  function BestHost(name: Option<string>, host: string, hosts: seq<Host>): (r: Option<Host>)
    ensures r.Some? ==> r.value in hosts
  {
    var scores := HostScores(name, host, hosts);
    BestIndexMeaning(scores);
    match BestIndex(scores)
    case Some(i) => assert IsBestIndex(i, scores); Some(hosts[i])
    case None => None
  }

  function BestDomain(domain: string, domains: seq<Domain>): (r: Option<Domain>)
    ensures r.Some? ==> r.value in domains
  {
    var scores := DomainScores(domain, domains);
    BestIndexMeaning(scores);
    match BestIndex(scores)
    case Some(i) => assert IsBestIndex(i, scores); Some(domains[i])
    case None => None
  }

  method MatchHost(name: Option<string>, host: string, pattern: string) returns (matched: bool)
    ensures matched == HostMatch(name, host, pattern)
  {
    if host == pattern {
      return true;
    }
    if name.Some? {
      matched := WildcardPatternMatch(name.value, pattern);
      return;
    }
    matched := WildcardPatternMatch(host, pattern);
  }

  /** Collects the matching hosts, sorts them and takes the first. */
  method PickBestHost(name: Option<string>, host: string, hosts: seq<Host>) returns (best: Option<Host>)
    ensures best == BestHost(name, host, hosts)
  {
    ghost var scores := HostScores(name, host, hosts);
    var matches: seq<Candidate> := [];
    for i := 0 to |hosts|
      invariant matches == Candidates(scores[..i])
    {
      assert scores[..i + 1][..i] == scores[..i];
      var matched := MatchHost(name, host, hosts[i].name);
      if !matched {
        continue;
      }
      matches := matches + [Candidate(HostScore(host, hosts[i].name), i)];
    }
    assert scores[..|hosts|] == scores;
    CandidatesAreMatches(scores);
    var index := FirstSorted(matches);
    BestIndexMeaning(scores);
    if index.None? {
      return None;
    }
    assert IsBestIndex(index.value, scores);
    return Some(hosts[index.value]);
  }

  method PickBestDomain(domain: string, domains: seq<Domain>) returns (best: Option<Domain>)
    ensures best == BestDomain(domain, domains)
  {
    ghost var scores := DomainScores(domain, domains);
    var matches: seq<Candidate> := [];
    for i := 0 to |domains|
      invariant matches == Candidates(scores[..i])
    {
      assert scores[..i + 1][..i] == scores[..i];
      var matched := WildcardPatternMatch(domain, domains[i].name);
      if !matched {
        continue;
      }
      matches := matches + [Candidate(DomainScore(domain, domains[i].name), i)];
    }
    assert scores[..|domains|] == scores;
    CandidatesAreMatches(scores);
    var index := FirstSorted(matches);
    BestIndexMeaning(scores);
    if index.None? {
      return None;
    }
    assert IsBestIndex(index.value, scores);
    return Some(domains[index.value]);
  }

  // --- The decision -------------------------------------------------------------------------------

  /** The action for a query, and whether a rule could not be read on the way. */
  datatype Decision = Decision(action: ActionType, failed: bool)

  /** Domain rules: the best domain's best host decides, even with no action at all; else the default rule. */
  function DomainDecision(conf: Config, name: Option<string>, domain: string, host: string, at: Moment): Decision {
    match BestDomain(domain, conf.domains)
    case None => Decision(conf.defaultRule, false)
    case Some(d) =>
      match BestHost(name, host, d.hosts)
      case None => Decision(conf.defaultRule, false)
      case Some(h) =>
        match FirstVerdict(h.rules, at)
        case Fails(_) => Decision(conf.onErrorRule, true)
        case Acts(action, _) => Decision(action, false)
        case Silent => Decision(NoAction, false)
  }

  /** Host rules first; they give way to domain rules when none of them acts. */
  function Decide(conf: Config, name: Option<string>, domain: string, host: string, at: Moment): Decision {
    match BestHost(name, host, conf.hosts)
    case None => DomainDecision(conf, name, domain, host, at)
    case Some(h) =>
      match FirstVerdict(h.rules, at)
      case Fails(_) => Decision(conf.onErrorRule, true)
      case Acts(action, _) => Decision(action, false)
      case Silent => DomainDecision(conf, name, domain, host, at)
  }

  datatype Trace = Trace(deviceName: string, hostPattern: string, hostRuleIndex: int, domainPattern: string,
                         domainHostPattern: string, domainHostRuleIndex: int, timeSpan: string,
                         timeSpanMatched: bool, finalAction: ActionType, defaultRuleFallback: bool)

  /** The trace names the rule that decided, and what its span said; or no rule at all. */
  ghost predicate NamesRule(tr: Trace, index: int, rules: seq<Rule>, at: Moment) {
    if index < 0 then FirstVerdict(rules, at).Silent? && tr.timeSpan == ""
    else
      && FirstVerdict(rules, at) == Acts(tr.finalAction, index) && index < |rules|
      && tr.timeSpan == rules[index].timeSpan && (tr.timeSpanMatched <==> SpanHolds(rules[index], at))
  }

  /** The domain part of a trace: the best domain, its best host and the rule that decided, or the fallback. */
  ghost predicate ExplainsDomain(tr: Trace, conf: Config, name: Option<string>, domain: string, host: string,
                                 at: Moment) {
    var d := BestDomain(domain, conf.domains);
    && tr.domainPattern == (if d.Some? then d.value.name else "")
    && (tr.defaultRuleFallback <==> d.None? || BestHost(name, host, d.value.hosts).None?)
    && (!tr.defaultRuleFallback ==>
          && tr.domainHostPattern == BestHost(name, host, d.value.hosts).value.name
          && NamesRule(tr, tr.domainHostRuleIndex, BestHost(name, host, d.value.hosts).value.rules, at))
  }

  /** What a finished trace says: the host rule that decided, or else the domain part. */
  ghost predicate Explains(tr: Trace, conf: Config, name: Option<string>, domain: string, host: string, at: Moment) {
    var best := BestHost(name, host, conf.hosts);
    && tr.deviceName == (if name.Some? then name.value else "")
    && tr.hostPattern == (if best.Some? then best.value.name else "")
    && if best.Some? && FirstVerdict(best.value.rules, at).Acts? then
         tr.hostRuleIndex >= 0 && !tr.defaultRuleFallback && NamesRule(tr, tr.hostRuleIndex, best.value.rules, at)
       else ExplainsDomain(tr, conf, name, domain, host, at)
  }

  class Engine {
    const conf: Config
    const deviceCache: DeviceCache?

    constructor (conf: Config, deviceCache: DeviceCache?)
      ensures this.conf == conf && this.deviceCache == deviceCache
    {
      this.conf, this.deviceCache := conf, deviceCache;
    }

    /** The name the device cache has for an address, if there is a cache and it knows one. */
    function NameOf(host: string): Option<string>
      reads deviceCache
    {
      if deviceCache == null then None else deviceCache.NameOf(host)
    }

    method EvaluateRule(rule: Rule, at: Moment) returns (res: EvalResult, failed: bool)
      ensures failed <==> RuleAction(rule, at).None?
      ensures !failed ==> RuleAction(rule, at) == Some(res.action)
      ensures res.timeSpan == rule.timeSpan && (res.timeMatched <==> SpanHolds(rule, at))
    {
      if rule.timeSpan != "" || rule.action == BlockedTimeSpan {
        var span := ParseTimeSpan(rule.timeSpan, at.local, at.cal);
        if span.None? {
          return EvalResult(NoAction, rule.timeSpan, false), true;
        }
        var matched := Covers(span.value, at.cal.wall(span.value.zone, at.now));
        return EvalResult(if matched then rule.action else NoAction, rule.timeSpan, matched), false;
      }
      BlankHasNoRange();
      return EvalResult(if rule.action.Unknown? then NoAction else rule.action, "", false), false;
    }

    /** The results of a loop over `rules` whose verdict is `v`. */
    predicate Reports(v: Verdict, rules: seq<Rule>, at: Moment, action: ActionType, index: int, res: EvalResult,
                      failed: bool) {
      match v
      case Fails(i) => failed && action == conf.onErrorRule && index == i
      case Acts(a, i) => && !failed && action == a == res.action != NoAction
                         && index == i < |rules| && res.timeSpan == rules[i].timeSpan
                         && (res.timeMatched <==> SpanHolds(rules[i], at))
      case Silent => !failed && action == NoAction && index == -1 && res == NO_RESULT
    }

    /** The first rule that acts decides; a rule that cannot be read stops the evaluation. */
    method EvaluateRules(rules: seq<Rule>, at: Moment)
      returns (action: ActionType, index: int, res: EvalResult, failed: bool)
      ensures Reports(FirstVerdict(rules, at), rules, at, action, index, res, failed)
    {
      ghost var os := OutcomesOf(rules, at);
      for i := 0 to |rules|
        invariant FirstVerdict(rules, at) == FirstOf(os, i)
      {
        res, failed := EvaluateRule(rules[i], at);
        assert os[i] == RuleAction(rules[i], at);
        FirstStep(os, i);
        if failed {
          return conf.onErrorRule, i, res, true;
        }
        if res.action != NoAction {
          return res.action, i, res, false;
        }
      }
      return NoAction, -1, NO_RESULT, false;
    }

    /** The whole evaluation; the trace is kept when asked for, and on errors. */
    method EvaluateInternal(domain: string, host: string, at: Moment, explain: bool)
      returns (trace: Option<Trace>, action: ActionType, failed: bool)
      ensures Decision(action, failed) == Decide(conf, NameOf(host), domain, host, at)
      ensures trace.Some? <==> explain || failed
      ensures explain && !failed ==>
                trace.value.finalAction == action && Explains(trace.value, conf, NameOf(host), domain, host, at)
      ensures failed ==> trace.value.finalAction == conf.defaultRule
    {
      var tr := Trace("", "", 0, "", "", 0, "", false, conf.defaultRule, false);
      var name: Option<string> := None;
      if deviceCache != null {
        name := deviceCache.IPToName(host);
        if name.Some? {
          tr := tr.(deviceName := name.value);
        }
      }
      var bestHost := PickBestHost(name, host, conf.hosts);
      if bestHost.Some? {
        tr := tr.(hostPattern := bestHost.value.name);
        var act, idx, res, err := EvaluateRules(bestHost.value.rules, at);
        if err {
          return Some(tr), conf.onErrorRule, true;
        }
        if act != NoAction {
          tr := tr.(hostRuleIndex := idx, timeSpan := res.timeSpan, timeSpanMatched := res.timeMatched,
                    finalAction := act, defaultRuleFallback := false);
          return if explain then Some(tr) else None, act, false;
        }
      }
      tr, action, failed := EvaluateDomains(tr, name, domain, host, at);
      return if explain || failed then Some(tr) else None, action, failed;
    }

    /** The second stage: the best domain's best host, else the default rule. */
    method EvaluateDomains(before: Trace, name: Option<string>, domain: string, host: string, at: Moment)
      returns (tr: Trace, action: ActionType, failed: bool)
      requires before.finalAction == conf.defaultRule && before.domainPattern == "" && !before.defaultRuleFallback
      ensures Decision(action, failed) == DomainDecision(conf, name, domain, host, at)
      ensures tr.hostPattern == before.hostPattern && tr.deviceName == before.deviceName
      ensures failed ==> tr.finalAction == conf.defaultRule
      ensures !failed ==> tr.finalAction == action && ExplainsDomain(tr, conf, name, domain, host, at)
    {
      tr := before;
      var bestDomain := PickBestDomain(domain, conf.domains);
      if bestDomain.Some? {
        tr := tr.(domainPattern := bestDomain.value.name);
        var bestHost := PickBestHost(name, host, bestDomain.value.hosts);
        if bestHost.Some? {
          tr := tr.(domainHostPattern := bestHost.value.name);
          var act, idx, res, err := EvaluateRules(bestHost.value.rules, at);
          if err {
            return tr, conf.onErrorRule, true;
          }
          tr := tr.(domainHostRuleIndex := idx, timeSpan := res.timeSpan, timeSpanMatched := res.timeMatched,
                    finalAction := act, defaultRuleFallback := false);
          return tr, act, false;
        }
      }
      tr := tr.(defaultRuleFallback := true);
      return tr, conf.defaultRule, false;
    }

    method Evaluate(domain: string, host: string, at: Moment) returns (action: ActionType, failed: bool)
      ensures Decision(action, failed) == Decide(conf, NameOf(host), domain, host, at)
    {
      var trace;
      trace, action, failed := EvaluateInternal(domain, host, at, false);
      if failed {
        return conf.onErrorRule, true;
      }
    }

    /** Explains the same decision Evaluate makes. */
    method Explain(domain: string, host: string, at: Moment)
      returns (trace: Option<Trace>, action: ActionType, failed: bool)
      ensures Decision(action, failed) == Decide(conf, NameOf(host), domain, host, at)
      ensures trace.Some?
      ensures !failed ==> Explains(trace.value, conf, NameOf(host), domain, host, at)
      ensures trace.value.finalAction == action <==> !failed || conf.onErrorRule == conf.defaultRule
    {
      trace, action, failed := EvaluateInternal(domain, host, at, true);
    }
  }
}
