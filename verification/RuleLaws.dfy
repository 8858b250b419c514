/** What the documented precedence amounts to. */
module RuleLaws {
  import opened Config
  import opened Precedence
  import opened RulesEngine
  import opened SpanFormat
  import opened Text
  import TimeSpan
  import opened Windows
  import opened Wildcard

  /** Entry `i` matches; every other one that does is less specific, or has the same text and comes later. */
  ghost predicate MostSpecificHost(i: nat, name: Option<string>, host: string, hosts: seq<Host>) {
    && i < |hosts| && HostMatch(name, host, hosts[i].name)
    && forall j | 0 <= j < |hosts| && j != i && HostMatch(name, host, hosts[j].name) ::
         Before(HostScore(host, hosts[i].name), HostScore(host, hosts[j].name))
             || (hosts[j].name == hosts[i].name && i < j)
  }

  ghost predicate MostSpecificDomain(i: nat, domain: string, domains: seq<Domain>) {
    && i < |domains| && Matches(domain, domains[i].name)
    && forall j | 0 <= j < |domains| && j != i && Matches(domain, domains[j].name) ::
         Before(DomainScore(domain, domains[i].name), DomainScore(domain, domains[j].name))
         || (domains[j].name == domains[i].name && i < j)
  }

  /** A host is picked iff one matches, and it is the most specific one. */
  lemma BestHostMeaning(name: Option<string>, host: string, hosts: seq<Host>) returns (i: nat)
    ensures BestHost(name, host, hosts).None? <==> forall j | 0 <= j < |hosts| :: !HostMatch(name, host, hosts[j].name)
    ensures BestHost(name, host, hosts).Some? ==>
              MostSpecificHost(i, name, host, hosts) && BestHost(name, host, hosts) == Some(hosts[i])
  {
    var scores := HostScores(name, host, hosts);
    BestIndexMeaning(scores);
    assert forall j | 0 <= j < |hosts| :: HasScore(scores, j) <==> HostMatch(name, host, hosts[j].name);
    i := 0;
    if BestIndex(scores).Some? {
      i := BestIndex(scores).value;
      assert IsBestIndex(i, scores);
      forall j | 0 <= j < |hosts| && j != i && HostMatch(name, host, hosts[j].name)
        ensures Before(HostScore(host, hosts[i].name), HostScore(host, hosts[j].name))
                  || (hosts[j].name == hosts[i].name && i < j)
      {
        assert HasScore(scores, j) && Ahead(CandidateAt(scores, i), CandidateAt(scores, j));
        BeforeIsStrictWeakOrder(HostScore(host, hosts[i].name), HostScore(host, hosts[j].name),
            HostScore(host, hosts[i].name));
      }
    }
  }

  /** Likewise for domains, where matching is the declarative one. */
  lemma BestDomainMeaning(domain: string, domains: seq<Domain>) returns (i: nat)
    ensures BestDomain(domain, domains).None? <==> forall j | 0 <= j < |domains| :: !Matches(domain, domains[j].name)
    ensures BestDomain(domain, domains).Some? ==>
              MostSpecificDomain(i, domain, domains) && BestDomain(domain, domains) == Some(domains[i])
  {
    var scores := DomainScores(domain, domains);
    BestIndexMeaning(scores);
    forall j | 0 <= j < |domains| ensures HasScore(scores, j) <==> Matches(domain, domains[j].name) {
      AcceptsIffMatches(domain, domains[j].name);
    }
    i := 0;
    if BestIndex(scores).Some? {
      i := BestIndex(scores).value;
      assert IsBestIndex(i, scores);
      forall j | 0 <= j < |domains| && j != i && Matches(domain, domains[j].name)
        ensures Before(DomainScore(domain, domains[i].name), DomainScore(domain, domains[j].name))
                || (domains[j].name == domains[i].name && i < j)
      {
        assert HasScore(scores, j) && Ahead(CandidateAt(scores, i), CandidateAt(scores, j));
        BeforeIsStrictWeakOrder(DomainScore(domain, domains[i].name), DomainScore(domain, domains[j].name),
                                DomainScore(domain, domains[i].name));
      }
    }
  }

  // --- One rule -----------------------------------------------------------------------------------

  /** A rule with hours acts on its days within its hours, by the clock in its zone, and at no other moment. */
  lemma RuleActsInItsHours(action: ActionType, days: Days, start: Minute, end: Minute, tz: Option<string>, at: Moment)
    requires tz.Some? ==> PlainZone(tz.value) && at.cal.load(tz.value).Some?
    ensures var w := at.cal.wall(if tz.Some? then at.cal.load(tz.value).value else at.local, at.now);
            RuleAction(Rule(action, Format(days, start, end, tz)), at)
            == if && (days == [] || w.weekday in Weekdays(days))
                  && (if start <= end then start <= w.minute < end else w.minute >= start || w.minute <= end)
               then Some(action) else Some(NoAction)
  {
    var zone := if tz.Some? then at.cal.load(tz.value).value else at.local;
    FormattedSpanIsRead(days, start, end, tz, at.local, at.cal);
    FormatIsNotBlank(days, start, end, tz);
    ReadSpanDecides(Rule(action, Format(days, start, end, tz)), TimeSpan.Span(start, end, Weekdays(days), zone), at);
    if days != [] {
      SomeDayIsListed(days);
    }
  }

  lemma ReadSpanDecides(rule: Rule, span: TimeSpan.Span, at: Moment)
    requires rule.timeSpan != "" && TimeSpan.RulesSpan(rule.timeSpan, at.local, at.cal) == Some(span)
    ensures var w := at.cal.wall(span.zone, at.now);
            RuleAction(rule, at)
            == if && (span.weekdays == {} || w.weekday in span.weekdays)
                  && (if span.start <= span.end then span.start <= w.minute < span.end
                      else w.minute >= span.start || w.minute <= span.end)
               then Some(rule.action) else Some(NoAction)
  {
  }

  lemma FormatIsNotBlank(days: Days, start: Minute, end: Minute, tz: Option<string>)
    ensures Format(days, start, end, tz) != ""
  {
    assert |Range(start, end)| == 11;
    assert |TimePart(days, start, end)| >= 11;
  }

  /** A rule without hours always acts; one whose action is bound to hours cannot do without them. */
  lemma RuleWithoutHours(action: ActionType, at: Moment)
    ensures action == BlockedTimeSpan ==> RuleAction(Rule(action, ""), at) == None
    ensures action == NoAction || action.Unknown? ==> RuleAction(Rule(action, ""), at) == Some(NoAction)
    ensures action == Pass || action == BlockedDevice || action == BlockedSiteBan ==>
              RuleAction(Rule(action, ""), at) == Some(action)
  {
    assert Split("", '|') == [""] && TrimSpace("") == "";
    TimeSpan.BlankHasNoRange();
  }

  // --- The decision -------------------------------------------------------------------------------

  /** Some rule acts, and all before it are inactive. */
  ghost predicate ActsIn(rules: seq<Rule>, at: Moment, action: ActionType) {
    exists i: nat :: Decides(Acts(action, i), OutcomesOf(rules, at))
  }

  /** Some rule cannot be read, and all before it are inactive. */
  ghost predicate FailsIn(rules: seq<Rule>, at: Moment) {
    exists i: nat :: Decides(Fails(i), OutcomesOf(rules, at))
  }

  ghost predicate SilentIn(rules: seq<Rule>, at: Moment) {
    forall i | 0 <= i < |rules| :: RuleAction(rules[i], at) == Some(NoAction)
  }

  /** The rules of the best host of the best domain, when there are both. */
  function DomainRules(conf: Config, name: Option<string>, domain: string, host: string): Option<seq<Rule>> {
    match BestDomain(domain, conf.domains)
    case None => None
    case Some(d) => match BestHost(name, host, d.hosts) case None => None case Some(h) => Some(h.rules)
  }

  /** No host matches, or none of the best host's rules acts. */
  ghost predicate HostsGiveWay(conf: Config, name: Option<string>, host: string, at: Moment) {
    BestHost(name, host, conf.hosts).None? || SilentIn(BestHost(name, host, conf.hosts).value.rules, at)
  }

  lemma VerdictCases(rules: seq<Rule>, at: Moment, action: ActionType)
    ensures FirstVerdict(rules, at).Fails? <==> FailsIn(rules, at)
    ensures FirstVerdict(rules, at).Silent? <==> SilentIn(rules, at)
    ensures FirstVerdict(rules, at).Acts? && FirstVerdict(rules, at).action == action <==> ActsIn(rules, at, action)
  {
    var v := FirstVerdict(rules, at);
    VerdictMeaning(rules, at, v);
    if FailsIn(rules, at) {
      var i: nat :| Decides(Fails(i), OutcomesOf(rules, at));
      VerdictMeaning(rules, at, Fails(i));
    }
    if ActsIn(rules, at, action) {
      var i: nat :| Decides(Acts(action, i), OutcomesOf(rules, at));
      VerdictMeaning(rules, at, Acts(action, i));
    }
  }

  /** An evaluation fails exactly when it reaches a rule that cannot be read, and then gives the error rule. */
  lemma FailsIff(conf: Config, name: Option<string>, domain: string, host: string, at: Moment)
    ensures var best, inner := BestHost(name, host, conf.hosts), DomainRules(conf, name, domain, host);
            Decide(conf, name, domain, host, at).failed <==>
            || (best.Some? && FailsIn(best.value.rules, at))
            || (HostsGiveWay(conf, name, host, at) && inner.Some? && FailsIn(inner.value, at))
    ensures Decide(conf, name, domain, host, at).failed ==>
              Decide(conf, name, domain, host, at).action == conf.onErrorRule
  {
    var best, inner := BestHost(name, host, conf.hosts), DomainRules(conf, name, domain, host);
    if best.Some? {
      VerdictCases(best.value.rules, at, NoAction);
    }
    if inner.Some? {
      VerdictCases(inner.value, at, NoAction);
    }
  }

  /**
   * The documented precedence, with one exception the documentation does not mention: a matched domain whose
   * rules are all inactive yields no action, not the default rule.
   */
  lemma DecisionMeaning(conf: Config, name: Option<string>, domain: string, host: string, at: Moment,
                        action: ActionType)
    ensures var best, inner := BestHost(name, host, conf.hosts), DomainRules(conf, name, domain, host);
            Decide(conf, name, domain, host, at) == Decision(action, false) <==>
            || (best.Some? && ActsIn(best.value.rules, at, action))
            || (HostsGiveWay(conf, name, host, at)
                && if inner.None? then action == conf.defaultRule
                   else ActsIn(inner.value, at, action) || (SilentIn(inner.value, at) && action == NoAction))
  {
    var best, inner := BestHost(name, host, conf.hosts), DomainRules(conf, name, domain, host);
    if best.Some? {
      VerdictCases(best.value.rules, at, action);
    }
    if inner.Some? {
      VerdictCases(inner.value, at, action);
    }
  }

  // --- Exact names --------------------------------------------------------------------------------

  /** A domain entry equal to the query is always chosen, the first such one, whatever else is configured. */
  lemma ExactDomainWins(domain: string, domains: seq<Domain>, i: nat)
    requires i < |domains| && domains[i].name == domain
    requires forall j | 0 <= j < i :: domains[j].name != domain
    ensures BestDomain(domain, domains) == Some(domains[i])
  {
    var scores := DomainScores(domain, domains);
    AcceptsItself(domain);
    BestIndexMeaning(scores);
    forall j: nat | HasScore(scores, j) && j != i ensures Ahead(CandidateAt(scores, i), CandidateAt(scores, j)) {
    }
    assert IsBestIndex(i, scores);
  }

  /** So is a host entry that is the client's address. */
  lemma ExactHostWins(name: Option<string>, host: string, hosts: seq<Host>, i: nat)
    requires i < |hosts| && hosts[i].name == host && WildcardFree(host)
    requires forall j | 0 <= j < i :: hosts[j].name != host
    ensures BestHost(name, host, hosts) == Some(hosts[i])
  {
    var scores := HostScores(name, host, hosts);
    BestIndexMeaning(scores);
    forall j: nat | HasScore(scores, j) && j != i ensures Ahead(CandidateAt(scores, i), CandidateAt(scores, j)) {
    }
    assert IsBestIndex(i, scores);
  }

  lemma WildcardFreeCount(p: string)
    ensures WildcardFree(p) <==> Count(p, '*') + Count(p, '?') == 0
  {
    CountZeroIffAbsent(p, '*');
    CountZeroIffAbsent(p, '?');
  }

  /** Without an entry for the address, the entry for the device's name is chosen. */
  lemma DeviceNameWins(device: string, host: string, hosts: seq<Host>, i: nat)
    requires WildcardFree(device) && i < |hosts| && hosts[i].name == device
    requires forall j | 0 <= j < i :: hosts[j].name != device
    requires forall j | 0 <= j < |hosts| :: hosts[j].name == host ==> !WildcardFree(host)
    ensures BestHost(Some(device), host, hosts) == Some(hosts[i])
  {
    var scores := HostScores(Some(device), host, hosts);
    AcceptsItself(device);
    WildcardFreeCount(device);
    BestIndexMeaning(scores);
    forall j: nat | HasScore(scores, j) && j != i ensures Ahead(CandidateAt(scores, i), CandidateAt(scores, j)) {
      WildcardFreeCount(hosts[j].name);
      if WildcardFree(hosts[j].name) {
        LiteralMatchesOnlyItself(device, hosts[j].name);
      }
    }
    assert IsBestIndex(i, scores);
  }

  /** A pattern without wildcards stands for one name only. */
  lemma LiteralDomainIsExact(domain: string, domains: seq<Domain>)
    requires BestDomain(domain, domains).Some? && WildcardFree(BestDomain(domain, domains).value.name)
    ensures BestDomain(domain, domains).value.name == domain
  {
    var scores := DomainScores(domain, domains);
    BestIndexMeaning(scores);
    assert IsBestIndex(BestIndex(scores).value, scores);
    LiteralMatchesOnlyItself(domain, BestDomain(domain, domains).value.name);
  }

  function OneSite(def: ActionType, err: ActionType, domain: string, host: string, rules: seq<Rule>): Config {
    Config(def, err, [], [Domain(domain, [Host(host, rules)])])
  }

  /** The exception to the documented precedence: a matched domain whose rules are inactive hides the default rule. */
  lemma InactiveDomainHidesDefault(def: ActionType, err: ActionType, name: Option<string>, domain: string, host: string,
                                   rules: seq<Rule>, at: Moment)
    requires WildcardFree(host) && SilentIn(rules, at)
    ensures Decide(OneSite(def, err, domain, host, rules), name, domain, host, at) == Decision(NoAction, false)
  {
    var conf := OneSite(def, err, domain, host, rules);
    var _ := BestHostMeaning(name, host, conf.hosts);
    ExactDomainWins(domain, conf.domains, 0);
    ExactHostWins(name, host, conf.domains[0].hosts, 0);
    VerdictCases(rules, at, NoAction);
  }

  /** As when a site is blocked by the hour, outside those hours, whatever the default rule says. */
  lemma OutsideHoursHidesDefault(def: ActionType, err: ActionType, name: Option<string>, domain: string, host: string,
                                 start: Minute, end: Minute, at: Moment)
    requires WildcardFree(host) && !InWindow(start, end, at.cal.wall(at.local, at.now).minute)
    ensures var rules := [Rule(BlockedTimeSpan, Format([], start, end, None))];
            Decide(OneSite(def, err, domain, host, rules), name, domain, host, at) == Decision(NoAction, false)
  {
    FormattedSpanIsRead([], start, end, None, at.local, at.cal);
    InactiveDomainHidesDefault(def, err, name, domain, host, [Rule(BlockedTimeSpan, Format([], start, end, None))], at);
  }

  ghost predicate DistinctHosts(hosts: seq<Host>) {
    forall i, j | 0 <= i < |hosts| && 0 <= j < |hosts| && hosts[i].name == hosts[j].name :: i == j
  }

  ghost predicate DistinctDomains(domains: seq<Domain>) {
    forall i, j | 0 <= i < |domains| && 0 <= j < |domains| && domains[i].name == domains[j].name :: i == j
  }

  /** The order of the configured hosts never changes the name picked, nor the entry when names are distinct. */
  lemma HostOrderIsIrrelevant(name: Option<string>, host: string, hosts: seq<Host>, shuffled: seq<Host>)
    requires forall h :: h in hosts <==> h in shuffled
    ensures BestHost(name, host, hosts).None? <==> BestHost(name, host, shuffled).None?
    ensures BestHost(name, host, hosts).Some? ==>
              BestHost(name, host, hosts).value.name == BestHost(name, host, shuffled).value.name
    ensures DistinctHosts(hosts) ==> BestHost(name, host, hosts) == BestHost(name, host, shuffled)
  {
    var scores, other := HostScores(name, host, hosts), HostScores(name, host, shuffled);
    HostScoresTransfer(name, host, hosts, shuffled);
    HostScoresTransfer(name, host, shuffled, hosts);
    PickIgnoresOrder(scores, other);
    if BestIndex(scores).Some? {
      assert hosts[BestIndex(scores).value] in hosts && shuffled[BestIndex(other).value] in hosts;
    }
  }

  lemma HostScoresTransfer(name: Option<string>, host: string, hosts: seq<Host>, shuffled: seq<Host>)
    requires forall h | h in hosts :: h in shuffled
    ensures forall i: nat | HasScore(HostScores(name, host, hosts), i) ::
              HostScores(name, host, hosts)[i] in HostScores(name, host, shuffled)
  {
    var scores, other := HostScores(name, host, hosts), HostScores(name, host, shuffled);
    forall i: nat | HasScore(scores, i) ensures scores[i] in other {
      assert hosts[i] in shuffled;
      var l :| 0 <= l < |shuffled| && shuffled[l] == hosts[i];
      assert other[l] == scores[i];
    }
  }

  /** Likewise for the configured domains. */
  lemma DomainOrderIsIrrelevant(domain: string, domains: seq<Domain>, shuffled: seq<Domain>)
    requires forall d :: d in domains <==> d in shuffled
    ensures BestDomain(domain, domains).None? <==> BestDomain(domain, shuffled).None?
    ensures BestDomain(domain, domains).Some? ==>
              BestDomain(domain, domains).value.name == BestDomain(domain, shuffled).value.name
    ensures DistinctDomains(domains) ==> BestDomain(domain, domains) == BestDomain(domain, shuffled)
  {
    var scores, other := DomainScores(domain, domains), DomainScores(domain, shuffled);
    DomainScoresTransfer(domain, domains, shuffled);
    DomainScoresTransfer(domain, shuffled, domains);
    PickIgnoresOrder(scores, other);
    if BestIndex(scores).Some? {
      assert domains[BestIndex(scores).value] in domains && shuffled[BestIndex(other).value] in domains;
    }
  }

  lemma DomainScoresTransfer(domain: string, domains: seq<Domain>, shuffled: seq<Domain>)
    requires forall d | d in domains :: d in shuffled
    ensures forall i: nat | HasScore(DomainScores(domain, domains), i) ::
              DomainScores(domain, domains)[i] in DomainScores(domain, shuffled)
  {
    var scores, other := DomainScores(domain, domains), DomainScores(domain, shuffled);
    forall i: nat | HasScore(scores, i) ensures scores[i] in other {
      assert domains[i] in shuffled;
      var l :| 0 <= l < |shuffled| && shuffled[l] == domains[i];
      assert other[l] == scores[i];
    }
  }

  /** So a whole decision does not depend on the order of hosts and domains with distinct names. */
  lemma DecisionIgnoresOrder(conf: Config, hosts: seq<Host>, domains: seq<Domain>, name: Option<string>,
                             domain: string, host: string, at: Moment)
    requires DistinctHosts(conf.hosts) && forall h :: h in conf.hosts <==> h in hosts
    requires DistinctDomains(conf.domains) && forall d :: d in conf.domains <==> d in domains
    ensures Decide(conf, name, domain, host, at)
              == Decide(conf.(hosts := hosts, domains := domains), name, domain, host, at)
  {
    HostOrderIsIrrelevant(name, host, conf.hosts, hosts);
    DomainOrderIsIrrelevant(domain, conf.domains, domains);
  }
}
