/** The documented order of patterns, level by level, and what is picked by it (internal/rules/rulesengine.go). */
module Specificity {
  import opened Config
  import opened Precedence
  import opened RuleLaws
  import opened RulesEngine
  import opened Text
  import opened Wildcard

  /** How many wildcards a pattern has. */
  function Wilds(p: string): nat {
    Count(p, '*') + Count(p, '?')
  }

  /** The domain that is picked, against every other that matches: exact, then fewer wildcards, longer, alphabetical. */
  lemma PickedDomainLevels(domain: string, domains: seq<Domain>, q: Domain) returns (p: Domain)
    requires q in domains && Matches(domain, q.name)
    ensures BestDomain(domain, domains) == Some(p) && p in domains && Matches(domain, p.name)
    ensures q.name == domain ==> p.name == domain
    ensures p.name != domain ==> Wilds(p.name) <= Wilds(q.name)
    ensures p.name != domain && Wilds(p.name) == Wilds(q.name) ==> |p.name| >= |q.name|
    ensures p.name != domain && Wilds(p.name) == Wilds(q.name) && |p.name| == |q.name| ==>
              p.name == q.name || LexLess(p.name, q.name)
  {
    var i := BestDomainMeaning(domain, domains);
    var j :| 0 <= j < |domains| && domains[j] == q;
    p := domains[i];
  }

  /** The first of several entries with the picked name is picked. */
  lemma PickedDomainIsFirst(domain: string, domains: seq<Domain>, p: Domain) returns (i: nat)
    requires BestDomain(domain, domains) == Some(p)
    ensures i < |domains| && domains[i] == p && forall j | 0 <= j < i :: domains[j].name != p.name
  {
    i := BestDomainMeaning(domain, domains);
    forall j | 0 <= j < i ensures domains[j].name != p.name {
      BeforeIsStrictWeakOrder(DomainScore(domain, p.name), DomainScore(domain, domains[j].name),
          DomainScore(domain, p.name));
    }
  }

  /** What a host pattern is compared with: the device's name, or the address when it has none. */
  function Client(name: Option<string>, host: string): string {
    if name.Some? then name.value else host
  }

  /** A host pattern matches as the address itself, wildcards or not, or as a pattern for the client. */
  ghost predicate Fits(name: Option<string>, host: string, p: string) {
    p == host || Matches(Client(name, host), p)
  }

  lemma FitsMeaning(name: Option<string>, host: string, p: string)
    ensures HostMatch(name, host, p) <==> Fits(name, host, p)
  {
    AcceptsIffMatches(Client(name, host), p);
  }

  /** The host that is picked, against every other that matches; only the plain address counts as exact. */
  lemma PickedHostLevels(name: Option<string>, host: string, hosts: seq<Host>, q: Host) returns (p: Host)
    requires q in hosts && Fits(name, host, q.name)
    ensures BestHost(name, host, hosts) == Some(p) && p in hosts && Fits(name, host, p.name)
    ensures q.name == host && Wilds(host) == 0 ==> p.name == host
    ensures p.name != host || Wilds(host) > 0 ==> Wilds(p.name) <= Wilds(q.name)
    ensures (p.name != host || Wilds(host) > 0) && Wilds(p.name) == Wilds(q.name) ==> |p.name| >= |q.name|
    ensures (p.name != host || Wilds(host) > 0) && Wilds(p.name) == Wilds(q.name) && |p.name| == |q.name| ==>
              p.name == q.name || LexLess(p.name, q.name)
  {
    var i := BestHostMeaning(name, host, hosts);
    var j :| 0 <= j < |hosts| && hosts[j] == q;
    FitsMeaning(name, host, q.name);
    p := hosts[i];
    FitsMeaning(name, host, p.name);
    WildcardFreeCount(host);
  }

  lemma PickedHostIsFirst(name: Option<string>, host: string, hosts: seq<Host>, p: Host) returns (i: nat)
    requires BestHost(name, host, hosts) == Some(p)
    ensures i < |hosts| && hosts[i] == p && forall j | 0 <= j < i :: hosts[j].name != p.name
  {
    i := BestHostMeaning(name, host, hosts);
    forall j | 0 <= j < i ensures hosts[j].name != p.name {
      BeforeIsStrictWeakOrder(HostScore(host, p.name), HostScore(host, hosts[j].name), HostScore(host, p.name));
    }
  }

  /** Nothing is picked exactly when nothing matches. */
  lemma NothingPicked(name: Option<string>, domain: string, host: string, hosts: seq<Host>, domains: seq<Domain>)
    ensures BestHost(name, host, hosts).None? <==> forall h | h in hosts :: !Fits(name, host, h.name)
    ensures BestDomain(domain, domains).None? <==> forall d | d in domains :: !Matches(domain, d.name)
  {
    var i := BestHostMeaning(name, host, hosts);
    var j := BestDomainMeaning(domain, domains);
    forall h | h in hosts ensures HostMatch(name, host, h.name) <==> Fits(name, host, h.name) {
      FitsMeaning(name, host, h.name);
    }
    assert forall k | 0 <= k < |hosts| :: hosts[k] in hosts;
    assert forall k | 0 <= k < |domains| :: domains[k] in domains;
  }

  /** Of two matching patterns with equally many wildcards the longer is picked, in either order. */
  lemma LongerDomainWins(domain: string, p: Domain, q: Domain)
    requires Matches(domain, p.name) && Matches(domain, q.name) && p.name != domain && q.name != domain
    requires Wilds(p.name) == Wilds(q.name) && |p.name| > |q.name|
    ensures BestDomain(domain, [p, q]) == Some(p) && BestDomain(domain, [q, p]) == Some(p)
  {
    var r := PickedDomainLevels(domain, [p, q], p);
    var s := PickedDomainLevels(domain, [q, p], p);
  }

  lemma LongerHostWins(name: Option<string>, host: string, p: Host, q: Host)
    requires Fits(name, host, p.name) && Fits(name, host, q.name) && p.name != host && q.name != host
    requires Wilds(p.name) == Wilds(q.name) && |p.name| > |q.name|
    ensures BestHost(name, host, [p, q]) == Some(p) && BestHost(name, host, [q, p]) == Some(p)
  {
    var r := PickedHostLevels(name, host, [p, q], p);
    var s := PickedHostLevels(name, host, [q, p], p);
  }

  /** And of two matching patterns the one with fewer wildcards, however short. */
  lemma FewerWildcardsWin(domain: string, p: Domain, q: Domain)
    requires Matches(domain, p.name) && Matches(domain, q.name) && p.name != domain && q.name != domain
    requires Wilds(p.name) < Wilds(q.name)
    ensures BestDomain(domain, [p, q]) == Some(p) && BestDomain(domain, [q, p]) == Some(p)
  {
    var r := PickedDomainLevels(domain, [p, q], p);
    var s := PickedDomainLevels(domain, [q, p], p);
  }
}
