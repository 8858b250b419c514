/** Failover and the circuit breaker, told by what happened to each upstream (internal/proxy/upstream.go). */
module Breaker {
  import opened Text

  datatype Breaker = Breaker(maxFails: nat, failWindow: int)

  datatype Attempt = Attempt(at: int, ok: bool)
  type History = seq<Attempt>

  /** Two failures this far apart belong to one run; without a limit every run goes on. */
  predicate SameRun(b: Breaker, gap: int) {
    b.maxFails == 0 || gap < b.failWindow
  }

  /** Length of the trailing run of failed attempts. */
  function FailRun(b: Breaker, h: History): nat {
    if h == [] || h[|h| - 1].ok then 0
    else
      var n := |h| - 1;
      1 + (if n > 0 && SameRun(b, h[n].at - h[n - 1].at) then FailRun(b, h[..n]) else 0)
  }

  function LastFailure(h: History): Option<int> {
    if h == [] then None
    else if !h[|h| - 1].ok then Some(h[|h| - 1].at)
    else LastFailure(h[..|h| - 1])
  }

  predicate RecentFailure(b: Breaker, h: History, now: int) {
    LastFailure(h).Some? && now - LastFailure(h).value < b.failWindow
  }

  /** The breaker is open: the run reached the limit and its last failure is younger than the window. */
  predicate Open(b: Breaker, h: History, now: int) {
    b.maxFails > 0 && FailRun(b, h) >= b.maxFails && RecentFailure(b, h, now)
  }

  /** Attempt `i` failed, and every later one succeeded. */
  ghost predicate IsLastFailure(h: History, i: nat) {
    i < |h| && !h[i].ok && forall j | i < j < |h| :: h[j].ok
  }

  lemma {:induction false} LastFailureMeaning(h: History)
    ensures LastFailure(h).None? ==> forall i | 0 <= i < |h| :: h[i].ok
    ensures LastFailure(h).Some? ==> exists i: nat :: IsLastFailure(h, i) && h[i].at == LastFailure(h).value
  {
    if h != [] {
      var n := |h| - 1;
      if !h[n].ok {
        assert IsLastFailure(h, n);
      } else {
        LastFailureMeaning(h[..n]);
        assert forall j | 0 <= j < n :: h[..n][j] == h[j];
        if i: nat :| IsLastFailure(h[..n], i) && h[..n][i].at == LastFailure(h[..n]).value {
          assert IsLastFailure(h, i);
        }
      }
    }
  }

  /** No upstream is shut out forever. */
  lemma ReopensAfterWindow(b: Breaker, h: History, now: int)
    requires h != [] && forall i | 0 <= i < |h| :: h[i].at + b.failWindow <= now
    ensures !Open(b, h, now)
  {
    LastFailureMeaning(h);
  }

  predicate GoesOn(b: Breaker, h: History, i: nat)
    requires 0 < i < |h|
  {
    SameRun(b, h[i].at - h[i - 1].at)
  }

  /** The last `r` attempts all failed, each within the window of the next, and the run is no longer than that. */
  ghost predicate IsFailRun(b: Breaker, h: History, r: nat) {
    && r <= |h|
    && (forall i | |h| - r <= i < |h| :: !h[i].ok)
    && (forall i | |h| - r < i < |h| :: GoesOn(b, h, i))
    && (0 < r < |h| ==> h[|h| - r - 1].ok || !GoesOn(b, h, |h| - r))
    && (r == 0 ==> h == [] || h[|h| - 1].ok)
  }

  lemma LongerRun(b: Breaker, h: History, r: nat)
    requires |h| > 1 && !h[|h| - 1].ok && GoesOn(b, h, |h| - 1) && IsFailRun(b, h[..|h| - 1], r)
    ensures IsFailRun(b, h, r + 1)
  {
    var n := |h| - 1;
    forall i | n - r <= i < |h| ensures !h[i].ok {
      assert i < n ==> h[..n][i] == h[i];
    }
    forall i | n - r < i < |h| ensures GoesOn(b, h, i) {
      assert i < n ==> GoesOn(b, h[..n], i);
    }
    assert 0 < r < n ==> GoesOn(b, h[..n], n - r) == GoesOn(b, h, n - r);
  }

  /** The count is the length of the run. */
  lemma {:induction false} FailRunMeaning(b: Breaker, h: History)
    ensures IsFailRun(b, h, FailRun(b, h))
  {
    var n := |h| - 1;
    if n > 0 && !h[n].ok && GoesOn(b, h, n) {
      FailRunMeaning(b, h[..n]);
      LongerRun(b, h, FailRun(b, h[..n]));
    }
  }

  lemma {:induction false} RunOfFailures(b: Breaker, h: History, k: nat)
    requires b.maxFails > 0 && k <= |h|
    requires forall i | |h| - k <= i < |h| :: !h[i].ok
    requires forall i | |h| - k < i < |h| :: GoesOn(b, h, i)
    ensures FailRun(b, h) >= k
  {
    if k > 1 {
      var n := |h| - 1;
      forall i | n - (k - 1) < i < n ensures GoesOn(b, h[..n], i) {
        assert GoesOn(b, h, i);
      }
      assert GoesOn(b, h, n);
      RunOfFailures(b, h[..n], k - 1);
    }
  }

  /**
   * The last `maxFails` attempts all failed, each less than a window after the one before, the last less than one
   * ago.
   */
  ghost predicate FailedOut(b: Breaker, h: History, now: int) {
    && 0 < b.maxFails <= |h|
    && (forall i | |h| - b.maxFails <= i < |h| :: !h[i].ok)
    && (forall i: nat | |h| - b.maxFails < i < |h| && i > 0 :: Close(b, h, i))
    && now - h[|h| - 1].at < b.failWindow
  }

  predicate Close(b: Breaker, h: History, i: nat)
    requires 0 < i < |h|
  {
    h[i].at - h[i - 1].at < b.failWindow
  }

  /** A breaker is open exactly when the upstream has failed out. */
  lemma OpenIff(b: Breaker, h: History, now: int)
    ensures Open(b, h, now) <==> FailedOut(b, h, now)
  {
    FailRunMeaning(b, h);
    if Open(b, h, now) {
      forall i: nat | |h| - b.maxFails < i < |h| && i > 0 ensures Close(b, h, i) {
        assert GoesOn(b, h, i);
      }
    }
    if FailedOut(b, h, now) {
      forall i | |h| - b.maxFails < i < |h| ensures GoesOn(b, h, i) {
        assert Close(b, h, i);
      }
      RunOfFailures(b, h, b.maxFails);
    }
  }

  /** What the network does at the k-th contact of one call. */
  datatype Reply<M> = Answer(value: M) | Fault

  datatype Contact = Contact(round: nat, upstream: nat)

  datatype Outcome<M> = Outcome(histories: seq<History>, contacts: seq<Contact>, reply: Option<M>)

  /** One call from (round, upstream) on: skip open breakers, stop at the first answer. */
  function Failover<M>(b: Breaker, hs: seq<History>, now: int, network: nat -> Reply<M>,
                       round: nat, j: nat, tries: nat, made: nat): (o: Outcome<M>)
    requires j <= |hs|
    ensures |o.histories| == |hs|
    decreases tries - round, |hs| - j
  {
    if round >= tries then Outcome(hs, [], None)
    else if j == |hs| then Failover(b, hs, now, network, round + 1, 0, tries, made)
    else if Open(b, hs[j], now) then Failover(b, hs, now, network, round, j + 1, tries, made)
    else
      match network(made)
      case Answer(m) => Outcome(hs[j := hs[j] + [Attempt(now, true)]], [Contact(round, j)], Some(m))
      case Fault =>
        var rest := Failover(b, hs[j := hs[j] + [Attempt(now, false)]], now, network, round, j + 1, tries, made + 1);
        Outcome(rest.histories, [Contact(round, j)] + rest.contacts, rest.reply)
  }

  predicate Earlier(a: Contact, c: Contact) {
    a.round < c.round || (a.round == c.round && a.upstream < c.upstream)
  }

  /** Contacts go round by round in list order. */
  lemma {:induction false} ContactsInOrder<M>(b: Breaker, hs: seq<History>, now: int, network: nat -> Reply<M>,
                                              round: nat, j: nat, tries: nat, made: nat)
    requires j <= |hs|
    ensures var contacts := Failover(b, hs, now, network, round, j, tries, made).contacts;
            && (forall c | c in contacts :: c.round < tries && c.upstream < |hs| && !Earlier(c, Contact(round, j)))
            && (forall k, l | 0 <= k < l < |contacts| :: Earlier(contacts[k], contacts[l]))
    decreases tries - round, |hs| - j
  {
    if round < tries {
      if j == |hs| {
        ContactsInOrder(b, hs, now, network, round + 1, 0, tries, made);
      } else if Open(b, hs[j], now) {
        ContactsInOrder(b, hs, now, network, round, j + 1, tries, made);
      } else if network(made).Fault? {
        var hs' := hs[j := hs[j] + [Attempt(now, false)]];
        ContactsInOrder(b, hs', now, network, round, j + 1, tries, made + 1);
        var rest := Failover(b, hs', now, network, round, j + 1, tries, made + 1).contacts;
        assert forall l | 0 <= l < |rest| :: rest[l] in rest;
      }
    }
  }

  /** The reply is that of the first contact to succeed; there is none iff every contact made failed. */
  lemma {:induction false} FirstSuccessWins<M>(b: Breaker, hs: seq<History>, now: int, network: nat -> Reply<M>,
                                               round: nat, j: nat, tries: nat, made: nat)
    requires j <= |hs|
    ensures var o := Failover(b, hs, now, network, round, j, tries, made);
            var end := made + |o.contacts|;
            && (forall k | made <= k < end - 1 :: network(k).Fault?)
            && (o.reply.None? <==> forall k | made <= k < end :: network(k).Fault?)
            && (o.reply.Some? ==> o.contacts != [] && network(end - 1) == Answer(o.reply.value))
    decreases tries - round, |hs| - j
  {
    if round < tries {
      if j == |hs| {
        FirstSuccessWins(b, hs, now, network, round + 1, 0, tries, made);
      } else if Open(b, hs[j], now) {
        FirstSuccessWins(b, hs, now, network, round, j + 1, tries, made);
      } else if network(made).Fault? {
        var hs' := hs[j := hs[j] + [Attempt(now, false)]];
        FirstSuccessWins(b, hs', now, network, round, j + 1, tries, made + 1);
      }
    }
  }

  /** A call fails without contacting anyone exactly when every breaker is open. */
  lemma {:induction false} NoContactIffAllOpen<M>(b: Breaker, hs: seq<History>, now: int, network: nat -> Reply<M>,
                                                  round: nat, j: nat, tries: nat, made: nat)
    requires j <= |hs| && round < tries
    ensures Failover(b, hs, now, network, round, j, tries, made).contacts == [] <==>
            (forall i | j <= i < |hs| :: Open(b, hs[i], now))
            && (round + 1 < tries ==> forall i | 0 <= i < |hs| :: Open(b, hs[i], now))
    decreases tries - round, |hs| - j
  {
    if j == |hs| {
      if round + 1 < tries {
        NoContactIffAllOpen(b, hs, now, network, round + 1, 0, tries, made);
      }
    } else if Open(b, hs[j], now) {
      NoContactIffAllOpen(b, hs, now, network, round, j + 1, tries, made);
    }
  }

  function Contacted(contacts: seq<Contact>, i: nat): nat {
    if contacts == [] then 0
    else (if contacts[0].upstream == i then 1 else 0) + Contacted(contacts[1..], i)
  }

  /** An upstream's history after `k` more failures at `now`. */
  function Failed(h: History, now: int, k: nat): History {
    if k == 0 then h else Failed(h, now, k - 1) + [Attempt(now, false)]
  }

  lemma {:induction false} FailedOnceMore(h: History, now: int, k: nat)
    ensures Failed(h + [Attempt(now, false)], now, k) == Failed(h, now, k + 1)
  {
    if k > 0 {
      FailedOnceMore(h, now, k - 1);
    }
  }

  /** How often upstream `i` was contacted before round `r`. */
  function ContactedBefore(contacts: seq<Contact>, i: nat, r: nat): nat {
    if contacts == [] then 0
    else (if contacts[0].upstream == i && contacts[0].round < r then 1 else 0) + ContactedBefore(contacts[1..], i, r)
  }

  lemma {:induction false} NotContactedBefore(contacts: seq<Contact>, i: nat, r: nat)
    requires forall c | c in contacts :: c.round >= r
    ensures ContactedBefore(contacts, i, r) == 0
  {
    if contacts != [] {
      assert contacts[0] in contacts;
      NotContactedBefore(contacts[1..], i, r);
    }
  }

  /** The call got as far as `c`: it was not answered before. */
  predicate Reached<M>(o: Outcome<M>, c: Contact) {
    o.reply.None? || (o.contacts != [] && !Earlier(o.contacts[|o.contacts| - 1], c))
  }

  lemma {:induction false} LastIsContacted(contacts: seq<Contact>, i: nat)
    ensures contacts != [] && contacts[|contacts| - 1].upstream == i ==> Contacted(contacts, i) > 0
  {
    if |contacts| > 1 {
      LastIsContacted(contacts[1..], i);
    }
  }

  /** The breaker an upstream has in a round, given the contacts made. */
  predicate OpenBy(b: Breaker, h: History, now: int, contacts: seq<Contact>, c: Contact) {
    Open(b, Failed(h, now, ContactedBefore(contacts, c.upstream, c.round)), now)
  }

  lemma OneContactMore(b: Breaker, hs: seq<History>, now: int, rest: seq<Contact>, first: Contact, c: Contact)
    requires first.upstream < |hs| && c.upstream < |hs| && Earlier(first, c)
    ensures var hs' := hs[first.upstream := hs[first.upstream] + [Attempt(now, false)]];
            OpenBy(b, hs[c.upstream], now, [first] + rest, c) == OpenBy(b, hs'[c.upstream], now, rest, c)
  {
    assert ([first] + rest)[1..] == rest;
    FailedOnceMore(hs[c.upstream], now, ContactedBefore(rest, c.upstream, c.round));
  }

  lemma ReachedLater<M>(o: Outcome<M>, rest: Outcome<M>, first: Contact, c: Contact)
    requires o.reply == rest.reply && o.contacts == [first] + rest.contacts
    requires rest.reply.Some? ==> rest.contacts != []
    requires Reached(o, c) && Earlier(first, c)
    ensures Reached(rest, c) && (c in o.contacts <==> c in rest.contacts)
  {
    assert rest.contacts != [] ==> o.contacts[|o.contacts| - 1] == rest.contacts[|rest.contacts| - 1];
  }

  /**
   * As long as the call is not answered, an upstream is skipped in a round exactly when its breaker is open by then.
   */
  lemma {:induction false} SkippedIffOpen<M>(b: Breaker, hs: seq<History>, now: int, network: nat -> Reply<M>,
                                             round: nat, j: nat, tries: nat, made: nat, c: Contact)
    requires j <= |hs| && c.upstream < |hs| && c.round < tries && !Earlier(c, Contact(round, j))
    requires Reached(Failover(b, hs, now, network, round, j, tries, made), c)
    ensures var contacts := Failover(b, hs, now, network, round, j, tries, made).contacts;
            c !in contacts <==> OpenBy(b, hs[c.upstream], now, contacts, c)
    decreases tries - round, |hs| - j
  {
    if j == |hs| {
      SkippedIffOpen(b, hs, now, network, round + 1, 0, tries, made, c);
    } else if c == Contact(round, j) {
      FirstIsSkippedIffOpen(b, hs, now, network, round, j, tries, made);
    } else if Open(b, hs[j], now) {
      SkippedIffOpen(b, hs, now, network, round, j + 1, tries, made, c);
    } else if network(made).Fault? {
      var hs' := hs[j := hs[j] + [Attempt(now, false)]];
      var o := Failover(b, hs, now, network, round, j, tries, made);
      var rest := Failover(b, hs', now, network, round, j + 1, tries, made + 1);
      FirstSuccessWins(b, hs', now, network, round, j + 1, tries, made + 1);
      ReachedLater(o, rest, Contact(round, j), c);
      SkippedIffOpen(b, hs', now, network, round, j + 1, tries, made + 1, c);
      OneContactMore(b, hs, now, rest.contacts, Contact(round, j), c);
    }
  }

  lemma FirstIsSkippedIffOpen<M>(b: Breaker, hs: seq<History>, now: int, network: nat -> Reply<M>,
                                 round: nat, j: nat, tries: nat, made: nat)
    requires j < |hs| && round < tries
    ensures var contacts := Failover(b, hs, now, network, round, j, tries, made).contacts;
            Contact(round, j) !in contacts <==> OpenBy(b, hs[j], now, contacts, Contact(round, j))
  {
    var contacts := Failover(b, hs, now, network, round, j, tries, made).contacts;
    ContactsInOrder(b, hs, now, network, round, j, tries, made);
    NotContactedBefore(contacts, j, round);
    if Open(b, hs[j], now) {
      ContactsInOrder(b, hs, now, network, round, j + 1, tries, made);
    }
  }

  /** An upstream's history after `times` contacts in one call, the last of them successful if it answered. */
  function AfterCall(h: History, now: int, times: nat, answered: bool): History {
    if answered && times > 0 then Failed(h, now, times - 1) + [Attempt(now, true)] else Failed(h, now, times)
  }

  lemma AfterOneMore(h: History, now: int, times: nat, answered: bool)
    requires answered ==> times > 0
    ensures AfterCall(h + [Attempt(now, false)], now, times, answered) == AfterCall(h, now, times + 1, answered)
  {
    FailedOnceMore(h, now, times);
    if times > 0 {
      FailedOnceMore(h, now, times - 1);
    }
  }

  predicate AnsweredBy<M>(o: Outcome<M>, i: nat) {
    o.reply.Some? && o.contacts != [] && o.contacts[|o.contacts| - 1].upstream == i
  }

  lemma LaterOutcome<M>(o: Outcome<M>, rest: Outcome<M>, first: Contact, i: nat)
    requires o.reply == rest.reply && o.contacts == [first] + rest.contacts
    requires rest.reply.Some? ==> rest.contacts != []
    ensures AnsweredBy(o, i) == AnsweredBy(rest, i) && (AnsweredBy(rest, i) ==> Contacted(rest.contacts, i) > 0)
    ensures Contacted(o.contacts, i) == Contacted(rest.contacts, i) + if first.upstream == i then 1 else 0
  {
    assert o.contacts[1..] == rest.contacts;
    assert rest.contacts != [] ==> o.contacts[|o.contacts| - 1] == rest.contacts[|rest.contacts| - 1];
    LastIsContacted(rest.contacts, i);
  }

  lemma RecordedLater<M>(o: Outcome<M>, rest: Outcome<M>, first: Contact, h: History, now: int, i: nat)
    requires o == Outcome(rest.histories, [first] + rest.contacts, rest.reply) && i < |rest.histories|
    requires rest.reply.Some? ==> rest.contacts != []
    requires var h' := if first.upstream == i then h + [Attempt(now, false)] else h;
             rest.histories[i] == AfterCall(h', now, Contacted(rest.contacts, i), AnsweredBy(rest, i))
    ensures o.histories[i] == AfterCall(h, now, Contacted(o.contacts, i), AnsweredBy(o, i))
  {
    LaterOutcome(o, rest, first, i);
    if first.upstream == i {
      AfterOneMore(h, now, Contacted(rest.contacts, i), AnsweredBy(rest, i));
    }
  }

  /** Every contact ends up in its upstream's history: failures, and one success if the upstream answered. */
  lemma {:induction false} ContactsAreRecorded<M>(b: Breaker, hs: seq<History>, now: int, network: nat -> Reply<M>,
                                                  round: nat, j: nat, tries: nat, made: nat, i: nat)
    requires j <= |hs| && i < |hs|
    ensures var o := Failover(b, hs, now, network, round, j, tries, made);
            o.histories[i] == AfterCall(hs[i], now, Contacted(o.contacts, i), AnsweredBy(o, i))
    decreases tries - round, |hs| - j
  {
    if round < tries {
      if j == |hs| {
        ContactsAreRecorded(b, hs, now, network, round + 1, 0, tries, made, i);
      } else if Open(b, hs[j], now) {
        ContactsAreRecorded(b, hs, now, network, round, j + 1, tries, made, i);
      } else if network(made).Fault? {
        var hs' := hs[j := hs[j] + [Attempt(now, false)]];
        var rest := Failover(b, hs', now, network, round, j + 1, tries, made + 1);
        ContactsAreRecorded(b, hs', now, network, round, j + 1, tries, made + 1, i);
        FirstSuccessWins(b, hs', now, network, round, j + 1, tries, made + 1);
        RecordedLater(Failover(b, hs, now, network, round, j, tries, made), rest, Contact(round, j), hs[i], now, i);
      } else {
        assert [Contact(round, j)][1..] == [];
      }
    }
  }

  /** What is left of an upstream's failure allowance at `now`. */
  function Allowance(b: Breaker, h: History, now: int): int {
    if h != [] && h[|h| - 1] == Attempt(now, false) then
      if FailRun(b, h) < b.maxFails then b.maxFails - FailRun(b, h) else 0
    else b.maxFails
  }

  lemma FailureSpendsAllowance(b: Breaker, h: History, now: int)
    requires b.maxFails > 0 && b.failWindow > 0 && !Open(b, h, now)
    ensures Allowance(b, h + [Attempt(now, false)], now) + 1 <= Allowance(b, h, now)
  {
    var h' := h + [Attempt(now, false)];
    assert h'[..|h|] == h;
    assert h != [] ==> h'[|h| - 1] == h[|h| - 1];
  }

  /** With a limit and a window, one call contacts each upstream at most as often as its allowance. */
  lemma {:induction false} AllowanceBoundsContacts<M>(b: Breaker, hs: seq<History>, now: int, network: nat -> Reply<M>,
                                                      round: nat, j: nat, tries: nat, made: nat, i: nat)
    requires j <= |hs| && i < |hs| && b.maxFails > 0 && b.failWindow > 0
    ensures Contacted(Failover(b, hs, now, network, round, j, tries, made).contacts, i) <= Allowance(b, hs[i], now)
    decreases tries - round, |hs| - j
  {
    if round < tries {
      if j == |hs| {
        AllowanceBoundsContacts(b, hs, now, network, round + 1, 0, tries, made, i);
      } else if Open(b, hs[j], now) {
        AllowanceBoundsContacts(b, hs, now, network, round, j + 1, tries, made, i);
      } else {
        FailureSpendsAllowance(b, hs[j], now);
        if network(made).Fault? {
          var hs' := hs[j := hs[j] + [Attempt(now, false)]];
          AllowanceBoundsContacts(b, hs', now, network, round, j + 1, tries, made + 1, i);
        }
      }
    }
  }

  /** Each round contacts an upstream at most once. */
  lemma {:induction false} OncePerRound<M>(b: Breaker, hs: seq<History>, now: int, network: nat -> Reply<M>,
                                           round: nat, j: nat, tries: nat, made: nat, i: nat)
    requires j <= |hs| && i < |hs| && round <= tries
    ensures Contacted(Failover(b, hs, now, network, round, j, tries, made).contacts, i)
            <= if i < j && round < tries then tries - round - 1 else tries - round
    decreases tries - round, |hs| - j
  {
    if round < tries {
      if j == |hs| {
        OncePerRound(b, hs, now, network, round + 1, 0, tries, made, i);
      } else if Open(b, hs[j], now) {
        OncePerRound(b, hs, now, network, round, j + 1, tries, made, i);
      } else if network(made).Fault? {
        var hs' := hs[j := hs[j] + [Attempt(now, false)]];
        OncePerRound(b, hs', now, network, round, j + 1, tries, made + 1, i);
      }
    }
  }

  /** One whole call contacts each upstream at most min(tries, maxFails) times. */
  lemma ContactBound<M>(b: Breaker, hs: seq<History>, now: int, network: nat -> Reply<M>, tries: nat, i: nat)
    requires i < |hs|
    ensures var times := Contacted(Failover(b, hs, now, network, 0, 0, tries, 0).contacts, i);
            times <= tries && (b.maxFails > 0 && b.failWindow > 0 ==> times <= b.maxFails)
  {
    OncePerRound(b, hs, now, network, 0, 0, tries, 0, i);
    if b.maxFails > 0 && b.failWindow > 0 {
      AllowanceBoundsContacts(b, hs, now, network, 0, 0, tries, 0, i);
    }
  }

  /** At most tries x upstreams contacts in all. */
  lemma {:induction false} TotalContactBound<M>(b: Breaker, hs: seq<History>, now: int, network: nat -> Reply<M>,
                                                round: nat, j: nat, tries: nat, made: nat)
    requires j <= |hs| && round <= tries
    ensures |Failover(b, hs, now, network, round, j, tries, made).contacts|
            <= if round == tries then 0 else (tries - round) * |hs| - j
    decreases tries - round, |hs| - j
  {
    if round < tries {
      if j == |hs| {
        TotalContactBound(b, hs, now, network, round + 1, 0, tries, made);
        assert (tries - round) * |hs| == (tries - round - 1) * |hs| + |hs|;
      } else {
        MoreRounds(tries - round, |hs|);
        if Open(b, hs[j], now) {
          TotalContactBound(b, hs, now, network, round, j + 1, tries, made);
        } else if network(made).Fault? {
          var hs' := hs[j := hs[j] + [Attempt(now, false)]];
          TotalContactBound(b, hs', now, network, round, j + 1, tries, made + 1);
        }
      }
    }
  }

  lemma MoreRounds(rounds: nat, n: nat)
    requires rounds >= 1
    ensures rounds * n >= n
  {
    assert (rounds - 1) * n >= 0;
    assert rounds * n == (rounds - 1) * n + n;
  }

  predicate WithinLimit(b: Breaker, h: History) {
    b.maxFails > 0 ==> FailRun(b, h) <= b.maxFails
  }

  lemma AttemptKeepsLimit(b: Breaker, h: History, now: int, ok: bool)
    requires WithinLimit(b, h) && !Open(b, h, now)
    ensures WithinLimit(b, h + [Attempt(now, ok)])
  {
    assert (h + [Attempt(now, ok)])[..|h|] == h;
  }

  /** No run of failures ever passes the limit. */
  lemma {:induction false} FailoverKeepsLimit<M>(b: Breaker, hs: seq<History>, now: int, network: nat -> Reply<M>,
                                                 round: nat, j: nat, tries: nat, made: nat)
    requires j <= |hs| && forall i | 0 <= i < |hs| :: WithinLimit(b, hs[i])
    ensures forall i | 0 <= i < |hs| ::
              WithinLimit(b, Failover(b, hs, now, network, round, j, tries, made).histories[i])
    decreases tries - round, |hs| - j
  {
    if round < tries {
      if j == |hs| {
        FailoverKeepsLimit(b, hs, now, network, round + 1, 0, tries, made);
      } else if Open(b, hs[j], now) {
        FailoverKeepsLimit(b, hs, now, network, round, j + 1, tries, made);
      } else {
        AttemptKeepsLimit(b, hs[j], now, true);
        AttemptKeepsLimit(b, hs[j], now, false);
        if network(made).Fault? {
          FailoverKeepsLimit(b, hs[j := hs[j] + [Attempt(now, false)]], now, network, round, j + 1, tries, made + 1);
        }
      }
    }
  }
}
