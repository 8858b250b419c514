/** The decision of the DNS handler (internal/proxy/proxy.go). */
module Proxy {
  import opened Accounting
  import opened Config
  import opened Ledger
  import opened Policy
  import opened RulesEngine
  import opened Text
  import opened TimeSpan

  /** The compiled policy: who owns an address, and what applies to that user. */
  datatype Runtime = Runtime(ownerByIP: map<string, string>, usersById: map<string, User>,
                             rulesByUser: map<string, seq<DomainRule>>, allowWindows: map<string, seq<TimeWindow>>)

  predicate IsBlockingAction(action: ActionType) {
    action == BlockedDevice || action == BlockedSiteBan || action == BlockedTimeSpan
  }

  /** The user behind an address, through the device that has it. */
  function MatchedUser(rt: Option<Runtime>, client: string): Option<User> {
    if rt.Some? && client in rt.value.ownerByIP && rt.value.ownerByIP[client] != ""
       && rt.value.ownerByIP[client] in rt.value.usersById
    then Some(rt.value.usersById[rt.value.ownerByIP[client]])
    else None
  }

  /** How the handler checks a window: in the local zone. */
  function Inside(at: Moment): Checker {
    (def, now) => InTimeSpan(def, now, at.local, at.cal)
  }

  function RulesOf(rt: Runtime, user: string): seq<DomainRule> {
    Get(rt.rulesByUser, user, [])
  }

  function WindowsOf(rt: Runtime, user: string): seq<TimeWindow> {
    Get(rt.allowWindows, user, [])
  }

  predicate RuleSays(rules: seq<DomainRule>, domain: string, action: DomainAction) {
    MatchedRule(rules, domain).Some? && MatchedRule(rules, domain).value.action == action
  }

  // --- Runs of queries ----------------------------------------------------------------------------

  /** What the handler finds out about one query: its user if known, and what stands against it. */
  datatype Query = Query(user: Option<string>, outside: bool, configBlocks: bool, ruled: bool, now: int)

  /** A query counts against a budget when its user is known and in a window, and the configuration lets it pass. */
  predicate Counts(q: Query) {
    q.user.Some? && !q.outside && !q.configBlocks
  }

  /** The requests charged in the course of a run. */
  function ChargedBy(qs: seq<Query>): seq<Request> {
    if qs == [] then []
    else
      var q := qs[|qs| - 1];
      ChargedBy(qs[..|qs| - 1]) + (if Counts(q) then [Request(q.user.value, q.now)] else [])
  }

  predicate BudgetBlocks(s: Settings, qs: seq<Query>, i: nat)
    requires i < |qs|
  {
    Counts(qs[i]) && var run := ChargedBy(qs[..i + 1]); run != [] && Blocked(s, run, |run| - 1)
  }

  /** Why a request is stopped: the first of these causes. */
  function FirstReason(q: Query, broke: bool): Reason {
    if q.user.Some? && q.outside then OutsideWindow
    else if q.configBlocks then ConfigBlock
    else if broke then BudgetExceeded
    else if q.user.Some? && q.ruled then PolicyBlock
    else NoReason
  }

  function ReasonFor(s: Settings, qs: seq<Query>, i: nat): Reason
    requires i < |qs|
  {
    FirstReason(qs[i], BudgetBlocks(s, qs, i))
  }

  ghost predicate OrderedQueries(qs: seq<Query>) {
    forall i, j | 0 <= i < j < |qs| :: qs[i].now <= qs[j].now
  }

  lemma {:induction false} ChargedInOrder(qs: seq<Query>)
    requires OrderedQueries(qs)
    ensures OrderedRun(ChargedBy(qs))
    ensures forall i | 0 <= i < |ChargedBy(qs)| :: qs != [] && ChargedBy(qs)[i].now <= qs[|qs| - 1].now
  {
    if qs != [] {
      ChargedInOrder(qs[..|qs| - 1]);
    }
  }

  lemma {:induction false} ChargedPrefix(qs: seq<Query>, n: nat)
    requires n <= |qs|
    ensures ChargedBy(qs[..n]) <= ChargedBy(qs)
  {
    if n < |qs| {
      ChargedPrefix(qs[..|qs| - 1], n);
      assert qs[..|qs| - 1][..n] == qs[..n];
    } else {
      assert qs[..n] == qs;
    }
  }

  lemma CountedQueryIsLast(qs: seq<Query>, i: nat)
    requires i < |qs| && Counts(qs[i])
    ensures var run := ChargedBy(qs[..i + 1]);
            run != [] && run[|run| - 1] == Request(qs[i].user.value, qs[i].now)
  {
    assert qs[..i + 1][|qs[..i + 1]| - 1] == qs[i];
  }

  lemma OneMoreInOrder(qs: seq<Query>, q: Query)
    requires OrderedQueries(qs) && forall i | 0 <= i < |qs| :: qs[i].now <= q.now
    ensures OrderedQueries(qs + [q]) && OrderedRun(ChargedBy(qs))
    ensures forall i | 0 <= i < |ChargedBy(qs)| :: ChargedBy(qs)[i].now <= q.now
  {
    ChargedInOrder(qs);
    var run := ChargedBy(qs);
    forall i | 0 <= i < |run| ensures run[i].now <= q.now {
      assert run[i].now <= qs[|qs| - 1].now;
    }
  }

  lemma OneMoreCharged(s: Settings, qs: seq<Query>, q: Query)
    ensures ChargedBy(qs + [q]) == if Counts(q) then ChargedBy(qs) + [Request(q.user.value, q.now)] else ChargedBy(qs)
    ensures BudgetBlocks(s, qs + [q], |qs|)
            <==> Counts(q) && Blocked(s, ChargedBy(qs) + [Request(q.user.value, q.now)], |ChargedBy(qs)|)
  {
    var more := qs + [q];
    assert more[..|more| - 1] == qs && more[..|qs| + 1] == more;
  }

  /** Whether the budget stopped the last query is what charging it said. */
  lemma ReasonOfNext(s: Settings, qs: seq<Query>, q: Query, broke: bool)
    requires broke == (Counts(q) && Blocked(s, ChargedBy(qs) + [Request(q.user.value, q.now)], |ChargedBy(qs)|))
    ensures ReasonFor(s, qs + [q], |qs|) == FirstReason(q, broke)
  {
    OneMoreCharged(s, qs, q);
  }

  /** The ledger of `user` on `day`, over the requests charged by the first `n` queries, has reached the budget. */
  predicate SpentBy(s: Settings, qs: seq<Query>, n: nat, user: string, day: string)
    requires n <= |qs|
  {
    OverBudget(s, user, DayTimes(s, ChargedBy(qs[..n]), user, day))
  }

  lemma OrderedUpTo(qs: seq<Query>, n: nat)
    requires OrderedQueries(qs) && n <= |qs|
    ensures OrderedRun(ChargedBy(qs[..n]))
  {
    ChargedInOrder(qs[..n]);
  }

  /** The budget stops a counting query iff its user's day is spent. */
  lemma BudgetBlocksIff(s: Settings, qs: seq<Query>, i: nat, user: string, day: string)
    requires s.Valid() && OrderedQueries(qs) && i < |qs| && Counts(qs[i])
    requires qs[i].user == Some(user) && s.dayOf(qs[i].now) == day
    ensures BudgetBlocks(s, qs, i) <==> SpentBy(s, qs, i + 1, user, day)
  {
    var run := ChargedBy(qs[..i + 1]);
    OrderedUpTo(qs, i + 1);
    CountedQueryIsLast(qs, i);
    LastBlockedIff(s, run, user, qs[i].now);
  }

  /** A query is forwarded exactly when nothing stands against it and its user's day is within budget. */
  lemma ForwardedIff(s: Settings, qs: seq<Query>, i: nat)
    requires s.Valid() && OrderedQueries(qs) && i < |qs|
    ensures var q := qs[i];
            ReasonFor(s, qs, i) == NoReason <==>
            !q.configBlocks && (q.user.Some? ==>
              !q.outside && !q.ruled && !SpentBy(s, qs, i + 1, q.user.value, s.dayOf(q.now)))
  {
    if Counts(qs[i]) {
      BudgetBlocksIff(s, qs, i, qs[i].user.value, s.dayOf(qs[i].now));
    }
  }

  /** Why each query of a run is stopped, and that no other query is. */
  lemma ReasonMeaning(s: Settings, qs: seq<Query>, i: nat)
    requires s.Valid() && OrderedQueries(qs) && i < |qs|
    ensures var q, reason := qs[i], ReasonFor(s, qs, i);
            var spent := q.user.Some? && SpentBy(s, qs, i + 1, q.user.value, s.dayOf(q.now));
            && (reason == OutsideWindow <==> q.user.Some? && q.outside)
            && (reason == ConfigBlock <==> q.configBlocks && (q.user.None? || !q.outside))
            && (reason == BudgetExceeded <==> q.user.Some? && !q.outside && !q.configBlocks && spent)
            && (reason == PolicyBlock <==> q.user.Some? && !q.outside && !q.configBlocks && !spent && q.ruled)
  {
    if Counts(qs[i]) {
      BudgetBlocksIff(s, qs, i, qs[i].user.value, s.dayOf(qs[i].now));
    }
  }

  /** A query is charged exactly when its user is known and in a window, and the configuration lets it pass. */
  lemma ChargedOnArrival(qs: seq<Query>, q: Query)
    ensures ChargedBy(qs + [q]) == if q.user.Some? && !q.outside && !q.configBlocks
                                   then ChargedBy(qs) + [Request(q.user.value, q.now)] else ChargedBy(qs)
  {
    assert (qs + [q])[..|qs|] == qs;
  }

  /** A day that is spent stays spent as more queries come. */
  lemma SpentStaysSpent(s: Settings, qs: seq<Query>, m: nat, n: nat, user: string, day: string)
    requires OrderedQueries(qs) && m <= n <= |qs| && SpentBy(s, qs, m, user, day)
    ensures SpentBy(s, qs, n, user, day)
  {
    var before, run := ChargedBy(qs[..m]), ChargedBy(qs[..n]);
    OrderedUpTo(qs, n);
    assert qs[..n][..m] == qs[..m];
    ChargedPrefix(qs[..n], m);
    assert run[..|before|] == before && run[..|run|] == run;
    StillSpent(s, run, user, day, |before|, |run|);
  }

  lemma SpentOnceBlocked(s: Settings, qs: seq<Query>, i: nat, user: string, day: string)
    requires s.Valid() && OrderedQueries(qs) && i < |qs| && BudgetBlocks(s, qs, i)
    requires qs[i].user == Some(user) && s.dayOf(qs[i].now) == day
    ensures SpentBy(s, qs, i + 1, user, day)
  {
    BudgetBlocksIff(s, qs, i, user, day);
  }

  lemma BlockedOnceSpent(s: Settings, qs: seq<Query>, m: nat, j: nat, user: string, day: string)
    requires s.Valid() && OrderedQueries(qs) && m <= j < |qs| && Counts(qs[j]) && SpentBy(s, qs, m, user, day)
    requires qs[j].user == Some(user) && s.dayOf(qs[j].now) == day
    ensures BudgetBlocks(s, qs, j)
  {
    SpentStaysSpent(s, qs, m, j + 1, user, day);
    BudgetBlocksIff(s, qs, j, user, day);
  }

  /** The budget blocks a counting query again if it blocked an earlier one of the same user and day. */
  lemma BudgetStaysBroke(s: Settings, qs: seq<Query>, i: nat, j: nat)
    requires s.Valid() && OrderedQueries(qs) && i < j < |qs| && Counts(qs[j])
    requires qs[i].user == qs[j].user && s.dayOf(qs[i].now) == s.dayOf(qs[j].now)
    requires BudgetBlocks(s, qs, i)
    ensures BudgetBlocks(s, qs, j)
  {
    SpentOnceBlocked(s, qs, i, qs[j].user.value, s.dayOf(qs[j].now));
    BlockedOnceSpent(s, qs, i + 1, j, qs[j].user.value, s.dayOf(qs[j].now));
  }

  /**
   * Whole-run lockout: once the budget has stopped one query of a user, every later query of that user on
   * the same day is stopped, from whatever device and whatever domain rules say.
   */
  lemma BudgetLockout(s: Settings, qs: seq<Query>, i: nat, j: nat)
    requires s.Valid() && OrderedQueries(qs) && i < j < |qs|
    requires qs[i].user == qs[j].user && s.dayOf(qs[i].now) == s.dayOf(qs[j].now)
    requires ReasonFor(s, qs, i) == BudgetExceeded
    ensures ReasonFor(s, qs, j) != NoReason
  {
    assert BudgetBlocks(s, qs, i);
    if Counts(qs[j]) {
      BudgetStaysBroke(s, qs, i, j);
    }
  }

  lemma RunOfOneMore(s: Settings, run: seq<Request>, r: Request)
    requires OrderedRun(run) && forall i | 0 <= i < |run| :: run[i].now <= r.now
    ensures OrderedRun(run + [r])
    ensures var (next, blocked) := StepOf(s, AccountIn(Run(s, run), r.user), r);
            Run(s, run + [r]) == Run(s, run)[r.user := next] && Blocked(s, run + [r], |run|) == blocked
  {
    assert (run + [r])[..|run|] == run;
  }

  /** A user on record, under its own id; or the blank one that stands in for an owner who is not. */
  ghost predicate UserFits(s: Settings, id: string, u: User) {
    if u.id == "" then u.dailyBudgetMinutes == 0 else u.id == id && s.budget(id) == u.dailyBudgetMinutes * 60
  }

  ghost predicate UsersFit(s: Settings, rt: Option<Runtime>) {
    rt.Some? ==> forall id | id in rt.value.usersById :: UserFits(s, id, rt.value.usersById[id])
  }

  class Handler {
    const engine: Engine
    const runtime: Option<Runtime>
    const accounts: Manager
    ghost const settings: Settings
    ghost var queries: seq<Query>

    /** The runtime agrees with the settings of the run: known users with their fixed budgets. */
    ghost predicate Consistent() {
      && settings.Valid() && settings.idle == accounts.idleTimeout && settings.dayOf == accounts.dayOf
      && UsersFit(settings, runtime)
    }

    /** The books of every user are those of the requests charged so far. */
    ghost predicate Valid()
      reads this, accounts
    {
      && Consistent() && OrderedQueries(queries)
      && BooksAre(ChargedBy(queries))
    }

    constructor (engine: Engine, runtime: Option<Runtime>, accounts: Manager, ghost settings: Settings)
      requires accounts.sessions == map[] && accounts.usage == map[]
      requires settings.Valid() && settings.idle == accounts.idleTimeout && settings.dayOf == accounts.dayOf
      requires UsersFit(settings, runtime)
      ensures Valid() && queries == []
    {
      this.engine, this.runtime, this.accounts := engine, runtime, accounts;
      this.settings := settings;
      queries := [];
    }

    ghost predicate ClockReached(now: int)
      reads this
    {
      forall i | 0 <= i < |queries| :: queries[i].now <= now
    }

    /** The action the configuration alone asks for. */
    ghost function ConfigAction(domain: string, client: string, at: Moment): ActionType
      reads engine.deviceCache
    {
      Decide(engine.conf, engine.NameOf(client), domain, client, at).action
    }

    ghost predicate Outside(client: string, at: Moment) {
      MatchedUser(runtime, client).Some?
          && !InWindows(WindowsOf(runtime.value, MatchedUser(runtime, client).value.id), at.now, Inside(at))
    }

    ghost predicate RuledOut(domain: string, client: string, action: DomainAction) {
      MatchedUser(runtime, client).Some?
      && RuleSays(RulesOf(runtime.value, MatchedUser(runtime, client).value.id), domain, action)
    }

    /** What the client gets for each reason; an allow rule lifts any action that does not block. */
    ghost function ActionFor(reason: Reason, domain: string, client: string, at: Moment): ActionType
      reads engine.deviceCache
    {
      match reason
      case OutsideWindow => BlockedTimeSpan
      case BudgetExceeded => BlockedTimeSpan
      case PolicyBlock => BlockedSiteBan
      case ConfigBlock => ConfigAction(domain, client, at)
      case NoReason => if RuledOut(domain, client, Allow) then Pass else ConfigAction(domain, client, at)
    }

    /** The query as the handler sees it. */
    ghost function Seen(domain: string, client: string, at: Moment): Query
      reads engine.deviceCache
    {
      var matched := MatchedUser(runtime, client);
      Query(if matched.Some? then Some(matched.value.id) else None, Outside(client, at),
            IsBlockingAction(ConfigAction(domain, client, at)), RuledOut(domain, client, Block), at.now)
    }

    /** The books of every user are those of `run`. */
    ghost predicate BooksAre(run: seq<Request>)
      reads accounts
    {
      forall u {:trigger accounts.AccountOf(u)} :: accounts.AccountOf(u) == AccountIn(Run(settings, run), u)
    }

    /** The requests charged once a query is, too. */
    ghost function ChargedWith(run: seq<Request>, q: Query): seq<Request> {
      if Counts(q) then run + [Request(q.user.value, q.now)] else run
    }

    ghost predicate BlockedWith(run: seq<Request>, q: Query) {
      Counts(q) && Blocked(settings, run + [Request(q.user.value, q.now)], |run|)
    }

    /** What the handler decides once it is known whether the budget stopped the query. */
    ghost function ReasonOnceCharged(domain: string, client: string, at: Moment, broke: bool): Reason
      reads engine.deviceCache
    {
      FirstReason(Seen(domain, client, at), broke && Counts(Seen(domain, client, at)))
    }

    /** The client's device has an owner on record. */
    ghost predicate IsOwnedBy(client: string, u: User) {
      && runtime.Some? && client in runtime.value.ownerByIP && runtime.value.ownerByIP[client] != ""
      && runtime.value.ownerByIP[client] in runtime.value.usersById
      && u == runtime.value.usersById[runtime.value.ownerByIP[client]]
    }

    /** Without a known user the configuration decides; with any, what it blocks is never forwarded. */
    lemma ConfigurationDecides(domain: string, client: string, at: Moment, broke: bool)
      ensures var configured := Decide(engine.conf, engine.NameOf(client), domain, client, at).action;
              var reason := ReasonOnceCharged(domain, client, at, broke);
              var blocks :=
                configured == BlockedDevice || configured == BlockedSiteBan || configured == BlockedTimeSpan;
              && (blocks ==> reason != NoReason)
              && ((forall u :: !IsOwnedBy(client, u)) ==>
                    && ActionFor(reason, domain, client, at) == configured
                    && reason == if blocks then ConfigBlock else NoReason)
    {
      if MatchedUser(runtime, client).Some? {
        assert IsOwnedBy(client, MatchedUser(runtime, client).value);
      }
    }

    /** For a known user: windows first, then the configuration, the budget and the best domain rule. */
    lemma KnownUserDecides(domain: string, client: string, at: Moment, broke: bool, u: User)
      requires IsOwnedBy(client, u)
      ensures var configured := Decide(engine.conf, engine.NameOf(client), domain, client, at).action;
              var reason := ReasonOnceCharged(domain, client, at, broke);
              var action := ActionFor(reason, domain, client, at);
              var blocks :=
                configured == BlockedDevice || configured == BlockedSiteBan || configured == BlockedTimeSpan;
              var open := InWindows(WindowsOf(runtime.value, u.id), at.now, Inside(at));
              var rule := MatchedRule(RulesOf(runtime.value, u.id), domain);
              if !open then reason == OutsideWindow && action == BlockedTimeSpan
              else if blocks then reason == ConfigBlock && action == configured
              else if broke then reason == BudgetExceeded && action == BlockedTimeSpan
              else if rule.Some? && rule.value.action == Block then reason == PolicyBlock && action == BlockedSiteBan
              else reason == NoReason && action == if rule.Some? && rule.value.action == Allow then Pass else configured
    {
    }

    /** In a window means: no windows at all, or one whose hours hold now in the local zone. */
    lemma InWindowsMeaning(id: string, at: Moment)
      requires runtime.Some?
      ensures InWindows(WindowsOf(runtime.value, id), at.now, Inside(at)) <==>
              || id !in runtime.value.allowWindows || runtime.value.allowWindows[id] == []
              || exists i :: 0 <= i < |runtime.value.allowWindows[id]|
                             && InTimeSpan(runtime.value.allowWindows[id][i].timeSpan, at.now, at.local, at.cal)
    {
      if id in runtime.value.allowWindows {
        var windows := runtime.value.allowWindows[id];
        assert forall i | 0 <= i < |windows| ::
            Holds(windows[i], at.now, Inside(at)) <==> InTimeSpan(windows[i].timeSpan, at.now, at.local, at.cal);
      }
    }

    /** Charges one request to the user's budget. */
    method Charge(user: User, now: int, ghost run: seq<Request>) returns (blocked: bool)
      requires Consistent() && OrderedRun(run) && forall i | 0 <= i < |run| :: run[i].now <= now
      requires BooksAre(run)
      requires settings.budget(user.id) == user.dailyBudgetMinutes * 60
      modifies accounts
      ensures BooksAre(run + [Request(user.id, now)])
      ensures blocked == Blocked(settings, run + [Request(user.id, now)], |run|)
    {
      ghost var r := Request(user.id, now);
      var decision := accounts.ProcessRequest(user, now);
      blocked := decision.blocked;
      RunOfOneMore(settings, run, r);
      assert StepOf(settings, AccountIn(Run(settings, run), r.user), r)
             == Step(old(accounts.AccountOf(user.id)), accounts.idleTimeout, user.id, user.dailyBudgetMinutes * 60,
                     accounts.dayOf(now), now);
      forall u ensures accounts.AccountOf(u) == AccountIn(Run(settings, run + [r]), u) {
        assert old(accounts.AccountOf(u)) == AccountIn(Run(settings, run), u);
      }
    }

    /** What stands against a query of `user` when the configuration asks for `configured`. */
    ghost function SeenOf(user: User, configured: ActionType, domain: string, at: Moment): Query
      requires runtime.Some?
    {
      Query(Some(user.id), !InWindows(WindowsOf(runtime.value, user.id), at.now, Inside(at)),
          IsBlockingAction(configured),
            RuleSays(RulesOf(runtime.value, user.id), domain, Block), at.now)
    }

    /** The user's policy, each step overwriting the one before: windows, then the budget, then domain rules. */
    method Overrule(user: User, configured: ActionType, domain: string, at: Moment, ghost run: seq<Request>)
      returns (action: ActionType, reason: Reason, ghost broke: bool)
      requires Consistent() && OrderedRun(run) && BooksAre(run) && forall i | 0 <= i < |run| :: run[i].now <= at.now
      requires runtime.Some? && settings.budget(user.id) == user.dailyBudgetMinutes * 60
      modifies accounts
      ensures BooksAre(ChargedWith(run, SeenOf(user, configured, domain, at)))
      ensures broke == BlockedWith(run, SeenOf(user, configured, domain, at))
      ensures var first := FirstReason(SeenOf(user, configured, domain, at), broke);
              reason == if first == ConfigBlock then NoReason else first
      ensures action == match reason
                        case OutsideWindow => BlockedTimeSpan
                        case BudgetExceeded => BlockedTimeSpan
                        case PolicyBlock => BlockedSiteBan
                        case _ => if !IsBlockingAction(configured)
                            && RuleSays(RulesOf(runtime.value, user.id), domain, Allow)
                                  then Pass else configured
    {
      action, reason, broke := configured, NoReason, false;
      var allowed := InAllowWindow(WindowsOf(runtime.value, user.id), at.now, Inside(at));
      if !allowed {
        action, reason := BlockedTimeSpan, OutsideWindow;
      }
      if !IsBlockingAction(action) {
        var blocked := Charge(user, at.now, run);
        broke := blocked;
        if blocked {
          action, reason := BlockedTimeSpan, BudgetExceeded;
        }
      }
      if !IsBlockingAction(action) {
        var rule := MatchDomainRule(RulesOf(runtime.value, user.id), domain);
        if rule.Some? {
          if rule.value.action == Block {
            action, reason := BlockedSiteBan, PolicyBlock;
          } else if rule.value.action == Allow {
            action := Pass;
          }
        }
      }
    }

    /** The decision proper: the configuration, overruled by the policy of the matched user. */
    method Judge(domain: string, client: string, at: Moment, ghost run: seq<Request>)
      returns (action: ActionType, reason: Reason, ghost broke: bool)
      requires Consistent() && OrderedRun(run) && BooksAre(run) && forall i | 0 <= i < |run| :: run[i].now <= at.now
      modifies accounts
      ensures BooksAre(ChargedWith(run, old(Seen(domain, client, at))))
      ensures broke == BlockedWith(run, old(Seen(domain, client, at)))
      ensures reason == FirstReason(old(Seen(domain, client, at)), broke)
      ensures action == old(ActionFor(reason, domain, client, at))
      ensures reason == NoReason <==> !IsBlockingAction(action)
    {
      var configured, failed := engine.Evaluate(domain, client, at);
      action, reason, broke := configured, NoReason, false;
      var matched := MatchedUser(runtime, client);
      if matched.Some? {
        assert UserFits(settings, runtime.value.ownerByIP[client], matched.value);
        action, reason, broke := Overrule(matched.value, configured, domain, at, run);
      }
      if reason == NoReason && IsBlockingAction(action) {
        reason := ConfigBlock;
      }
    }

    /** Decides one query; `domain` is lower-cased and without its trailing dot. */
    method Handle(domain: string, client: string, at: Moment) returns (action: ActionType, reason: Reason)
      requires Valid() && ClockReached(at.now)
      modifies this`queries, accounts
      ensures Valid() && queries == old(queries) + [old(Seen(domain, client, at))]
      ensures reason == ReasonFor(settings, queries, |old(queries)|)
      ensures action == old(ActionFor(reason, domain, client, at))
      ensures reason == NoReason <==> action != BlockedDevice && action != BlockedSiteBan && action != BlockedTimeSpan
      ensures var configured := old(Decide(engine.conf, engine.NameOf(client), domain, client, at)).action;
              var blocks :=
                configured == BlockedDevice || configured == BlockedSiteBan || configured == BlockedTimeSpan;
              && (blocks ==> reason != NoReason)
              && ((forall u :: !IsOwnedBy(client, u)) ==>
                    action == configured && reason == if blocks then ConfigBlock else NoReason)
    {
      ghost var q := Seen(domain, client, at);
      ConfigurationDecides(domain, client, at, true);
      ConfigurationDecides(domain, client, at, false);
      OneMoreInOrder(queries, q);
      ghost var broke;
      action, reason, broke := Judge(domain, client, at, ChargedBy(queries));
      ReasonOfNext(settings, queries, q, broke);
      Record(q);
    }

    /** The query joins the run. */
    ghost method Record(q: Query)
      requires Consistent() && OrderedQueries(queries + [q]) && BooksAre(ChargedWith(ChargedBy(queries), q))
      modifies this`queries
      ensures Valid() && queries == old(queries) + [q]
    {
      OneMoreCharged(settings, queries, q);
      queries := queries + [q];
    }
  }
}
