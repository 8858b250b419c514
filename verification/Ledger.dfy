/** What a whole run of requests leaves in the books: the exact ledger and the budget lockout. */
module Ledger {
  import opened Accounting
  import opened Durations

  /** The fixed settings of a run. */
  datatype Settings = Settings(idle: int, budget: string -> int, dayOf: int -> string) {
    ghost predicate DaysAreNamed() {
      forall t :: dayOf(t) != ""
    }

    predicate Between(t1: int, t2: int, t3: int) {
      t1 <= t2 <= t3 && dayOf(t1) == dayOf(t3) ==> dayOf(t2) == dayOf(t1)
    }

    /** A day never comes back once it is over. */
    ghost predicate DaysAreIntervals() {
      forall t1, t2, t3 :: Between(t1, t2, t3)
    }

    /** The user without an id, who stands in for owners that do not exist, has no budget. */
    ghost predicate Valid() {
      DaysAreNamed() && DaysAreIntervals() && budget("") == 0
    }
  }

  datatype Request = Request(user: string, now: int)

  /** A history the program can see: the clock never goes back. */
  ghost predicate OrderedRun(run: seq<Request>) {
    forall i, j | 0 <= i < j < |run| :: run[i].now <= run[j].now
  }

  type Books = map<string, Account>

  function AccountIn(books: Books, user: string): Account {
    Get(books, user, Account(NO_USAGE, NO_SESSION))
  }

  function StepOf(s: Settings, a: Account, r: Request): (Account, bool) {
    Step(a, s.idle, r.user, s.budget(r.user), s.dayOf(r.now), r.now)
  }

  /** The books after serving every request of `run`, from an empty store. */
  function Run(s: Settings, run: seq<Request>): Books {
    if run == [] then map[]
    else
      var books, r := Run(s, run[..|run| - 1]), run[|run| - 1];
      books[r.user := StepOf(s, AccountIn(books, r.user), r).0]
  }

  predicate Blocked(s: Settings, run: seq<Request>, i: nat)
    requires i < |run|
  {
    StepOf(s, AccountIn(Run(s, run[..i]), run[i].user), run[i]).1
  }

  /** The times of one user's requests on one day, in order. */
  function DayTimes(s: Settings, run: seq<Request>, user: string, day: string): seq<int> {
    if run == [] then []
    else
      var r := run[|run| - 1];
      DayTimes(s, run[..|run| - 1], user, day)
      + (if r.user == user && s.dayOf(r.now) == day then [r.now] else [])
  }

  // --- The ledger of one day, as a function of the request times alone -----------------------

  predicate Ordered(t: seq<int>) {
    |t| < 2 || (t[|t| - 2] <= t[|t| - 1] && Ordered(t[..|t| - 1]))
  }

  lemma {:induction false} OrderedPair(t: seq<int>, i: nat, j: nat)
    requires Ordered(t) && i <= j < |t|
    ensures t[i] <= t[j]
  {
    if i < j {
      OrderedPair(t[..|t| - 1], i, if j < |t| - 1 then j else j - 1);
    }
  }

  lemma {:induction false} OrderedPrefixOf(t: seq<int>, n: nat)
    requires Ordered(t) && n <= |t|
    ensures Ordered(t[..n])
  {
    if n < |t| {
      OrderedPrefixOf(t[..|t| - 1], n);
      assert t[..|t| - 1][..n] == t[..n];
    } else {
      assert t[..n] == t;
    }
  }

  lemma OrderedInit(t: seq<int>, now: int)
    requires Ordered(t + [now])
    ensures Ordered(t) && (t != [] ==> t[|t| - 1] <= now)
  {
    assert (t + [now])[..|t|] == t;
  }

  /** Index of the request that opened the session of request `i`: a gap over `idle` opens a new one. */
  function Opening(t: seq<int>, idle: int, i: nat): (o: nat)
    requires i < |t|
    ensures o <= i
  {
    if i == 0 || t[i] - t[i - 1] > idle then i else Opening(t, idle, i - 1)
  }

  /** Sum of the whole seconds of every gap that stays within a session. */
  function GapSeconds(t: seq<int>, idle: int): int {
    if |t| < 2 then 0
    else
      var n := |t| - 1;
      GapSeconds(t[..n], idle) + (if t[n] - t[n - 1] <= idle then WholeSeconds(t[n] - t[n - 1]) else 0)
  }

  /** Sum of the whole seconds of every closed session, first request to last. */
  function ClosedSeconds(t: seq<int>, idle: int): int {
    if |t| < 2 then 0
    else
      var n := |t| - 1;
      ClosedSeconds(t[..n], idle)
      + (if t[n] - t[n - 1] > idle then WholeSeconds(t[n - 1] - t[Opening(t, idle, n - 1)]) else 0)
  }

  /** Closed sessions are charged twice: gap by gap while open, and whole once closed. */
  function Charge(t: seq<int>, idle: int): int {
    GapSeconds(t, idle) + ClosedSeconds(t, idle)
  }

  lemma {:induction false} OpeningOfPrefix(t: seq<int>, idle: int, n: nat, i: nat)
    requires i < n <= |t|
    ensures Opening(t[..n], idle, i) == Opening(t, idle, i)
  {
    if i > 0 {
      OpeningOfPrefix(t, idle, n, i - 1);
    }
  }

  /** Adding a request charges what the open session says it should. */
  lemma ChargeOfNext(t: seq<int>, idle: int, now: int)
    requires t != []
    ensures var last, open := t[|t| - 1], Opening(t, idle, |t| - 1);
            && Charge(t + [now], idle) == Charge(t, idle)
                 + (if now - last <= idle then WholeSeconds(now - last) else WholeSeconds(last - t[open]))
            && Opening(t + [now], idle, |t|) == if now - last <= idle then open else |t|
  {
    var u, n := t + [now], |t|;
    assert u[..n] == t && u[n - 1] == t[n - 1];
    OpeningOfPrefix(u, idle, n, n - 1);
  }

  /** The charge never goes down as the day goes on. */
  lemma ChargeGrows(t: seq<int>, idle: int, now: int)
    requires Ordered(t + [now])
    ensures Charge(t + [now], idle) >= Charge(t, idle)
  {
    if t != [] {
      OrderedInit(t, now);
      ChargeOfNext(t, idle, now);
      OrderedPair(t, Opening(t, idle, |t| - 1), |t| - 1);
    }
  }

  lemma TwiceFloor(a: int, b: int)
    requires 0 <= a <= b
    ensures 0 <= SECOND * WholeSeconds(a) <= b
  {
  }

  /** A day is never charged more than twice the time since its first request; the open session only once. */
  lemma {:induction false} ChargeAtMostTwice(t: seq<int>, idle: int)
    requires t != [] && Ordered(t)
    ensures SECOND * Charge(t, idle) <= 2 * (t[Opening(t, idle, |t| - 1)] - t[0])
                                        + (t[|t| - 1] - t[Opening(t, idle, |t| - 1)])
    ensures SECOND * Charge(t, idle) <= 2 * (t[|t| - 1] - t[0])
  {
    var n := |t| - 1;
    if n > 0 {
      var init := t[..n];
      assert t == init + [t[n]];
      ChargeAtMostTwice(init, idle);
      ChargeOfNext(init, idle, t[n]);
      var open := Opening(init, idle, n - 1);
      OrderedPair(t, open, n - 1);
      OrderedPair(t, n - 1, n);
      TwiceFloor(t[n] - t[n - 1], t[n] - t[n - 1]);
      TwiceFloor(t[n - 1] - t[open], t[n - 1] - t[open]);
    }
    OrderedPair(t, Opening(t, idle, n), n);
    OrderedPair(t, 0, Opening(t, idle, n));
  }

  lemma WholeSecondGap(a: int, b: int)
    requires a <= b && a % SECOND == 0 && b % SECOND == 0
    ensures SECOND * WholeSeconds(b - a) == b - a
  {
  }

  lemma ClosedOfNext(t: seq<int>, idle: int, now: int)
    requires t != []
    ensures var last, open := t[|t| - 1], t[Opening(t, idle, |t| - 1)];
            ClosedSeconds(t + [now], idle)
            == ClosedSeconds(t, idle) + (if now - last > idle then WholeSeconds(last - open) else 0)
  {
    var u, n := t + [now], |t|;
    assert u[..n] == t;
    OpeningOfPrefix(u, idle, n, n - 1);
  }

  /** The arithmetic of one more request: `c` charged, `d` closed, on whole seconds. */
  lemma ExactStep(c: int, d: int, open: int, last: int, now: int, gap: int, span: int)
    requires SECOND * c == 2 * SECOND * d + (last - open)
    requires SECOND * gap == now - last && SECOND * span == last - open
    ensures SECOND * (c + gap) == 2 * SECOND * d + (now - open)
    ensures SECOND * (c + span) == 2 * SECOND * (d + span) + (now - now)
  {
  }

  lemma WholeSecondStep(t: seq<int>, idle: int, now: int)
    requires t != [] && now % SECOND == 0
    requires var last, open := t[|t| - 1], t[Opening(t, idle, |t| - 1)];
             && open <= last <= now && open % SECOND == 0 && last % SECOND == 0
             && SECOND * Charge(t, idle) == 2 * SECOND * ClosedSeconds(t, idle) + (last - open)
    ensures var u := t + [now]; var open := u[Opening(u, idle, |t|)];
            SECOND * Charge(u, idle) == 2 * SECOND * ClosedSeconds(u, idle) + (now - open)
  {
    var u, n := t + [now], |t|;
    var last, open := t[n - 1], t[Opening(t, idle, n - 1)];
    ChargeOfNext(t, idle, now);
    ClosedOfNext(t, idle, now);
    assert open == u[Opening(t, idle, n - 1)];
    WholeSecondGap(last, now);
    WholeSecondGap(open, last);
    ExactStep(Charge(t, idle), ClosedSeconds(t, idle), open, last, now, WholeSeconds(now - last),
        WholeSeconds(last - open));
    assert u[Opening(u, idle, n)] == if now - last <= idle then open else now;
  }

  /** On whole seconds the ledger is exact: closed sessions twice, the open one once. */
  lemma {:induction false} WholeSecondCharge(t: seq<int>, idle: int)
    requires t != [] && Ordered(t) && forall i | 0 <= i < |t| :: t[i] % SECOND == 0
    ensures SECOND * Charge(t, idle) == 2 * SECOND * ClosedSeconds(t, idle)
                                        + (t[|t| - 1] - t[Opening(t, idle, |t| - 1)])
  {
    var n := |t| - 1;
    if n > 0 {
      WholeSecondCharge(t[..n], idle);
      assert t == t[..n] + [t[n]];
      OrderedPair(t, Opening(t[..n], idle, n - 1), n - 1);
      WholeSecondStep(t[..n], idle, t[n]);
    }
  }

  /** The time within sessions, to the nanosecond. */
  function TimeInSessions(t: seq<int>, idle: int): int {
    if |t| < 2 then 0
    else
      var n := |t| - 1;
      TimeInSessions(t[..n], idle) + (if t[n] - t[n - 1] <= idle then t[n] - t[n - 1] else 0)
  }

  /** The time of closed sessions, first request to last, to the nanosecond. */
  function TimeClosed(t: seq<int>, idle: int): int {
    if |t| < 2 then 0
    else
      var n := |t| - 1;
      TimeClosed(t[..n], idle) + (if t[n] - t[n - 1] > idle then t[n - 1] - t[Opening(t, idle, n - 1)] else 0)
  }

  lemma TimeOfNext(t: seq<int>, idle: int, now: int)
    requires t != []
    ensures var last, open := t[|t| - 1], t[Opening(t, idle, |t| - 1)];
            TimeInSessions(t + [now], idle) + TimeClosed(t + [now], idle)
            == TimeInSessions(t, idle) + TimeClosed(t, idle) + (if now - last <= idle then now - last else last - open)
  {
    var u, n := t + [now], |t|;
    assert u[..n] == t && u[n - 1] == t[n - 1];
    OpeningOfPrefix(u, idle, n, n - 1);
  }

  /** The ledger keeps to the time: it never runs ahead, and falls behind by less than a second per request. */
  lemma {:induction false} ChargeKeepsToTheTime(t: seq<int>, idle: int)
    requires t != [] && Ordered(t)
    ensures var time := TimeInSessions(t, idle) + TimeClosed(t, idle);
            time - 1_000_000_000 * |t| < 1_000_000_000 * Charge(t, idle) <= time
  {
    var n := |t| - 1;
    if n > 0 {
      var init := t[..n];
      assert t == init + [t[n]];
      ChargeKeepsToTheTime(init, idle);
      ChargeOfNext(init, idle, t[n]);
      TimeOfNext(init, idle, t[n]);
      OrderedPair(t, Opening(init, idle, n - 1), n - 1);
      SecondsArePassed(t[n] - t[n - 1]);
      SecondsArePassed(t[n - 1] - init[Opening(init, idle, n - 1)]);
    }
  }

  /** Request `i` still belongs to the session of the one before it. */
  predicate Continues(t: seq<int>, idle: int, i: nat)
    requires 0 < i < |t|
  {
    t[i] - t[i - 1] <= idle
  }

  lemma {:induction false} OneSessionTime(t: seq<int>, idle: int)
    requires t != [] && forall i: nat | 0 < i < |t| :: Continues(t, idle, i)
    ensures TimeInSessions(t, idle) == t[|t| - 1] - t[0] && TimeClosed(t, idle) == 0
  {
    var n := |t| - 1;
    if n > 0 {
      assert Continues(t, idle, n);
      forall i: nat | 0 < i < n ensures Continues(t[..n], idle, i) {
        assert Continues(t, idle, i);
      }
      OneSessionTime(t[..n], idle);
    }
  }

  // --- The day of a user with a budget ------------------------------------------------------------

  predicate OverBudget(s: Settings, user: string, t: seq<int>) {
    s.budget(user) > 0 && Charge(t, s.idle) >= s.budget(user)
  }

  /** The request times of a day: those served, then those blocked. */
  datatype Times = Times(served: seq<int>, blocked: seq<int>)

  /** Requests are served until the first one that finds the budget spent; from it on they are blocked. */
  function Divide(s: Settings, user: string, t: seq<int>): (d: Times)
    ensures t != [] ==> d.served != []
  {
    if t == [] then Times([], [])
    else
      var d, now := Divide(s, user, t[..|t| - 1]), t[|t| - 1];
      if d.blocked == [] && !OverBudget(s, user, t) then Times(d.served + [now], [])
      else Times(d.served, d.blocked + [now])
  }

  /** How many of the blocked requests come before the idle timeout since the last served one. */
  function Within(blocked: seq<int>, last: int, idle: int): (n: nat)
    ensures n <= |blocked|
  {
    if blocked == [] then 0
    else
      var n := Within(blocked[..|blocked| - 1], last, idle);
      if n == |blocked| - 1 && blocked[n] - last <= idle then n + 1 else n
  }

  /** What one more request adds, as the session stands. */
  function Added(open: bool, idle: int, now: int, last: int, start: int): int {
    if !open then 0 else if now - last <= idle then WholeSeconds(now - last) else WholeSeconds(last - start)
  }

  /** What blocked requests charge: each the time since the last served one; past the timeout the session, once. */
  function BlockedSeconds(blocked: seq<int>, last: int, start: int, idle: int): int {
    if blocked == [] then 0
    else
      var n := |blocked| - 1;
      BlockedSeconds(blocked[..n], last, start, idle)
          + Added(Within(blocked[..n], last, idle) == n, idle, blocked[n], last, start)
  }

  function Last(t: seq<int>): int
    requires t != []
  {
    t[|t| - 1]
  }

  /** When the session of the last request in `t` began. */
  function Start(t: seq<int>, idle: int): int
    requires t != []
  {
    t[Opening(t, idle, |t| - 1)]
  }

  function Seconds(d: Times, idle: int): int
    requires d.served != []
  {
    Charge(d.served, idle) + BlockedSeconds(d.blocked, Last(d.served), Start(d.served, idle), idle)
  }

  predicate StillOpen(d: Times, idle: int)
    requires d.served != []
  {
    Within(d.blocked, Last(d.served), idle) == |d.blocked|
  }

  /** The ledger of a day, from its request times alone. */
  function LedgerOf(idle: int, user: string, day: string, d: Times): Account
    requires d.served != []
  {
    Account(Usage(user, day, Seconds(d, idle)),
            Session(user, day, StillOpen(d, idle), Start(d.served, idle), Last(d.served)))
  }

  /** The two parts make up the day. */
  lemma {:induction false} PartsMakeDay(s: Settings, user: string, t: seq<int>)
    ensures t == Divide(s, user, t).served + Divide(s, user, t).blocked
  {
    if t != [] {
      var init, now := t[..|t| - 1], t[|t| - 1];
      PartsMakeDay(s, user, init);
      var d := Divide(s, user, init);
      assert t == init + [now];
      assert d.served + d.blocked + [now] == d.served + (d.blocked + [now]);
      assert d.blocked == [] ==> d.served == init;
    }
  }

  lemma AllServed(s: Settings, user: string, t: seq<int>)
    requires Divide(s, user, t).blocked == []
    ensures Divide(s, user, t).served == t
  {
    PartsMakeDay(s, user, t);
  }

  lemma DivideSnoc(s: Settings, user: string, t: seq<int>, now: int)
    ensures var d := Divide(s, user, t);
            Divide(s, user, t + [now])
            == if d.blocked == [] && !OverBudget(s, user, t + [now]) then Times(d.served + [now], [])
               else Times(d.served, d.blocked + [now])
  {
    assert (t + [now])[..|t|] == t;
  }

  lemma SpentForTheDay(s: Settings, user: string, t: seq<int>, now: int)
    requires Ordered(t + [now]) && OverBudget(s, user, t)
    ensures OverBudget(s, user, t + [now])
  {
    ChargeGrows(t, s.idle, now);
  }

  /** Some request is blocked iff the budget is spent. */
  lemma {:induction false} BlockedWhenSpent(s: Settings, user: string, t: seq<int>)
    requires Ordered(t)
    ensures Divide(s, user, t).blocked == [] <==> !OverBudget(s, user, t)
  {
    if t != [] {
      var init, now := t[..|t| - 1], t[|t| - 1];
      assert t == init + [now];
      OrderedInit(init, now);
      BlockedWhenSpent(s, user, init);
      DivideSnoc(s, user, init, now);
      if OverBudget(s, user, init) {
        SpentForTheDay(s, user, init, now);
      }
    } else {
      assert Charge(t, s.idle) == 0;
    }
  }

  /** The budget was spent by the first request that was not served, and not before. */
  lemma {:induction false} SpentByFirstBlocked(s: Settings, user: string, t: seq<int>)
    ensures var d := Divide(s, user, t);
            !OverBudget(s, user, d.served) && (d.blocked != [] ==> OverBudget(s, user, d.served + [d.blocked[0]]))
  {
    if t != [] {
      var init, now := t[..|t| - 1], t[|t| - 1];
      assert t == init + [now];
      SpentByFirstBlocked(s, user, init);
      DivideSnoc(s, user, init, now);
      if Divide(s, user, init).blocked == [] {
        AllServed(s, user, init);
      }
    }
  }

  lemma DivideNext(s: Settings, user: string, t: seq<int>, now: int)
    requires Ordered(t + [now])
    ensures var d, e := Divide(s, user, t), Divide(s, user, t + [now]);
            if OverBudget(s, user, t + [now]) then e == Times(d.served, d.blocked + [now])
            else d == Times(t, []) && e == Times(t + [now], [])
  {
    DivideSnoc(s, user, t, now);
    if !OverBudget(s, user, t + [now]) {
      BlockedWhenSpent(s, user, t + [now]);
      AllServed(s, user, t);
    }
  }

  lemma {:induction false} ServedInOrder(s: Settings, user: string, t: seq<int>)
    requires t != [] && Ordered(t)
    ensures Ordered(Divide(s, user, t).served) && Last(Divide(s, user, t).served) <= Last(t)
  {
    PartsMakeDay(s, user, t);
    var served := Divide(s, user, t).served;
    assert t[..|served|] == served;
    OrderedPrefixOf(t, |served|);
    OrderedPair(t, |served| - 1, |t| - 1);
  }

  /** One more blocked request. */
  lemma NextBlocked(d: Times, idle: int, now: int)
    requires d.served != []
    ensures var e := Times(d.served, d.blocked + [now]);
            && (StillOpen(e, idle) <==> StillOpen(d, idle) && now - Last(d.served) <= idle)
            && Seconds(e, idle) == Seconds(d, idle)
              + Added(StillOpen(d, idle), idle, now, Last(d.served), Start(d.served, idle))
  {
    assert (d.blocked + [now])[..|d.blocked|] == d.blocked;
  }

  /** One more served request. */
  lemma NextServed(t: seq<int>, idle: int, now: int)
    requires t != []
    ensures var d, e := Times(t, []), Times(t + [now], []);
            && StillOpen(d, idle) && StillOpen(e, idle) && Last(e.served) == now
            && Start(e.served, idle) == (if now - Last(t) <= idle then Start(t, idle) else now)
            && Seconds(e, idle) == Seconds(d, idle) + Added(true, idle, now, Last(t), Start(t, idle))
  {
    ChargeOfNext(t, idle, now);
  }

  lemma StartInOrder(t: seq<int>, idle: int)
    requires t != [] && Ordered(t)
    ensures Start(t, idle) <= Last(t)
  {
    OrderedPair(t, Opening(t, idle, |t| - 1), |t| - 1);
  }

  lemma AddedIsNotNegative(open: bool, idle: int, now: int, last: int, start: int)
    requires start <= last <= now
    ensures Added(open, idle, now, last, start) >= 0
  {
  }

  lemma FirstBlocked(s: Settings, user: string, t: seq<int>, now: int)
    requires t != [] && Ordered(t + [now]) && !OverBudget(s, user, t) && OverBudget(s, user, t + [now])
    ensures Seconds(Divide(s, user, t + [now]), s.idle) == Charge(t + [now], s.idle)
  {
    OrderedInit(t, now);
    DivideNext(s, user, t, now);
    BlockedWhenSpent(s, user, t);
    AllServed(s, user, t);
    NextBlocked(Times(t, []), s.idle, now);
    ChargeOfNext(t, s.idle, now);
  }

  lemma LaterBlocked(s: Settings, user: string, t: seq<int>, now: int)
    requires t != [] && Ordered(t + [now]) && OverBudget(s, user, t + [now])
    ensures Seconds(Divide(s, user, t + [now]), s.idle) >= Seconds(Divide(s, user, t), s.idle)
  {
    var d := Divide(s, user, t);
    OrderedInit(t, now);
    DivideNext(s, user, t, now);
    ServedInOrder(s, user, t);
    StartInOrder(d.served, s.idle);
    NextBlocked(d, s.idle, now);
    AddedIsNotNegative(StillOpen(d, s.idle), s.idle, now, Last(d.served), Start(d.served, s.idle));
  }

  /** The seconds on the books reach a positive budget exactly when the charge of the day does. */
  lemma {:induction false} SecondsReachBudget(s: Settings, user: string, t: seq<int>)
    requires t != [] && Ordered(t)
    ensures OverBudget(s, user, t) <==> s.budget(user) > 0 && Seconds(Divide(s, user, t), s.idle) >= s.budget(user)
  {
    var init, now := t[..|t| - 1], t[|t| - 1];
    assert t == init + [now];
    if !OverBudget(s, user, t) {
      BlockedWhenSpent(s, user, t);
      AllServed(s, user, t);
    } else if init != [] {
      OrderedInit(init, now);
      if OverBudget(s, user, init) {
        SecondsReachBudget(s, user, init);
        LaterBlocked(s, user, init, now);
      } else {
        FirstBlocked(s, user, init, now);
      }
    }
  }

  function TotalSince(blocked: seq<int>, last: int): int {
    if blocked == [] then 0
    else TotalSince(blocked[..|blocked| - 1], last) + WholeSeconds(blocked[|blocked| - 1] - last)
  }

  /**
   * In one formula: the times since the last served request, up to the timeout; then the session once; then nothing.
   */
  lemma {:induction false} BlockedTotal(blocked: seq<int>, last: int, start: int, idle: int)
    ensures var n := Within(blocked, last, idle);
            BlockedSeconds(blocked, last, start, idle)
            == TotalSince(blocked[..n], last) + if n < |blocked| then WholeSeconds(last - start) else 0
  {
    if blocked != [] {
      var n := |blocked| - 1;
      BlockedTotal(blocked[..n], last, start, idle);
      var w := Within(blocked[..n], last, idle);
      assert blocked[..n][..w] == blocked[..w];
      assert blocked[..|blocked|] == blocked;
    }
  }

  /** When requests are in order, those within the timeout are exactly the first ones. */
  lemma {:induction false} WithinMeaning(blocked: seq<int>, last: int, idle: int)
    requires Ordered(blocked)
    ensures forall i | 0 <= i < |blocked| :: blocked[i] - last <= idle <==> i < Within(blocked, last, idle)
  {
    if blocked != [] {
      var n := |blocked| - 1;
      WithinMeaning(blocked[..n], last, idle);
      var w := Within(blocked[..n], last, idle);
      assert forall i | 0 <= i < n :: blocked[..n][i] == blocked[i];
      if w < n {
        OrderedPair(blocked, w, n);
      }
    }
  }

  /** Two requests of a day, within the timeout: the second is blocked iff the whole budget has passed between them. */
  lemma TwoRequestsOfADay(s: Settings, user: string, t1: int, t2: int)
    requires t1 <= t2 <= t1 + s.idle
    ensures OverBudget(s, user, [t1, t2]) <==> s.budget(user) > 0 && t2 - t1 >= 1_000_000_000 * s.budget(user)
  {
    assert [t1] + [t2] == [t1, t2];
    ChargeOfNext([t1], s.idle, t2);
    SecondsArePassed(t2 - t1);
  }

  /** The account of a user who has been served all day: gaps within sessions, and closed sessions whole. */
  function ServedAccount(idle: int, user: string, day: string, t: seq<int>): Account
    requires t != []
  {
    Account(Usage(user, day, GapSeconds(t, idle) + ClosedSeconds(t, idle)),
        Session(user, day, true, Start(t, idle), Last(t)))
  }

  /** The account of a user who has been stopped: nothing moves but what blocked requests charge. */
  function BlockedAccount(idle: int, user: string, day: string, d: Times): Account
    requires d.served != []
  {
    var last, start, n := Last(d.served), Start(d.served, idle), Within(d.blocked, Last(d.served), idle);
    Account(Usage(user, day, Charge(d.served, idle) + TotalSince(d.blocked[..n], last)
                             + if n < |d.blocked| then WholeSeconds(last - start) else 0),
            Session(user, day, n == |d.blocked|, start, last))
  }

  lemma ServedLedger(s: Settings, user: string, day: string, t: seq<int>)
    requires t != [] && Ordered(t) && !OverBudget(s, user, t)
    ensures LedgerOf(s.idle, user, day, Divide(s, user, t)) == ServedAccount(s.idle, user, day, t)
    ensures SECOND * ServedAccount(s.idle, user, day, t).usage.seconds <= 2 * (Last(t) - t[0])
  {
    BlockedWhenSpent(s, user, t);
    AllServed(s, user, t);
    ChargeAtMostTwice(t, s.idle);
  }

  lemma BlockedLedger(idle: int, user: string, day: string, d: Times)
    requires d.served != []
    ensures LedgerOf(idle, user, day, d) == BlockedAccount(idle, user, day, d)
  {
    BlockedTotal(d.blocked, Last(d.served), Start(d.served, idle), idle);
  }

  // --- Runs -----------------------------------------------------------------------------------

  /** The day of the user's latest request, or "" when there was none. */
  function LastDay(s: Settings, run: seq<Request>, user: string): string {
    if run == [] then ""
    else if run[|run| - 1].user == user then s.dayOf(run[|run| - 1].now)
    else LastDay(s, run[..|run| - 1], user)
  }

  lemma OrderedPrefix(run: seq<Request>, n: nat)
    requires OrderedRun(run) && n <= |run|
    ensures OrderedRun(run[..n])
  {
  }

  lemma OrderedNext(t: seq<int>, now: int)
    requires Ordered(t) && (t != [] ==> Last(t) <= now)
    ensures Ordered(t + [now])
  {
    assert (t + [now])[..|t|] == t;
  }

  lemma {:induction false} DayTimesWithin(s: Settings, run: seq<Request>, user: string, day: string)
    requires OrderedRun(run)
    ensures Ordered(DayTimes(s, run, user, day))
    ensures forall t | t in DayTimes(s, run, user, day) :: t <= run[|run| - 1].now && s.dayOf(t) == day
    ensures DayTimes(s, run, user, day) != [] ==> run != []
  {
    if run != [] {
      var init := run[..|run| - 1];
      OrderedPrefix(run, |run| - 1);
      DayTimesWithin(s, init, user, day);
      var t, now := DayTimes(s, init, user, day), run[|run| - 1].now;
      forall x | x in t ensures x <= now {
        assert init[|init| - 1].now <= now;
      }
      assert t != [] ==> Last(t) in t;
      OrderedNext(t, now);
      assert t + [] == t;
    }
  }

  /** Once a user has been seen on a later day, an earlier day cannot come back. */
  lemma {:induction false} DayDoesNotReturn(s: Settings, run: seq<Request>, user: string, now: int)
    requires s.Valid() && OrderedRun(run) && forall i | 0 <= i < |run| :: run[i].now <= now
    requires DayTimes(s, run, user, s.dayOf(now)) != []
    ensures LastDay(s, run, user) == s.dayOf(now)
  {
    var init, r := run[..|run| - 1], run[|run| - 1];
    var day := s.dayOf(now);
    if r.user == user {
      if DayTimes(s, init, user, day) != [] {
        DayTimesWithin(s, init, user, day);
        var t := DayTimes(s, init, user, day)[0];
        assert t in DayTimes(s, init, user, day) && t <= init[|init| - 1].now <= r.now <= now;
        assert s.dayOf(t) == s.dayOf(now) && s.Between(t, r.now, now);
      }
    } else {
      DayDoesNotReturn(s, init, user, now);
    }
  }

  /** The books of a user are the ledger of the last day on which the user made requests. */
  ghost predicate BooksReflect(s: Settings, run: seq<Request>, user: string) {
    var day := LastDay(s, run, user);
    if day == "" then user !in Run(s, run)
    else
      var t := DayTimes(s, run, user, day);
      user in Run(s, run) && t != [] && Run(s, run)[user] == LedgerOf(s.idle, user, day, Divide(s, user, t))
  }

  /** The first request of a day starts from nothing. */
  lemma StepOpensDay(s: Settings, a: Account, r: Request)
    requires r.user != "" && s.dayOf(r.now) != ""
    requires a == Account(NO_USAGE, NO_SESSION)
             || (a.usage.day != s.dayOf(r.now) && a.session.day != s.dayOf(r.now) && a.session.day != ""
                 && a.session.userId == r.user)
    ensures StepOf(s, a, r) == (LedgerOf(s.idle, r.user, s.dayOf(r.now), Divide(s, r.user, [r.now])), false)
  {
    var t := [r.now];
    assert t[..0] == [] && Divide(s, r.user, t) == Times(t, []);
  }

  /** A request on the day the account is about, after it was last seen. */
  lemma StepOnSameDay(a: Account, idle: int, user: string, budget: int, day: string, now: int)
    requires user != "" && day != "" && a.session.lastSeen <= now
    requires a.usage.userId == a.session.userId == user && a.usage.day == a.session.day == day
    ensures var total := a.usage.seconds + Added(a.session.active, idle, now, a.session.lastSeen, a.session.start);
            var open := a.session.active && now - a.session.lastSeen <= idle;
            Step(a, idle, user, budget, day, now)
            == if budget > 0 && total >= budget then
                 (Account(Usage(user, day, total), Session(user, day, open, a.session.start, a.session.lastSeen)), true)
               else (Account(Usage(user, day, total),
                   Session(user, day, true, if open then a.session.start else now, now)), false)
  {
  }

  lemma StepToBlocked(idle: int, user: string, budget: int, day: string, d: Times, now: int)
    requires user != "" && day != "" && d.served != [] && Last(d.served) <= now
    requires var e := Times(d.served, d.blocked + [now]); budget > 0 && Seconds(e, idle) >= budget
    ensures Step(LedgerOf(idle, user, day, d), idle, user, budget, day, now)
            == (LedgerOf(idle, user, day, Times(d.served, d.blocked + [now])), true)
  {
    StepOnSameDay(LedgerOf(idle, user, day, d), idle, user, budget, day, now);
    NextBlocked(d, idle, now);
  }

  lemma StepToServed(idle: int, user: string, budget: int, day: string, t: seq<int>, now: int)
    requires user != "" && day != "" && t != [] && Last(t) <= now
    requires var e := Times(t + [now], []); !(budget > 0 && Seconds(e, idle) >= budget)
    ensures Step(LedgerOf(idle, user, day, Times(t, [])), idle, user, budget, day, now)
            == (LedgerOf(idle, user, day, Times(t + [now], [])), false)
  {
    StepOnSameDay(LedgerOf(idle, user, day, Times(t, [])), idle, user, budget, day, now);
    NextServed(t, idle, now);
  }

  /** A later request of the same day moves the ledger on by one, served or blocked. */
  lemma StepOnDay(s: Settings, user: string, day: string, t: seq<int>, now: int)
    requires user != "" && day != "" && t != [] && Ordered(t + [now])
    ensures Step(LedgerOf(s.idle, user, day, Divide(s, user, t)), s.idle, user, s.budget(user), day, now)
            == (LedgerOf(s.idle, user, day, Divide(s, user, t + [now])), OverBudget(s, user, t + [now]))
  {
    OrderedInit(t, now);
    ServedInOrder(s, user, t);
    SecondsReachBudget(s, user, t + [now]);
    DivideNext(s, user, t, now);
    if OverBudget(s, user, t + [now]) {
      StepToBlocked(s.idle, user, s.budget(user), day, Divide(s, user, t), now);
    } else {
      StepToServed(s.idle, user, s.budget(user), day, t, now);
    }
  }

  /** After any run, the books of every user are the ledger of that user's last day. */
  lemma {:induction false} RunReflectsLedger(s: Settings, run: seq<Request>, user: string)
    requires s.Valid() && OrderedRun(run) && user != ""
    ensures BooksReflect(s, run, user)
  {
    if run != [] {
      var n := |run| - 1;
      var init, r := run[..n], run[n];
      OrderedPrefix(run, n);
      RunReflectsLedger(s, init, user);
      if r.user == user {
        var _ := LastStep(s, run);
      } else {
        var day := LastDay(s, init, user);
        assert DayTimes(s, run, user, day) == DayTimes(s, init, user, day);
      }
    }
  }

  /** The last request of a run that is not its user's first on that day. */
  lemma LastStepOnDay(s: Settings, run: seq<Request>, user: string, now: int, t: seq<int>)
    requires user != "" && s.dayOf(now) != "" && LastDay(s, run, user) == s.dayOf(now)
    requires BooksReflect(s, run, user) && t == DayTimes(s, run, user, s.dayOf(now)) && Ordered(t + [now])
    ensures StepOf(s, AccountIn(Run(s, run), user), Request(user, now))
            == (LedgerOf(s.idle, user, s.dayOf(now), Divide(s, user, t + [now])), OverBudget(s, user, t + [now]))
  {
    StepOnDay(s, user, s.dayOf(now), t, now);
  }

  /** The last request of a run that is its user's first on that day. */
  lemma LastStepOpensDay(s: Settings, run: seq<Request>, user: string, now: int)
    requires s.Valid() && OrderedRun(run) && user != "" && forall i | 0 <= i < |run| :: run[i].now <= now
    requires BooksReflect(s, run, user) && LastDay(s, run, user) != s.dayOf(now)
    ensures DayTimes(s, run, user, s.dayOf(now)) == []
    ensures StepOf(s, AccountIn(Run(s, run), user), Request(user, now))
            == (LedgerOf(s.idle, user, s.dayOf(now), Divide(s, user, [now])), false)
  {
    if DayTimes(s, run, user, s.dayOf(now)) != [] {
      DayDoesNotReturn(s, run, user, now);
    }
    StepOpensDay(s, AccountIn(Run(s, run), user), Request(user, now));
  }

  lemma LastStep(s: Settings, run: seq<Request>) returns (blocked: bool)
    requires s.Valid() && OrderedRun(run) && run != [] && run[|run| - 1].user != ""
    requires BooksReflect(s, run[..|run| - 1], run[|run| - 1].user)
    ensures BooksReflect(s, run, run[|run| - 1].user)
    ensures blocked == Blocked(s, run, |run| - 1)
    ensures var r := run[|run| - 1];
            blocked == OverBudget(s, r.user, DayTimes(s, run, r.user, s.dayOf(r.now)))
  {
    var n := |run| - 1;
    var init, r := run[..n], run[n];
    var day := s.dayOf(r.now);
    var t := DayTimes(s, init, r.user, day);
    blocked := StepOf(s, AccountIn(Run(s, init), r.user), r).1;
    OrderedPrefix(run, n);
    if LastDay(s, init, r.user) == day {
      DayTimesWithin(s, run, r.user, day);
      LastStepOnDay(s, init, r.user, r.now, t);
    } else {
      LastStepOpensDay(s, init, r.user, r.now);
      assert Charge([r.now], s.idle) == 0;
    }
  }

  /** The budget decision of every request of every run: blocked iff the day's charge reached the budget. */
  lemma BlockedIffOverBudget(s: Settings, run: seq<Request>, i: nat)
    requires s.Valid() && OrderedRun(run) && i < |run|
    ensures Blocked(s, run, i) <==>
            OverBudget(s, run[i].user, DayTimes(s, run[..i + 1], run[i].user, s.dayOf(run[i].now)))
  {
    if run[i].user != "" {
      var upto := run[..i + 1];
      OrderedPrefix(run, i + 1);
      OrderedPrefix(run, i);
      assert upto[..i] == run[..i];
      RunReflectsLedger(s, run[..i], run[i].user);
      var blocked := LastStep(s, upto);
    }
  }

  lemma LastBlockedIff(s: Settings, run: seq<Request>, user: string, now: int)
    requires s.Valid() && OrderedRun(run) && run != [] && run[|run| - 1] == Request(user, now)
    ensures Blocked(s, run, |run| - 1) <==> OverBudget(s, user, DayTimes(s, run, user, s.dayOf(now)))
  {
    BlockedIffOverBudget(s, run, |run| - 1);
    assert run[..|run| - 1 + 1] == run;
  }

  lemma {:induction false} DayTimesGrow(s: Settings, run: seq<Request>, user: string, day: string, i: nat)
    requires OrderedRun(run) && i <= |run|
    ensures Charge(DayTimes(s, run[..i], user, day), s.idle) <= Charge(DayTimes(s, run, user, day), s.idle)
  {
    if i < |run| {
      var init := run[..|run| - 1];
      OrderedPrefix(run, |run| - 1);
      DayTimesGrow(s, init, user, day, i);
      assert init[..i] == run[..i];
      DayTimesWithin(s, run, user, day);
      var r := run[|run| - 1];
      if r.user == user && s.dayOf(r.now) == day {
        ChargeGrows(DayTimes(s, init, user, day), s.idle, r.now);
      } else {
        assert DayTimes(s, run, user, day) == DayTimes(s, init, user, day);
      }
    } else {
      assert run[..i] == run;
    }
  }

  lemma StillSpent(s: Settings, run: seq<Request>, user: string, day: string, i: nat, j: nat)
    requires OrderedRun(run) && i <= j <= |run| && OverBudget(s, user, DayTimes(s, run[..i], user, day))
    ensures OverBudget(s, user, DayTimes(s, run[..j], user, day))
  {
    OrderedPrefix(run, j);
    assert run[..j][..i] == run[..i];
    DayTimesGrow(s, run[..j], user, day, i);
  }

  /** Whole-run lockout: once blocked by the budget, a user stays blocked for the rest of the day. */
  lemma LockedOutForTheDay(s: Settings, run: seq<Request>, i: nat, j: nat)
    requires s.Valid() && OrderedRun(run) && i <= j < |run|
    requires run[i].user == run[j].user && s.dayOf(run[i].now) == s.dayOf(run[j].now)
    requires Blocked(s, run, i)
    ensures Blocked(s, run, j)
  {
    BlockedIffOverBudget(s, run, i);
    StillSpent(s, run, run[i].user, s.dayOf(run[i].now), i + 1, j + 1);
    BlockedIffOverBudget(s, run, j);
  }

  /** The last day of a user, the times of that day's requests, and the account: the ledger of those times. */
  lemma LastDayLedger(s: Settings, run: seq<Request>, user: string) returns (day: string, t: seq<int>)
    requires s.Valid() && OrderedRun(run) && user != "" && LastDay(s, run, user) != ""
    ensures day == LastDay(s, run, user) && t == DayTimes(s, run, user, day) && t != [] && Ordered(t)
    ensures user in Run(s, run) && Run(s, run)[user] == LedgerOf(s.idle, user, day, Divide(s, user, t))
  {
    day := LastDay(s, run, user);
    t := DayTimes(s, run, user, day);
    RunReflectsLedger(s, run, user);
    DayTimesWithin(s, run, user, day);
  }

  /** The exact ledger of a user who has not been stopped, and its bound. */
  lemma ExactLedger(s: Settings, run: seq<Request>, user: string)
    requires s.Valid() && OrderedRun(run) && user != "" && LastDay(s, run, user) != ""
    requires !OverBudget(s, user, DayTimes(s, run, user, LastDay(s, run, user)))
    ensures var day := LastDay(s, run, user);
            var t := DayTimes(s, run, user, day);
            && user in Run(s, run) && t != [] && Run(s, run)[user] == ServedAccount(s.idle, user, day, t)
            && SECOND * Run(s, run)[user].usage.seconds <= 2 * (Last(t) - t[0])
  {
    var day, t := LastDayLedger(s, run, user);
    ServedLedger(s, user, day, t);
  }

  /** A day in one session is charged its time, to less than a second per request. */
  lemma OneSessionUsage(s: Settings, run: seq<Request>, user: string)
    requires s.Valid() && OrderedRun(run) && user != "" && LastDay(s, run, user) != ""
    requires var t := DayTimes(s, run, user, LastDay(s, run, user));
             !OverBudget(s, user, t) && forall i: nat | 0 < i < |t| :: Continues(t, s.idle, i)
    ensures var t := DayTimes(s, run, user, LastDay(s, run, user));
            && user in Run(s, run) && t != []
            && Last(t) - t[0] - 1_000_000_000 * |t| < 1_000_000_000 * Run(s, run)[user].usage.seconds <= Last(t) - t[0]
  {
    var day, t := LastDayLedger(s, run, user);
    ServedLedger(s, user, day, t);
    ChargeKeepsToTheTime(t, s.idle);
    OneSessionTime(t, s.idle);
  }

  /** The day of a stopped user: the budget was spent by the first request that was not served, and not before. */
  ghost predicate Stopped(s: Settings, user: string, t: seq<int>, d: Times) {
    && t == d.served + d.blocked && d.served != [] && d.blocked != []
    && !OverBudget(s, user, d.served) && OverBudget(s, user, d.served + [d.blocked[0]])
  }

  /**
   * The exact ledger of a user who has been stopped. Blocked requests do not move the session: each charges the time
   * since the last served request again, the first one past the idle timeout charges the session, later ones nothing.
   */
  lemma BlockedRequestsChargeAgain(s: Settings, run: seq<Request>, user: string) returns (d: Times)
    requires s.Valid() && OrderedRun(run) && user != "" && LastDay(s, run, user) != ""
    requires OverBudget(s, user, DayTimes(s, run, user, LastDay(s, run, user)))
    ensures Stopped(s, user, DayTimes(s, run, user, LastDay(s, run, user)), d)
    ensures user in Run(s, run) && Run(s, run)[user] == BlockedAccount(s.idle, user, LastDay(s, run, user), d)
  {
    var day, t := LastDayLedger(s, run, user);
    d := Divide(s, user, t);
    PartsMakeDay(s, user, t);
    BlockedWhenSpent(s, user, t);
    SpentByFirstBlocked(s, user, t);
    BlockedLedger(s.idle, user, day, d);
  }

  lemma LedgerWithinDay(s: Settings, user: string, t: seq<int>)
    requires t != [] && Ordered(t)
    ensures var served := Divide(s, user, t).served;
            && Start(served, s.idle) <= Last(served) <= Last(t)
            && Start(served, s.idle) in t && Last(served) in t
  {
    var served := Divide(s, user, t).served;
    PartsMakeDay(s, user, t);
    ServedInOrder(s, user, t);
    StartInOrder(served, s.idle);
    assert t[Opening(served, s.idle, |served| - 1)] in t && t[|served| - 1] in t;
  }

  /** Every reachable account is about one day, and its session lies inside it, not after the clock. */
  lemma ReachableAccounts(s: Settings, run: seq<Request>, user: string)
    requires s.Valid() && OrderedRun(run) && user in Run(s, run) && user != ""
    ensures var a := Run(s, run)[user];
            && a.usage.day == a.session.day == LastDay(s, run, user) != ""
            && a.session.start <= a.session.lastSeen <= run[|run| - 1].now
            && s.dayOf(a.session.start) == s.dayOf(a.session.lastSeen) == a.session.day
  {
    RunReflectsLedger(s, run, user);
    var day, t := LastDayLedger(s, run, user);
    LedgerWithinDay(s, user, t);
    DayTimesWithin(s, run, user, day);
    assert t[|t| - 1] in t;
  }
}
