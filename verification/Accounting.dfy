/** Sessions, usage and the daily budget (internal/accounting/accounting.go). */
module Accounting {
  import opened Durations

  const DEFAULT_IDLE_MINUTES := 10

  /** Go's `int64(d.Seconds())`: truncation toward zero. */
  function WholeSeconds(d: int): int {
    if d >= 0 then d / SECOND else -((-d) / SECOND)
  }

  /** The seconds of a span are those that have passed in full, of a billion nanoseconds each. */
  lemma SecondsArePassed(d: int)
    ensures d >= 0 ==> 1_000_000_000 * WholeSeconds(d) <= d < 1_000_000_000 * (WholeSeconds(d) + 1)
    ensures d <= 0 ==> 1_000_000_000 * (WholeSeconds(d) - 1) < d <= 1_000_000_000 * WholeSeconds(d)
  {
  }

  datatype Reason = NoReason | BudgetExceeded | OutsideWindow | PolicyBlock | ConfigBlock

  datatype Usage = Usage(userId: string, day: string, seconds: int)
  const NO_USAGE := Usage("", "", 0)

  datatype Session = Session(userId: string, day: string, active: bool, start: int, lastSeen: int)
  const ZERO_TIME := 0
  const NO_SESSION := Session("", "", false, ZERO_TIME, ZERO_TIME)

  datatype Decision = Decision(usageSeconds: int, budgetSeconds: int, blocked: bool, reason: Reason)

  function Get<V>(m: map<string, V>, key: string, zero: V): V {
    if key in m then m[key] else zero
  }

  /** The stored rows of one user. */
  datatype Account = Account(usage: Usage, session: Session)

  /** A request opens the user's day: nothing was charged and no session is open on it. */
  predicate OpensDay(a: Account, day: string) {
    a.session.userId == "" || (a.session.day != "" && a.session.day != day) || !a.session.active
  }

  /** Time since the account was last seen, never negative. */
  function Gap(a: Account, now: int): int {
    if now < a.session.lastSeen then 0 else now - a.session.lastSeen
  }

  /** The seconds a request charges to the day before the budget is looked at. */
  function Charged(a: Account, idle: int, day: string, now: int): int {
    if OpensDay(a, day) then 0
    else if Gap(a, now) > idle then WholeSeconds(a.session.lastSeen - a.session.start)
    else WholeSeconds(Gap(a, now))
  }

  predicate StaysOpen(a: Account, idle: int, day: string, now: int) {
    !OpensDay(a, day) && Gap(a, now) <= idle
  }

  function SecondsOn(a: Account, day: string): int {
    if a.usage.day == day then a.usage.seconds else 0
  }

  /** The account after a request, and whether the request is blocked. */
  function Step(a: Account, idle: int, userId: string, budget: int, day: string, now: int): (Account, bool) {
    var total := SecondsOn(a, day) + Charged(a, idle, day, now);
    var usage := Usage(if a.usage.day == day then a.usage.userId else userId, day, total);
    var open := StaysOpen(a, idle, day, now);
    var owner := if a.session.userId == "" then userId else a.session.userId;
    var reset := a.session.userId == "" || (a.session.day != "" && a.session.day != day);
    var start := if reset then ZERO_TIME else a.session.start;
    var seen := if reset then ZERO_TIME else a.session.lastSeen;
    if budget > 0 && total >= budget then
      (Account(usage, Session(owner, day, open, start, seen)), true)
    else
      (Account(usage, Session(owner, day, true, if open then start else now, now)), false)
  }

  datatype User = User(id: string, name: string, dailyBudgetMinutes: int)

  /** The store's two tables behind one manager; `dayOf` is the calendar day in the budget time zone. */
  class Manager {
    const idleTimeout: int
    const dayOf: int -> string
    var sessions: map<string, Session>
    var usage: map<string, Usage>

    constructor (idleMinutes: int, dayOf: int -> string)
      ensures sessions == map[] && usage == map[] && this.dayOf == dayOf
      ensures idleTimeout == (if idleMinutes == 0 then 10 else idleMinutes) * 60 * 1_000_000_000
    {
      idleTimeout := (if idleMinutes == 0 then DEFAULT_IDLE_MINUTES else idleMinutes) * 60 * SECOND;
      this.dayOf := dayOf;
      sessions, usage := map[], map[];
    }

    function AccountOf(userId: string): Account
      reads this
    {
      Account(Get(usage, userId, NO_USAGE), Get(sessions, userId, NO_SESSION))
    }

    /** One request of `user` at `now`; only that user's rows change. */
    method ProcessRequest(user: User, now: int) returns (decision: Decision)
      modifies this
      ensures var (next, blocked) :=
                Step(old(AccountOf(user.id)), idleTimeout, user.id, user.dailyBudgetMinutes * 60, dayOf(now), now);
              && sessions == old(sessions)[user.id := next.session]
              && usage == old(usage)[user.id := next.usage]
              && decision == Decision(if blocked then 0 else next.usage.seconds, user.dailyBudgetMinutes * 60,
                                      blocked, if blocked then BudgetExceeded else NoReason)
    {
      decision := Decision(0, user.dailyBudgetMinutes * 60, false, NoReason);
      var day := dayOf(now);
      decision := ApplyForDay(user.id, day, now, decision);
    }

    method ApplyForDay(userId: string, day: string, now: int, undecided: Decision) returns (decision: Decision)
      requires !undecided.blocked && undecided.usageSeconds == 0 && undecided.reason == NoReason
      modifies this
      ensures var (next, blocked) := Step(old(AccountOf(userId)), idleTimeout, userId, undecided.budgetSeconds, day,
                now);
              && sessions == old(sessions)[userId := next.session]
              && usage == old(usage)[userId := next.usage]
              && decision == Decision(if blocked then 0 else next.usage.seconds, undecided.budgetSeconds,
                                      blocked, if blocked then BudgetExceeded else NoReason)
    {
      decision := undecided;
      ghost var before := AccountOf(userId);
      var used := Get(usage, userId, NO_USAGE);
      if used.day != day {
        used := Usage(userId, day, 0);
      }
      var session := Get(sessions, userId, NO_SESSION);
      if session.userId == "" {
        session := Session(userId, day, false, ZERO_TIME, ZERO_TIME);
      }
      if session.day != "" && session.day != day {
        session := session.(active := false, start := ZERO_TIME, lastSeen := ZERO_TIME);
      }
      session := session.(day := day);
      if session.active {
        var delta := now - session.lastSeen;
        if delta < 0 {
          delta := 0;
        }
        if delta > idleTimeout {
          used := used.(seconds := used.seconds + WholeSeconds(session.lastSeen - session.start));
          session := session.(active := false);
        } else {
          used := used.(seconds := used.seconds + WholeSeconds(delta));
        }
      }
      assert used.seconds == SecondsOn(before, day) + Charged(before, idleTimeout, day, now);
      assert session.active == StaysOpen(before, idleTimeout, day, now);
      if decision.budgetSeconds > 0 && used.seconds >= decision.budgetSeconds {
        decision := decision.(blocked := true, reason := BudgetExceeded);
        sessions, usage := sessions[userId := session], usage[userId := used];
        return;
      }
      if !session.active {
        session := session.(active := true, start := now);
      }
      session := session.(lastSeen := now);
      decision := decision.(usageSeconds := used.seconds);
      sessions, usage := sessions[userId := session], usage[userId := used];
    }
  }
}
