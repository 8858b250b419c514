/** What a first call means for the next one: answers and failures are remembered (internal/proxy/upstream.go). */
module TwoCalls {
  import opened Breaker
  import opened Cache
  import opened CacheKeys
  import opened Forwarding
  import opened Text
  import opened Upstream

  const NANOSECONDS: int := 1_000_000_000

  /** `ttl` is how long the answers say they may be kept: what the record with the smallest TTL says, or nothing. */
  ghost predicate IsLeastTTL(ttl: int, answers: seq<RRValue>) {
    if answers == [] then ttl == 0
    else
      && (forall i | 0 <= i < |answers| :: ttl <= answers[i].ttl as int * NANOSECONDS)
      && exists i :: 0 <= i < |answers| && ttl == answers[i].ttl as int * NANOSECONDS
  }

  lemma LeastTTL(answers: seq<RRValue>)
    ensures IsLeastTTL(SmallestTTL(answers), answers)
  {
    SmallestTTLIsLeast(answers);
  }

  /** What the rounds of one call do, from the histories before it. */
  ghost function Asking(r: UpstreamResolver, hs: seq<History>, now: int,
                        network: nat -> Reply<MsgValue>): Outcome<MsgValue> {
    Failover(r.breaker, hs, now, network, 0, 0, if r.retries < 1 then 1 else r.retries, 0)
  }

  /** A reply and the contacts behind it are those of `o`. */
  ghost predicate IsOutcome(reply: Option<MsgValue>, contacts: seq<Contact>, hs: seq<History>, o: Outcome<MsgValue>) {
    reply == o.reply && contacts == o.contacts && hs == o.histories
  }

  ghost function ValueOf(m: Msg?): Option<MsgValue>
    reads m, if m == null then {} else m.Objects()
  {
    if m == null then None else Some(m.Value())
  }

  lemma MissStaysMiss(log: seq<Event>, key: string, now: int, later: int)
    requires Hit(log, key, now).None? && now <= later
    ensures Hit(log, key, later).None?
  {
  }

  lemma HitAfterPut(log: seq<Event>, e: Event, later: int)
    requires e.Put?
    ensures Hit(log + [e], e.key, later) == if later <= e.at + e.ttl then Some(e.value) else None
  {
    LastPutAfter(log, e, e.key);
  }

  /** What the cache has for the question at `later`, after a miss at `now` and the reply that followed. */
  lemma NextCached(r: UpstreamResolver, log: seq<Event>, q1: Question, q2: Question, reply: Option<MsgValue>, now: int,
                   later: int)
    requires r.cache.log == log + r.Remembered(q1, reply, now) && CacheKey(q1) == CacheKey(q2) && now <= later
    requires r.cacheEnabled ==> Hit(log, CacheKey(q1), now).None?
    ensures r.CachedReply(q2, later)
            == if r.cacheEnabled && reply.Some? && r.Lifetime(reply.value) > 0 && later <= now + r.Lifetime(reply.value)
               then reply else None
  {
    if r.cacheEnabled && reply.Some? && r.Lifetime(reply.value) > 0 {
      HitAfterPut(log, r.Remembered(q1, reply, now)[0], later);
    } else if r.cacheEnabled {
      assert r.cache.log == log;
      MissStaysMiss(log, CacheKey(q1), now, later);
    }
  }

  /** How long an answer is kept: the override if there is one, else what the answer says. */
  ghost predicate IsLifetime(r: UpstreamResolver, ttl: int, answer: MsgValue) {
    if r.ttlOverride > 0 then ttl == r.ttlOverride else IsLeastTTL(ttl, answer.answers)
  }

  /** One call that made contacts, and what it left in the cache for later. */
  method AskFirst(r: UpstreamResolver, m: Msg, now: int, network: nat -> Reply<MsgValue>, ghost q: Question,
                  ghost later: int)
    returns (a: Msg?, ghost contacts: seq<Contact>, ghost ttl: int)
    requires r.Valid() && m.Objects() !! r.cache.repr && SameQuestion(m.question, q) && now <= later
    modifies r`histories, r`outside, r.upstreams, r.cache
    ensures r.Valid() && fresh(r.cache.repr - old(r.cache.repr)) && (a != null ==> fresh(a.Objects()))
    ensures contacts != [] ==> IsOutcome(ValueOf(a), contacts, r.histories, Asking(r, old(r.histories), now, network))
    ensures a != null ==> IsLifetime(r, ttl, a.Value())
    ensures contacts != [] ==>
              r.CachedReply(q, later)
              == if a != null && r.cacheEnabled && ttl > 0 && later <= now + ttl then Some(a.Value()) else None
  {
    ghost var log := r.cache.log;
    ghost var missed := r.CachedReply(m.question, now).None?;
    ghost var asked := m.question;
    CacheKeyInjective(m.question, q);
    a, contacts := r.Exchange(m, now, network);
    ttl := if a == null then 0 else r.Lifetime(a.Value());
    if a != null {
      LeastTTL(a.Value().answers);
    }
    if missed {
      NextCached(r, log, asked, q, ValueOf(a), now, later);
    }
  }

  /**
   * Two calls for the same question, letter case aside. When the first one made contacts and got an answer that may
   * be kept, the second one gets that answer under its own id, without contact, up to the end of its lifetime;
   * otherwise the second one asks the upstreams.
   */
  method AskAgain(r: UpstreamResolver, first: Msg, now: int, network: nat -> Reply<MsgValue>,
                  second: Msg, later: int, network2: nat -> Reply<MsgValue>)
    returns (a: Msg?, b: Msg?, ghost c1: seq<Contact>, ghost c2: seq<Contact>, ghost between: seq<History>,
        ghost ttl: int)
    requires r.Valid() && first.Objects() !! r.cache.repr && second.Objects() !! r.cache.repr
    requires SameQuestion(first.question, second.question) && now <= later
    modifies r`histories, r`outside, r.upstreams, r.cache
    ensures r.Valid()
    ensures c1 != [] ==> IsOutcome(ValueOf(a), c1, between, Asking(r, old(r.histories), now, network))
    ensures c1 != [] && a != null ==> IsLifetime(r, ttl, a.Value())
    ensures c1 != [] && a != null && r.cacheEnabled && ttl > 0 && later <= now + ttl ==>
              b != null && b.Value() == a.Value().(id := second.id) && c2 == [] && r.histories == between
    ensures c1 != [] && !(a != null && r.cacheEnabled && ttl > 0 && later <= now + ttl) ==>
              IsOutcome(ValueOf(b), c2, r.histories, Asking(r, between, later, network2))
  {
    a, c1, ttl := AskFirst(r, first, now, network, second.question, later);
    between := r.histories;
    ghost var v := ValueOf(a);
    b, c2 := r.Exchange(second, later, network2);
    assert ValueOf(a) == v;
  }

  // --- Through the handler --------------------------------------------------------------------------

  const SERVFAIL := 2

  /** What the cache has for the question at `later`, after a failure at `now` was remembered. */
  lemma NextFailure(r: UpstreamResolver, log: seq<Event>, asked: MsgValue, q: Question, now: int, later: int)
    requires r.cache.log == log + r.RememberedFailure(asked, SERVFAIL, now)
    requires CacheKey(asked.question) == CacheKey(q) && now <= later
    requires r.cacheEnabled ==> Hit(log, CacheKey(q), now).None?
    ensures r.CachedReply(q, later)
            == if r.cacheEnabled && r.negativeTTL > 0 && later <= now + r.negativeTTL
               then Some(MsgValue(asked.id, asked.question, SERVFAIL, [])) else None
  {
    if r.cacheEnabled && r.negativeTTL > 0 {
      HitAfterPut(log, r.RememberedFailure(asked, SERVFAIL, now)[0], later);
    } else if r.cacheEnabled {
      assert r.cache.log == log;
      MissStaysMiss(log, CacheKey(q), now, later);
    }
  }

  /** The remembered failure as the second client gets it. */
  lemma FailureForSecond(first: Question, second: Question, id1: uint16, id2: uint16)
    requires SameQuestion(first, second)
    ensures Rewritten(MsgValue(id1, Asked(first), SERVFAIL, []).(id := id2))
            == MsgValue(id2, Question(Lower(second.name), second.qtype), 2, [])
  {
    assert Lower(Upper(first.name)) == Lower(first.name);
  }

  lemma SameInUpperCase(p: Question, q: Question)
    requires SameQuestion(p, q)
    ensures SameQuestion(p, Asked(q))
  {
    assert Lower(Upper(q.name)) == Lower(q.name);
  }

  /** One query that no upstream answered, and what it left in the cache for later. */
  method FailFirst(r: UpstreamResolver, m: Msg, now: int, network: nat -> Reply<MsgValue>, ghost q: Question,
                   ghost later: int)
    returns (a: Msg?)
    requires r.Valid() && m.Objects() !! r.cache.repr && SameQuestion(m.question, q) && now <= later
    modifies m, r`histories, r`outside, r.upstreams, r.cache
    ensures r.Valid() && fresh(r.cache.repr - old(r.cache.repr))
    ensures a == null ==>
              r.CachedReply(q, later)
              == if r.cacheEnabled && r.negativeTTL > 0 && later <= now + r.negativeTTL
                 then Some(MsgValue(old(m.id), Asked(old(m.question)), SERVFAIL, [])) else None
  {
    ghost var log, asked, v := r.cache.log, m.question, m.Value();
    UpperKeepsCacheKey(asked);
    CacheKeyInjective(asked, q);
    a := DoDnsExchange(r, m, now, network);
    if a == null {
      NextFailure(r, log, v.(question := Asked(asked)), q, now, later);
    }
  }

  /**
   * Two queries for the same question, letter case aside, of which no upstream answered the first. For the negative
   * lifetime the second one is told SERVFAIL at once, under its own id and in lower case; after that the upstreams
   * are asked again.
   */
  method FailAgain(r: UpstreamResolver, first: Msg, now: int, network: nat -> Reply<MsgValue>,
                   second: Msg, later: int, network2: nat -> Reply<MsgValue>)
    returns (a: Msg?, b: Msg?, ghost between: seq<History>)
    requires r.Valid() && first.Objects() !! r.cache.repr && second.Objects() !! r.cache.repr
    requires first != second && SameQuestion(first.question, second.question) && now <= later
    modifies first, second, r`histories, r`outside, r.upstreams, r.cache
    ensures r.Valid()
    ensures a == null && r.cacheEnabled && r.negativeTTL > 0 && later <= now + r.negativeTTL ==>
              && b != null && r.histories == between
              && b.Value().id == old(second.id) && b.Value().rcode == 2 && b.Value().answers == []
              && b.Value().question == Question(Lower(old(second.question.name)), old(second.question.qtype))
    ensures a == null && !(r.cacheEnabled && r.negativeTTL > 0 && later <= now + r.negativeTTL) ==>
              r.histories == Asking(r, between, later, network2).histories
              && (b == null <==> Asking(r, between, later, network2).reply.None?)
  {
    ghost var p, q := first.question, second.question;
    SameInUpperCase(p, q);
    FailureForSecond(p, q, first.id, second.id);
    a := FailFirst(r, first, now, network, Asked(q), later);
    between := r.histories;
    b := DoDnsExchange(r, second, later, network2);
  }
}
