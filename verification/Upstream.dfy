/** The upstream resolver: failover, circuit breaker and response cache (internal/proxy/upstream.go). */
module Upstream {
  import opened Breaker
  import opened Cache
  import opened CacheKeys
  import opened Text

  datatype UpstreamState = UpstreamState(addr: string, failures: nat, lastFail: Option<int>)

  /** The two counters summarise everything that ever happened to the upstream. */
  predicate Summarises(b: Breaker, u: UpstreamState, h: History) {
    u.failures == FailRun(b, h) && u.lastFail == LastFailure(h) && WithinLimit(b, h)
  }

  /** Ready to be contacted at `now`: one more failure will be counted right. */
  predicate Ready(b: Breaker, u: UpstreamState, h: History, now: int) {
    && u.failures + 1 == FailRun(b, h + [Attempt(now, false)])
    && u.lastFail == LastFailure(h)
    && WithinLimit(b, h) && !Open(b, h, now)
  }

  lemma AttemptSummarised(b: Breaker, u: UpstreamState, h: History, now: int, ok: bool)
    requires Ready(b, u, h, now)
    ensures Summarises(b, if ok then u.(failures := 0) else u.(failures := u.failures + 1, lastFail := Some(now)),
                       h + [Attempt(now, ok)])
  {
    AttemptKeepsLimit(b, h, now, ok);
    assert (h + [Attempt(now, ok)])[..|h|] == h;
  }

  lemma CheckedIsReady(b: Breaker, u: UpstreamState, h: History, now: int)
    requires Summarises(b, u, h) && !Open(b, h, now)
    ensures Ready(b, if b.maxFails > 0 && !RecentFailure(b, h, now) then u.(failures := 0) else u, h, now)
  {
    assert (h + [Attempt(now, false)])[..|h|] == h;
  }

  /** Put in front of an outcome the contacts already made. */
  ghost function After<M>(contacts: seq<Contact>, o: Outcome<M>): Outcome<M> {
    o.(contacts := contacts + o.contacts)
  }

  /** One step of the loop, seen from the outcome `o` of the whole call. */
  lemma FailoverStep<M>(o: Outcome<M>, contacts: seq<Contact>, b: Breaker, hs: seq<History>, now: int,
                        network: nat -> Reply<M>, round: nat, j: nat, tries: nat, made: nat)
    requires j < |hs| && round < tries
    requires o == After(contacts, Failover(b, hs, now, network, round, j, tries, made))
    ensures var hs' := hs[j := hs[j] + [Attempt(now, network(made).Answer?)]];
            var contacts' := contacts + [Contact(round, j)];
            o == if Open(b, hs[j], now) then After(contacts, Failover(b, hs, now, network, round, j + 1, tries, made))
                 else if network(made).Answer? then Outcome(hs', contacts', Some(network(made).value))
                 else After(contacts', Failover(b, hs', now, network, round, j + 1, tries, made + 1))
  {
    if !Open(b, hs[j], now) && network(made).Fault? {
      var rest := Failover(b, hs[j := hs[j] + [Attempt(now, false)]], now, network, round, j + 1, tries, made + 1);
      assert contacts + ([Contact(round, j)] + rest.contacts) == contacts + [Contact(round, j)] + rest.contacts;
    }
  }

  lemma FailoverRoundEnds<M>(b: Breaker, hs: seq<History>, now: int, network: nat -> Reply<M>,
                             round: nat, tries: nat, made: nat)
    requires round < tries
    ensures Failover(b, hs, now, network, round, |hs|, tries, made)
            == Failover(b, hs, now, network, round + 1, 0, tries, made)
  {
  }

  /** What one call comes to. */
  datatype Answered = Answered(reply: Option<MsgValue>, contacts: seq<Contact>, histories: seq<History>,
                               events: seq<Event>)

  class UpstreamResolver {
    const retries: nat
    const breaker: Breaker
    const cacheEnabled: bool
    const ttlOverride: int
    const negativeTTL: int
    const upstreams: array<UpstreamState>
    const cache: ResponseCache
    ghost var histories: seq<History>
    ghost var outside: set<object>

    /** Every pair of counters summarises the attempts on its upstream. */
    ghost predicate Tracked()
      reads this`histories, upstreams
    {
      && |histories| == upstreams.Length
      && forall j | 0 <= j < upstreams.Length :: Summarises(breaker, upstreams[j], histories[j])
    }

    ghost predicate Valid()
      reads this, upstreams, cache, cache.repr
    {
      && Tracked() && cache.Valid() && upstreams !in cache.repr
      // No message the cache keeps was ever passed in or handed out.
      && outside !! cache.repr
      && forall e | e in cache.log :: Justified(e)
    }

    /** Every put is under the key of the question asked, for the lifetime its kind of answer gets. */
    ghost predicate Justified(e: Event) {
      e.Put? ==> e.key == CacheKey(e.asked) && e.ttl == (if e.negative then negativeTTL else Lifetime(e.value)) > 0
    }

    constructor (addrs: seq<string>, retries: nat, breaker: Breaker, cacheEnabled: bool, ttlOverride: int,
                 negativeTTL: int)
      ensures Valid() && fresh(cache) && fresh(upstreams)
      ensures cache.log == [] && histories == seq(|addrs|, _ => []) && upstreams.Length == |addrs|
    {
      this.retries, this.breaker, this.cacheEnabled := retries, breaker, cacheEnabled;
      this.ttlOverride, this.negativeTTL := ttlOverride, negativeTTL;
      upstreams := new UpstreamState[|addrs|](i requires 0 <= i < |addrs| => UpstreamState(addrs[i], 0, None));
      cache := new ResponseCache();
      histories := seq(|addrs|, _ => []);
      outside := {};
    }

    method IsUnhealthy(j: nat, now: int) returns (unhealthy: bool)
      requires j < upstreams.Length == |histories| && Summarises(breaker, upstreams[j], histories[j])
      modifies upstreams
      ensures unhealthy == Open(breaker, histories[j], now)
      ensures unhealthy ==> upstreams[j] == old(upstreams[j])
      ensures !unhealthy ==> Ready(breaker, upstreams[j], histories[j], now)
      ensures forall k | 0 <= k < upstreams.Length && k != j :: upstreams[k] == old(upstreams[k])
    {
      if !Open(breaker, histories[j], now) {
        CheckedIsReady(breaker, upstreams[j], histories[j], now);
      }
      var u := upstreams[j];
      if breaker.maxFails == 0 {
        return false;
      }
      var recent := u.lastFail.Some? && now - u.lastFail.value < breaker.failWindow;
      if u.failures >= breaker.maxFails && recent {
        return true;
      }
      if !recent {
        upstreams[j] := u.(failures := 0);
      }
      return false;
    }

    method MarkFail(j: nat, now: int)
      requires j < upstreams.Length == |histories| && Ready(breaker, upstreams[j], histories[j], now)
      modifies this`histories, upstreams
      ensures histories == old(histories)[j := old(histories)[j] + [Attempt(now, false)]]
      ensures Summarises(breaker, upstreams[j], histories[j])
      ensures forall k | 0 <= k < upstreams.Length && k != j :: upstreams[k] == old(upstreams[k])
    {
      AttemptSummarised(breaker, upstreams[j], histories[j], now, false);
      upstreams[j] := upstreams[j].(failures := upstreams[j].failures + 1, lastFail := Some(now));
      histories := histories[j := histories[j] + [Attempt(now, false)]];
    }

    method MarkSuccess(j: nat, now: int)
      requires j < upstreams.Length == |histories| && Ready(breaker, upstreams[j], histories[j], now)
      modifies this`histories, upstreams
      ensures histories == old(histories)[j := old(histories)[j] + [Attempt(now, true)]]
      ensures Summarises(breaker, upstreams[j], histories[j])
      ensures forall k | 0 <= k < upstreams.Length && k != j :: upstreams[k] == old(upstreams[k])
    {
      AttemptSummarised(breaker, upstreams[j], histories[j], now, true);
      upstreams[j] := upstreams[j].(failures := 0);
      histories := histories[j := histories[j] + [Attempt(now, true)]];
    }

    function Tries(): nat {
      if retries < 1 then 1 else retries
    }

    /** One step of a round: the unhealthy are skipped, the others contacted and marked. */
    method TryOne(j: nat, now: int, reply: Reply<MsgValue>) returns (skipped: bool)
      requires Tracked() && j < upstreams.Length
      modifies this`histories, upstreams
      ensures Tracked()
      ensures skipped == Open(breaker, old(histories)[j], now)
      ensures histories == if skipped then old(histories)
                           else old(histories)[j := old(histories)[j] + [Attempt(now, reply.Answer?)]]
    {
      skipped := IsUnhealthy(j, now);
      if skipped {
        assert forall k | 0 <= k < upstreams.Length :: upstreams[k] == old(upstreams[k]);
        return;
      }
      if reply.Fault? {
        MarkFail(j, now);
      } else {
        MarkSuccess(j, now);
      }
    }

    /** The rounds of one call: skip open breakers, stop at the first answer. */
    method TryUpstreams(now: int, network: nat -> Reply<MsgValue>)
      returns (reply: Option<MsgValue>, ghost contacts: seq<Contact>)
      requires Tracked()
      modifies this`histories, upstreams
      ensures Tracked()
      ensures Failover(breaker, old(histories), now, network, 0, 0, Tries(), 0) == Outcome(histories, contacts, reply)
    {
      ghost var o := Failover(breaker, histories, now, network, 0, 0, Tries(), 0);
      contacts := [];
      var made := 0;
      for i := 0 to Tries()
        invariant Tracked() && made == |contacts|
        invariant o == After(contacts, Failover(breaker, histories, now, network, i, 0, Tries(), made))
      {
        for j := 0 to upstreams.Length
          invariant Tracked() && made == |contacts|
          invariant o == After(contacts, Failover(breaker, histories, now, network, i, j, Tries(), made))
        {
          ghost var hs := histories;
          var skipped := TryOne(j, now, network(made));
          FailoverStep(o, contacts, breaker, hs, now, network, i, j, Tries(), made);
          if !skipped {
            contacts := contacts + [Contact(i, j)];
            if network(made).Answer? {
              return Some(network(made).value), contacts;
            }
            made := made + 1;
          }
        }
        FailoverRoundEnds(breaker, histories, now, network, i, Tries(), made);
      }
      reply := None;
    }

    /** How long an answer is kept: the override, or its smallest TTL. */
    function Lifetime(v: MsgValue): int {
      if ttlOverride > 0 then ttlOverride else SmallestTTL(v.answers)
    }

    /** What a reply adds to the history of the cache. */
    ghost function Remembered(q: Question, reply: Option<MsgValue>, now: int): seq<Event> {
      if cacheEnabled && reply.Some? && Lifetime(reply.value) > 0 then
        [Event.Put(q, CacheKey(q), reply.value, Lifetime(reply.value), false, now)]
      else []
    }

    ghost function CachedReply(q: Question, now: int): Option<MsgValue>
      reads this, cache
    {
      if cacheEnabled then Hit(cache.log, CacheKey(q), now) else None
    }

    /** The cached answer to `req`, as a new message under the id of this request. */
    method FromCache(req: Msg, now: int) returns (resp: Msg?)
      requires Valid()
      ensures Valid()
      ensures resp == null <==> CachedReply(req.question, now).None?
      ensures resp != null ==>
                fresh(resp.Objects()) && resp.Value() == CachedReply(req.question, now).value.(id := req.id)
    {
      if !cacheEnabled {
        return null;
      }
      resp := cache.Get(CacheKey(req.question), now);
      if resp != null {
        resp.SetId(req.id);
      }
    }

    /** Keeps a copy of an answer for its lifetime. */
    method Keep(q: Question, resp: Msg, now: int)
      requires Valid() && resp.Objects() !! cache.repr
      modifies cache
      ensures Valid() && fresh(cache.repr - old(cache.repr))
      ensures resp.Value() == old(resp.Value()) && resp.Objects() == old(resp.Objects())
      ensures cache.log == old(cache.log) + Remembered(q, Some(resp.Value()), now)
    {
      if !cacheEnabled {
        return;
      }
      var ttl := resp.MinTTL();
      if ttlOverride > 0 {
        ttl := ttlOverride;
      }
      if ttl > 0 {
        cache.Put(q, CacheKey(q), resp, ttl, false, now);
      }
    }

    /** Takes an answer off the wire and keeps a copy of it. */
    method Deliver(q: Question, v: MsgValue, now: int) returns (resp: Msg)
      requires Valid()
      modifies cache
      ensures Valid() && fresh(cache.repr - old(cache.repr))
      ensures fresh(resp.Objects()) && resp.Objects() !! cache.repr && resp.Value() == v
      ensures cache.log == old(cache.log) + Remembered(q, Some(v), now)
    {
      resp := Receive(v);
      Keep(q, resp, now);
    }

    /** Asks the upstreams, and keeps what they answer. */
    method Resolve(q: Question, now: int, network: nat -> Reply<MsgValue>)
      returns (resp: Msg?, ghost contacts: seq<Contact>)
      requires Valid()
      modifies this`histories, upstreams, cache
      ensures Valid() && fresh(cache.repr - old(cache.repr))
      ensures var o := Failover(breaker, old(histories), now, network, 0, 0, Tries(), 0);
              && histories == o.histories && contacts == o.contacts
              && (resp == null <==> o.reply.None?) && (resp != null ==> Some(resp.Value()) == o.reply)
              && cache.log == old(cache.log) + Remembered(q, o.reply, now)
      ensures resp != null ==> fresh(resp.Objects()) && resp.Objects() !! cache.repr
    {
      var reply;
      reply, contacts := TryUpstreams(now, network);
      if reply.None? {
        return null, contacts;
      }
      resp := Deliver(q, reply.value, now);
    }

    /** What a call answers: a hit under the id of the request, or what the failover yields and the cache remembers. */
    ghost function AnswerTo(q: Question, id: uint16, now: int, network: nat -> Reply<MsgValue>): Answered
      reads this, cache
    {
      var hit := CachedReply(q, now);
      if hit.Some? then Answered(Some(hit.value.(id := id)), [], histories, [])
      else
        var o := Failover(breaker, histories, now, network, 0, 0, Tries(), 0);
        Answered(o.reply, o.contacts, o.histories, Remembered(q, o.reply, now))
    }

    ghost method HandOver(req: Msg, resp: Msg?)
      requires Valid() && req.Objects() !! cache.repr && (resp != null ==> resp.Objects() !! cache.repr)
      modifies this`outside
      ensures Valid()
      ensures outside == old(outside) + req.Objects() + (if resp == null then {} else resp.Objects())
    {
      outside := outside + req.Objects() + (if resp == null then {} else resp.Objects());
    }

    /** The cache first, then the upstreams. */
    method Answer(req: Msg, now: int, network: nat -> Reply<MsgValue>)
      returns (resp: Msg?, ghost contacts: seq<Contact>)
      requires Valid() && req.Objects() !! cache.repr
      modifies this`histories, upstreams, cache
      ensures Valid() && fresh(cache.repr - old(cache.repr))
      ensures var x := old(AnswerTo(req.question, req.id, now, network));
              && (resp == null <==> x.reply.None?) && (resp != null ==> Some(resp.Value()) == x.reply)
              && contacts == x.contacts && histories == x.histories && cache.log == old(cache.log) + x.events
      ensures resp != null ==> fresh(resp.Objects()) && resp.Objects() !! cache.repr
    {
      resp := FromCache(req, now);
      if resp != null {
        return resp, [];
      }
      resp, contacts := Resolve(req.question, now, network);
    }

    /** Answers a question from the cache if it can, else from the first upstream that answers. */
    method Exchange(req: Msg, now: int, network: nat -> Reply<MsgValue>)
      returns (resp: Msg?, ghost contacts: seq<Contact>)
      requires Valid() && req.Objects() !! cache.repr
      modifies this`histories, this`outside, upstreams, cache
      ensures Valid() && fresh(cache.repr - old(cache.repr))
      ensures var x := old(AnswerTo(req.question, req.id, now, network));
              && (resp == null <==> x.reply.None?) && (resp != null ==> Some(resp.Value()) == x.reply)
              && contacts == x.contacts && histories == x.histories && cache.log == old(cache.log) + x.events
      ensures resp != null ==> fresh(resp.Objects())
      ensures outside == old(outside) + req.Objects() + (if resp == null then {} else resp.Objects())
    {
      resp, contacts := Answer(req, now, network);
      HandOver(req, resp);
    }

    /** Keeps a failure as a message with the given response code. */
    method CacheNegative(req: Msg, rcode: nat, now: int)
      requires Valid()
      modifies cache
      ensures Valid() && fresh(cache.repr - old(cache.repr))
      ensures cache.log == old(cache.log) + RememberedFailure(old(req.Value()), rcode, now)
    {
      if !cacheEnabled || negativeTTL <= 0 {
        return;
      }
      var msg := new Msg(req.id, req.question, rcode, []);
      cache.Put(req.question, CacheKey(req.question), msg, negativeTTL, true, now);
    }

    ghost function RememberedFailure(req: MsgValue, rcode: nat, now: int): seq<Event> {
      if cacheEnabled && negativeTTL > 0 then
        [Event.Put(req.question, CacheKey(req.question), MsgValue(req.id, req.question, rcode, []), negativeTTL, true,
            now)]
      else []
    }

    method ClearCache()
      requires Valid()
      modifies cache
      ensures Valid() && cache.log == old(cache.log) + [Event.Clear] && cache.repr == old(cache.repr)
    {
      cache.Clear();
    }

    /**
     * A hit is an answer to the same question, letter case aside: the last one kept under it since
     * the last clear, still within its lifetime.
     */
    lemma HitMeaning(q: Question, now: int)
      requires Valid() && Hit(cache.log, CacheKey(q), now).Some?
      ensures exists i :: 0 <= i < |cache.log| && IsLatestAnswer(i, q)
                && cache.log[i].value == Hit(cache.log, CacheKey(q), now).value
                          && now <= cache.log[i].at
                            + (if cache.log[i].negative then negativeTTL else Lifetime(cache.log[i].value))
    {
      LastPutMeaning(cache.log, CacheKey(q));
      var e := LastPut(cache.log, CacheKey(q)).value;
      var i: nat :| IsLastPut(cache.log, CacheKey(q), i) && cache.log[i] == e;
      assert e in cache.log && Justified(e);
      CacheKeyInjective(q, e.asked);
      forall j | i < j < |cache.log| ensures !SameQuestion(cache.log[j].asked, q) {
        assert cache.log[j] in cache.log && Justified(cache.log[j]);
        CacheKeyInjective(q, cache.log[j].asked);
      }
      assert IsLatestAnswer(i, q);
    }

    /** And the latest answer to a question is a hit for exactly as long as its lifetime. */
    lemma LatestAnswerHits(q: Question, now: int, i: nat)
      requires Valid() && IsLatestAnswer(i, q)
      ensures var e := cache.log[i];
              Hit(cache.log, CacheKey(q), now)
              == if now <= e.at + (if e.negative then negativeTTL else Lifetime(e.value)) then Some(e.value) else None
    {
      forall j | i <= j < |cache.log| ensures cache.log[j].key == CacheKey(q) <==> j == i {
        assert cache.log[j] in cache.log && Justified(cache.log[j]);
        CacheKeyInjective(q, cache.log[j].asked);
      }
      assert Justified(cache.log[i]);
      LatestIsLastPut(cache.log, CacheKey(q), i);
    }

    ghost predicate IsLatestAnswer(i: nat, q: Question)
      reads this, cache
    {
      && i < |cache.log| && cache.log[i].Put? && SameQuestion(cache.log[i].asked, q)
      && forall j | i < j < |cache.log| :: cache.log[j].Put? && !SameQuestion(cache.log[j].asked, q)
    }
  }

  predicate SameQuestion(a: Question, b: Question) {
    Lower(a.name) == Lower(b.name) && a.qtype == b.qtype
  }
}
