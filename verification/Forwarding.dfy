/** Forwarding a query and rewriting the answer in place (internal/proxy/proxy.go). */
module Forwarding {
  import opened Breaker
  import opened Cache
  import opened CacheKeys
  import opened Text
  import opened Upstream

  const SERVER_FAILURE := 2

  function UpperChar(c: char): char {
    if 'a' <= c <= 'z' then c - 'a' + 'A' else c
  }

  function Upper(s: string): string {
    seq(|s|, i requires 0 <= i < |s| => UpperChar(s[i]))
  }

  /** Upper-casing the question does not change where it is cached. */
  lemma UpperKeepsCacheKey(q: Question)
    ensures CacheKey(q.(name := Upper(q.name))) == CacheKey(q)
  {
    assert Lower(Upper(q.name)) == Lower(q.name);
  }

  /** The reply a client gets: the message with its names in lower case. */
  function Lowered(answers: seq<RRValue>): seq<RRValue> {
    if answers == [] then []
    else
      var last := answers[|answers| - 1];
      Lowered(answers[..|answers| - 1]) + [last.(name := Lower(last.name))]
  }

  /** Lower-cases the names of the records of a message, in place. */
  method LowerAnswers(m: Msg)
    modifies m.answers
    ensures m.Value() == old(m.Value()).(answers := Lowered(old(m.Value()).answers))
  {
    for i := 0 to |m.answers|
      invariant forall k | 0 <= k < i :: m.answers[k].name == Lower(old(m.answers[k].name))
      invariant forall k | 0 <= k < |m.answers| ::
                  m.answers[k].name == old(m.answers[k].name) || m.answers[k].name == Lower(old(m.answers[k].name))
      invariant forall k | 0 <= k < |m.answers| :: m.answers[k].ttl == old(m.answers[k].ttl)
    {
      LowerIdempotent(old(m.answers[i].name));
      m.answers[i].name := Lower(m.answers[i].name);
    }
    LoweredValues(m.answers);
  }

  twostate lemma {:induction false} LoweredValues(rrs: seq<RR>)
    requires forall k | 0 <= k < |rrs| :: rrs[k].name == Lower(old(rrs[k].name)) && rrs[k].ttl == old(rrs[k].ttl)
    ensures RRValues(rrs) == Lowered(old(RRValues(rrs)))
  {
    if rrs != [] {
      LoweredValues(rrs[..|rrs| - 1]);
    }
  }

  /** The reply a client gets: all its names in lower case. */
  function Rewritten(v: MsgValue): MsgValue {
    v.(question := v.question.(name := Lower(v.question.name)), answers := Lowered(v.answers))
  }

  /** A reply as the client gets it: only the names change, each to lower case. */
  lemma RewrittenMeaning(v: MsgValue)
    ensures var w := Rewritten(v);
            && w.id == v.id && w.rcode == v.rcode
            && w.question == Question(Lower(v.question.name), v.question.qtype)
            && |w.answers| == |v.answers|
            && forall i | 0 <= i < |v.answers| :: w.answers[i] == RRValue(Lower(v.answers[i].name), v.answers[i].ttl)
  {
    LoweredMeaning(v.answers);
  }

  lemma {:induction false} LoweredMeaning(answers: seq<RRValue>)
    ensures |Lowered(answers)| == |answers|
    ensures forall i | 0 <= i < |answers| :: Lowered(answers)[i] == RRValue(Lower(answers[i].name), answers[i].ttl)
  {
    if answers != [] {
      LoweredMeaning(answers[..|answers| - 1]);
    }
  }

  /** Rewrites a reply in place: whatever the resolver kept of it is not affected. */
  method Rewrite(r: UpstreamResolver, m: Msg)
    requires r.Valid() && m.Objects() <= r.outside
    modifies m.Objects()
    ensures r.Valid() && m.Value() == Rewritten(old(m.Value())) && r.cache.repr == old(r.cache.repr)
  {
    assert forall rr | rr in m.answers :: rr in m.Objects();
    LowerAnswers(m);
    m.question := m.question.(name := Lower(m.question.name));
  }

  function Asked(q: Question): Question {
    q.(name := Upper(q.name))
  }

  /** Upper-cases the question of a request in place. */
  method UpperQuestion(r: UpstreamResolver, m: Msg)
    requires r.Valid() && m.Objects() !! r.cache.repr
    modifies m
    ensures r.Valid() && m.Objects() == old(m.Objects())
    ensures m.Value() == old(m.Value()).(question := Asked(old(m.question)))
  {
    m.question := Asked(m.question);
  }

  /** So the answer is cached for a question in whatever letter case it is asked. */
  lemma CachedInAnyCase(r: UpstreamResolver, q: Question, now: int)
    ensures r.CachedReply(Asked(q), now) == r.CachedReply(q, now)
  {
    UpperKeepsCacheKey(q);
  }

  /** Passes the request on, and rewrites the reply or remembers the failure. */
  method Forward(r: UpstreamResolver, m: Msg, now: int, network: nat -> Reply<MsgValue>) returns (written: Msg?)
    requires r.Valid() && m.Objects() !! r.cache.repr
    modifies r`histories, r`outside, r.upstreams, r.cache
    ensures r.Valid() && fresh(r.cache.repr - old(r.cache.repr))
    ensures var x := old(r.AnswerTo(m.question, m.id, now, network));
            && (written == null <==> x.reply.None?)
            && (written != null ==> written.Value() == Rewritten(x.reply.value))
            && r.histories == x.histories
            && r.cache.log == old(r.cache.log) + x.events + Failure(r, old(m.Value()), x.reply, now)
  {
    ghost var v := m.Value();
    ghost var contacts;
    written, contacts := r.Exchange(m, now, network);
    if written == null {
      assert m.Value() == v;
      r.CacheNegative(m, SERVER_FAILURE, now);
      return;
    }
    Rewrite(r, written);
  }

  ghost function Failure(r: UpstreamResolver, asked: MsgValue, reply: Option<MsgValue>, now: int): seq<Event> {
    if reply.Some? then [] else r.RememberedFailure(asked, SERVER_FAILURE, now)
  }

  /**
   * Asks for the name in upper case and hands out the reply in lower case. The rewriting of the request and
   * of the reply never reaches the cache: its history only gains what the upstream sent, or the failure.
   */
  method DoDnsExchange(r: UpstreamResolver, m: Msg, now: int, network: nat -> Reply<MsgValue>) returns (written: Msg?)
    requires r.Valid() && m.Objects() !! r.cache.repr
    modifies m, r`histories, r`outside, r.upstreams, r.cache
    ensures r.Valid() && fresh(r.cache.repr - old(r.cache.repr))
    ensures var asked := old(m.Value()).(question := Asked(old(m.question)));
            var x := old(r.AnswerTo(Asked(m.question), m.id, now, network));
            && (written == null <==> x.reply.None?)
            && (written != null ==> written.Value() == Rewritten(x.reply.value))
            && r.histories == x.histories
            && r.cache.log == old(r.cache.log) + x.events + Failure(r, asked, x.reply, now)
  {
    UpperQuestion(r, m);
    written := Forward(r, m, now, network);
  }
}
