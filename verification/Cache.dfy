/** DNS messages as shared objects, and the TTL cache that must not share them (internal/proxy/upstream.go). */
module Cache {
  import opened Durations
  import opened Text

  newtype uint16 = x: int | 0 <= x < 0x1_0000
  newtype uint32 = x: int | 0 <= x < 0x1_0000_0000

  const MAX_INT64: int := 0x7FFF_FFFF_FFFF_FFFF

  datatype Question = Question(name: string, qtype: uint16)
  datatype RRValue = RRValue(name: string, ttl: uint32)
  datatype MsgValue = MsgValue(id: uint16, question: Question, rcode: nat, answers: seq<RRValue>)

  /** A resource record; callers rewrite its header name in place. */
  class RR {
    var name: string
    var ttl: uint32

    constructor (name: string, ttl: uint32)
      ensures this.name == name && this.ttl == ttl
    {
      this.name, this.ttl := name, ttl;
    }
  }

  ghost function RRValues(rrs: seq<RR>): (values: seq<RRValue>)
    reads rrs
  {
    if rrs == [] then []
    else
      var last := rrs[|rrs| - 1];
      RRValues(rrs[..|rrs| - 1]) + [RRValue(last.name, last.ttl)]
  }

  lemma {:induction false} SameRecords(rrs: seq<RR>, others: seq<RR>)
    requires |rrs| == |others|
    requires forall k | 0 <= k < |rrs| :: rrs[k].name == others[k].name && rrs[k].ttl == others[k].ttl
    ensures RRValues(rrs) == RRValues(others)
  {
    if rrs != [] {
      SameRecords(rrs[..|rrs| - 1], others[..|others| - 1]);
    }
  }

  class Msg {
    var id: uint16
    var question: Question
    var rcode: nat
    var answers: seq<RR>

    constructor (id: uint16, question: Question, rcode: nat, answers: seq<RR>)
      ensures this.id == id && this.question == question && this.rcode == rcode && this.answers == answers
    {
      this.id, this.question, this.rcode, this.answers := id, question, rcode, answers;
    }

    ghost function Value(): MsgValue
      reads this, answers
    {
      MsgValue(id, question, rcode, RRValues(answers))
    }

    /** The message and its records. */
    ghost function Objects(): (s: set<object>)
      reads this
      ensures this in s && forall r | r in answers :: r in s
    {
      {this as object} + set r: RR | r in answers :: r as object
    }

    method SetId(id: uint16)
      modifies this`id
      ensures Value() == old(Value()).(id := id) && Objects() == old(Objects())
    {
      this.id := id;
    }

    /** The smallest TTL of the answers as a duration, found by one pass over the records. */
    method MinTTL() returns (ttl: int)
      ensures ttl == SmallestTTL(Value().answers)
    {
      if |answers| == 0 {
        return 0;
      }
      var min := answers[0].ttl;
      for i := 1 to |answers|
        invariant min as int * SECOND == SmallestTTL(RRValues(answers[..i]))
      {
        assert answers[..i + 1][..i] == answers[..i];
        if answers[i].ttl < min {
          min := answers[i].ttl;
        }
      }
      assert answers[..|answers|] == answers;
      ttl := min as int * SECOND;
    }

    /** A deep copy: same value, no shared object. */
    method Copy() returns (m: Msg)
      ensures fresh(m.Objects())
      ensures m.Value() == Value() == old(Value())
    {
      var copies: seq<RR> := [];
      for i := 0 to |answers|
        invariant |copies| == i
        invariant forall r | r in copies :: fresh(r)
        invariant forall k | 0 <= k < i :: copies[k].name == answers[k].name && copies[k].ttl == answers[k].ttl
      {
        var r := new RR(answers[i].name, answers[i].ttl);
        copies := copies + [r];
      }
      SameRecords(copies, answers);
      m := new Msg(id, question, rcode, copies);
    }
  }

  /** The smallest TTL of an answer, in nanoseconds; 0 without answers. */
  function SmallestTTL(answers: seq<RRValue>): int {
    if answers == [] then 0
    else if |answers| == 1 then answers[0].ttl as int * SECOND
    else
      var rest, last := SmallestTTL(answers[..|answers| - 1]), answers[|answers| - 1].ttl as int * SECOND;
      if last < rest then last else rest
  }

  /** It is a lower bound that some record attains, and it fits Go's int64 duration for every uint32 TTL. */
  lemma {:induction false} SmallestTTLIsLeast(answers: seq<RRValue>)
    ensures forall i | 0 <= i < |answers| :: SmallestTTL(answers) <= answers[i].ttl as int * SECOND
    ensures answers != [] ==> exists i :: 0 <= i < |answers| && SmallestTTL(answers) == answers[i].ttl as int * SECOND
    ensures 0 <= SmallestTTL(answers) <= MAX_INT64
  {
    if |answers| > 1 {
      var n := |answers| - 1;
      var init := answers[..n];
      SmallestTTLIsLeast(init);
      var i :| 0 <= i < n && SmallestTTL(init) == init[i].ttl as int * SECOND;
      assert answers[i] == init[i];
      assert forall k | 0 <= k < n :: init[k] == answers[k];
    } else if |answers| == 1 {
      assert SmallestTTL(answers) == answers[0].ttl as int * SECOND;
    }
  }

  /** A message as it comes off the wire: every object is new. */
  method Receive(v: MsgValue) returns (m: Msg)
    ensures fresh(m.Objects())
    ensures m.Value() == v
  {
    var rrs: seq<RR> := [];
    for i := 0 to |v.answers|
      invariant |rrs| == i
      invariant forall r | r in rrs :: fresh(r)
      invariant RRValues(rrs) == v.answers[..i]
    {
      var r := new RR(v.answers[i].name, v.answers[i].ttl);
      rrs := rrs + [r];
      assert rrs[..i] + [r] == rrs && v.answers[..i + 1] == v.answers[..i] + [v.answers[i]];
    }
    assert v.answers[..|v.answers|] == v.answers;
    m := new Msg(v.id, v.question, v.rcode, rrs);
  }

  // --- The history of the cache ----------------------------------------------------------------

  datatype Event =
    | Put(asked: Question, key: string, value: MsgValue, ttl: int, negative: bool, at: int)
    | Clear

  /** The last message put under `key` since the last clear. */
  function LastPut(log: seq<Event>, key: string): Option<Event> {
    if log == [] || log[|log| - 1].Clear? then None
    else if log[|log| - 1].key == key then Some(log[|log| - 1])
    else LastPut(log[..|log| - 1], key)
  }

  /** Entry `i` of the log is the last put under `key`, and no clear came after it. */
  ghost predicate IsLastPut(log: seq<Event>, key: string, i: nat) {
    && i < |log| && log[i].Put? && log[i].key == key
    && forall j | i < j < |log| :: log[j].Put? && log[j].key != key
  }

  lemma {:induction false} LastPutIsThere(log: seq<Event>, key: string) returns (i: nat)
    requires LastPut(log, key).Some?
    ensures IsLastPut(log, key, i) && log[i] == LastPut(log, key).value
  {
    var n := |log| - 1;
    i := n;
    if log[n].key != key {
      i := LastPutIsThere(log[..n], key);
      assert forall j | i <= j < n :: log[..n][j] == log[j];
    }
  }

  lemma {:induction false} ClearedSince(log: seq<Event>, key: string, i: nat)
    requires LastPut(log, key).None? && i < |log| && log[i].Put? && log[i].key == key
    ensures Clear in log[i..]
  {
    var n := |log| - 1;
    if log[n].Clear? {
      assert log[i..][n - i] == Clear;
    } else {
      ClearedSince(log[..n], key, i);
      assert log[i..] == log[..n][i..] + [log[n]];
    }
  }

  lemma LastPutMeaning(log: seq<Event>, key: string)
    ensures LastPut(log, key).Some? ==> exists i: nat :: IsLastPut(log, key, i) && log[i] == LastPut(log, key).value
    ensures LastPut(log, key).None? ==>
              forall i | 0 <= i < |log| && log[i].Put? && log[i].key == key :: Clear in log[i..]
  {
    if LastPut(log, key).Some? {
      var i := LastPutIsThere(log, key);
    } else {
      forall i | 0 <= i < |log| && log[i].Put? && log[i].key == key ensures Clear in log[i..] {
        ClearedSince(log, key, i);
      }
    }
  }

  lemma {:induction false} LatestIsLastPut(log: seq<Event>, key: string, i: nat)
    requires IsLastPut(log, key, i)
    ensures LastPut(log, key) == Some(log[i])
  {
    if i < |log| - 1 {
      LatestIsLastPut(log[..|log| - 1], key, i);
    }
  }

  lemma LastPutAfter(log: seq<Event>, e: Event, key: string)
    ensures LastPut(log + [e], key)
            == if e.Clear? then None else if e.key == key then Some(e) else LastPut(log, key)
  {
    assert (log + [e])[..|log|] == log;
  }

  /** What the cache answers at `now`. */
  function Hit(log: seq<Event>, key: string, now: int): Option<MsgValue> {
    match LastPut(log, key)
    case Some(Put(_, _, value, ttl, _, at)) => if now <= at + ttl then Some(value) else None
    case _ => None
  }

  datatype Entry = Entry(msg: Msg, expiresAt: int, negative: bool)

  /** `latest` lists, per key, the last put since the last clear. */
  ghost predicate Indexes(latest: map<string, Event>, log: seq<Event>) {
    forall key :: LastPut(log, key) == if key in latest then Some(latest[key]) else None
  }

  lemma IndexesAfterPut(latest: map<string, Event>, log: seq<Event>, e: Event)
    requires Indexes(latest, log) && e.Put?
    ensures Indexes(latest[e.key := e], log + [e])
  {
    forall key
      ensures LastPut(log + [e], key) == if key in latest[e.key := e] then Some(latest[e.key := e][key]) else None
    {
      LastPutAfter(log, e, key);
    }
  }

  /** The entry is what that put stored. */
  ghost predicate Shows(entry: Entry, put: Event)
    reads entry.msg, entry.msg.answers
  {
    && put.Put?
    && entry.msg.Value() == put.value
    && entry.expiresAt == put.at + put.ttl
    && entry.negative == put.negative
  }

  class ResponseCache {
    var items: map<string, Entry>
    ghost var log: seq<Event>
    ghost var latest: map<string, Event>
    ghost var repr: set<object>

    /** One private message per key, and it is what the latest put stored. */
    ghost predicate Stored()
      reads this, repr
    {
      && latest.Keys == items.Keys
      && (forall key | key in items :: items[key].msg in repr)
      && (forall key | key in items :: items[key].msg.Objects() <= repr)
      && forall key | key in items :: Shows(items[key], latest[key])
    }

    /** The map is its history. */
    ghost predicate Valid()
      reads this, repr
    {
      Stored() && Indexes(latest, log)
    }

    constructor ()
      ensures Valid() && log == [] && repr == {}
    {
      items, log, latest, repr := map[], [], map[], {};
    }

    method Get(key: string, now: int) returns (m: Msg?)
      requires Valid()
      ensures m == null <==> Hit(log, key, now).None?
      ensures m != null ==> fresh(m.Objects()) && Some(m.Value()) == Hit(log, key, now)
      ensures Valid()
    {
      if key !in items {
        return null;
      }
      var entry := items[key];
      assert Shows(entry, latest[key]);
      if now > entry.expiresAt {
        return null;
      }
      m := entry.msg.Copy();
    }

    method Put(ghost asked: Question, key: string, msg: Msg, ttl: int, negative: bool, now: int)
      requires Valid()
      modifies this
      ensures Valid()
      ensures log == old(log) + [Event.Put(asked, key, old(msg.Value()), ttl, negative, now)]
      ensures fresh(repr - old(repr))
      ensures msg.Value() == old(msg.Value()) && msg.Objects() == old(msg.Objects())
    {
      var copy := msg.Copy();
      ghost var e := Event.Put(asked, key, copy.Value(), ttl, negative, now);
      IndexesAfterPut(latest, log, e);
      log := log + [e];
      Store(key, Entry(copy, now + ttl, negative), e);
    }

    /** Adds one private entry; no message changes. */
    method Store(key: string, entry: Entry, ghost put: Event)
      requires Stored() && Shows(entry, put)
      modifies this`items, this`latest, this`repr
      ensures Stored()
      ensures latest == old(latest)[key := put]
      ensures repr == old(repr) + entry.msg.Objects()
    {
      label before:
      items := items[key := entry];
      latest := latest[key := put];
      repr := repr + entry.msg.Objects();
      forall k | k in items ensures items[k].msg.Objects() <= repr && Shows(items[k], latest[k]) {
        if k != key {
          assert items[k] == old@before(items[k]) && old@before(Shows(items[k], latest[k]));
        }
      }
    }

    method Clear()
      modifies this
      ensures Valid() && log == old(log) + [Event.Clear]
      ensures repr == old(repr)
    {
      items, latest := map[], map[];
      log := log + [Event.Clear];
    }
  }
}
