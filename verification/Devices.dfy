/** Device records and the cache that names them (internal/device/types.go, internal/device/devicecache.go). */
module Devices {
  import opened Text

  /** `mac` and `ip` are the texts of the addresses; "" and None stand for an absent one. */
  datatype DeviceRecord = DeviceRecord(mac: string, ip: Option<string>, name: string, hostname: string,
                                       vendor: string, source: string, lastSeen: nat)

  function NormalizeMAC(mac: string): (r: string)
    ensures |r| == |mac|
  {
    seq(|mac|, i requires 0 <= i < |mac| => LowerChar(if mac[i] == '-' then ':' else mac[i]))
  }

  /** The identity of a record: its MAC, or its IP when it has none. */
  function Identity(r: DeviceRecord): string {
    if NormalizeMAC(r.mac) != "" then NormalizeMAC(r.mac)
    else if r.ip.Some? then Lower(r.ip.value) else ""
  }

  datatype Tables = Tables(byMAC: map<string, DeviceRecord>, byIP: map<string, DeviceRecord>)

  /** The name a record gets: its own, else the one already known, else its hostname, else its identity. */
  function NameFor(t: Tables, r: DeviceRecord): string {
    var key := Identity(r);
    if r.name != "" then r.name
    else if key in t.byMAC && t.byMAC[key].name != "" then t.byMAC[key].name
    else if r.hostname != "" then r.hostname
    else key
  }

  function Upserted(t: Tables, r: DeviceRecord): Tables {
    var named := r.(name := NameFor(t, r));
    Tables(t.byMAC[Identity(r) := named], if r.ip.Some? then t.byIP[r.ip.value := named] else t.byIP)
  }

  function Replay(history: seq<DeviceRecord>): Tables {
    if history == [] then Tables(map[], map[])
    else Upserted(Replay(history[..|history| - 1]), history[|history| - 1])
  }

  function NameIn(t: Tables, ip: string): Option<string> {
    var key := Lower(ip);
    if key !in t.byIP then None
    else
      var d := t.byIP[key];
      Some(if d.name != "" then d.name else if d.hostname != "" then d.hostname else NormalizeMAC(d.mac))
  }

  class DeviceCache {
    var devFromMAC: map<string, DeviceRecord>
    var devFromIP: map<string, DeviceRecord>
    ghost var history: seq<DeviceRecord>

    /** The two tables are what the upserts so far make of them. */
    ghost predicate Valid()
      reads this
    {
      Tables(devFromMAC, devFromIP) == Replay(history)
    }

    constructor ()
      ensures Valid() && history == []
    {
      devFromMAC, devFromIP, history := map[], map[], [];
    }

    function NameOf(ip: string): Option<string>
      reads this
    {
      NameIn(Tables(devFromMAC, devFromIP), ip)
    }

    method Upsert(record: DeviceRecord)
      requires Valid()
      modifies this
      ensures Valid() && history == old(history) + [record]
    {
      var rec := record;
      var macKey := NormalizeMAC(rec.mac);
      if macKey == "" {
        macKey := if rec.ip.Some? then Lower(rec.ip.value) else "";
      }
      if macKey in devFromMAC && devFromMAC[macKey].name != "" && rec.name == "" {
        rec := rec.(name := devFromMAC[macKey].name);
      }
      if rec.name == "" {
        rec := rec.(name := if rec.hostname != "" then rec.hostname else macKey);
      }
      devFromMAC := devFromMAC[macKey := rec];
      if rec.ip.Some? {
        devFromIP := devFromIP[rec.ip.value := rec];
      }
      history := history + [record];
      assert history[..|history| - 1] == old(history);
    }

    method IPToName(ip: string) returns (name: Option<string>)
      ensures name == NameOf(ip)
    {
      var key := Lower(ip);
      if key !in devFromIP {
        return None;
      }
      var d := devFromIP[key];
      if d.name != "" {
        return Some(d.name);
      }
      if d.hostname != "" {
        return Some(d.hostname);
      }
      return Some(NormalizeMAC(d.mac));
    }
  }

  /** The name a record gets: the first of these that is not blank. */
  lemma NameForMeaning(t: Tables, r: DeviceRecord)
    ensures var key := if r.mac != "" then NormalizeMAC(r.mac) else if r.ip.Some? then Lower(r.ip.value) else "";
            var known := if key in t.byMAC then t.byMAC[key].name else "";
            && (r.name != "" ==> NameFor(t, r) == r.name)
            && (r.name == "" && known != "" ==> NameFor(t, r) == known)
            && (r.name == known == "" && r.hostname != "" ==> NameFor(t, r) == r.hostname)
            && (r.name == known == r.hostname == "" ==> NameFor(t, r) == key)
  {
    assert NormalizeMAC(r.mac) == "" <==> r.mac == "";
  }

  /** A MAC in the form in which it is compared: colons for dashes, lower case for upper. */
  lemma NormalizeMACMeaning(mac: string)
    ensures |NormalizeMAC(mac)| == |mac|
    ensures forall i | 0 <= i < |mac| :: NormalizeMAC(mac)[i] == if mac[i] == '-' then ':'
                                                                 else if 'A' <= mac[i] <= 'Z' then mac[i] - 'A' + 'a'
                                                                 else mac[i]
  {
  }

  /** Every record with an address under which it can be found is found under a name. */
  ghost predicate Addressable(history: seq<DeviceRecord>) {
    forall i | 0 <= i < |history| && history[i].ip.Some? :: history[i].ip.value != ""
  }

  /** The place of the last record that carries `ip`, if any. */
  function LastWith(history: seq<DeviceRecord>, ip: string): (i: Option<nat>)
    ensures i.Some? ==> i.value < |history| && history[i.value].ip == Some(ip)
    ensures i.Some? ==> forall j | i.value < j < |history| :: history[j].ip != Some(ip)
    ensures i.None? ==> forall j | 0 <= j < |history| :: history[j].ip != Some(ip)
  {
    if history == [] then None
    else if history[|history| - 1].ip == Some(ip) then Some(|history| - 1)
    else
      var init := history[..|history| - 1];
      assert forall j | 0 <= j < |init| :: history[j] == init[j];
      LastWith(init, ip)
  }

  /** An address resolves iff some upsert carried it, and then to the name the last of those got, never a blank. */
  lemma {:induction false} LastUpsertNamesTheAddress(history: seq<DeviceRecord>, ip: string)
    requires Addressable(history) && IsLower(ip)
    ensures NameIn(Replay(history), ip)
            == match LastWith(history, ip)
               case Some(i) => Some(NameFor(Replay(history[..i]), history[i]))
               case None => None
    ensures NameIn(Replay(history), ip) != Some("")
  {
    if history != [] {
      var n := |history| - 1;
      var init, r := history[..n], history[n];
      LastUpsertNamesTheAddress(init, ip);
      NameForIsNotBlank(Replay(init), r);
      if r.ip != Some(ip) {
        UpsertElsewhere(Replay(init), r, ip);
        var i := LastWith(init, ip);
        assert i.Some? ==> init[..i.value] == history[..i.value];
      } else {
        UpsertHere(Replay(init), r, ip);
      }
    }
  }

  lemma UpsertElsewhere(t: Tables, r: DeviceRecord, ip: string)
    requires IsLower(ip) && r.ip != Some(ip)
    ensures NameIn(Upserted(t, r), ip) == NameIn(t, ip)
  {
  }

  lemma UpsertHere(t: Tables, r: DeviceRecord, ip: string)
    requires IsLower(ip) && r.ip == Some(ip) && ip != ""
    ensures NameIn(Upserted(t, r), ip) == Some(NameFor(t, r)) && NameFor(t, r) != ""
  {
    NameForIsNotBlank(t, r);
  }

  lemma NameForIsNotBlank(t: Tables, r: DeviceRecord)
    requires r.ip.Some? ==> r.ip.value != ""
    ensures r.ip.Some? || r.mac != "" ==> NameFor(t, r) != ""
  {
  }

  /** A friendly name is never lost: only a record that brings a name of its own replaces it. */
  lemma {:induction false} FriendlyNamesStay(history: seq<DeviceRecord>, later: seq<DeviceRecord>, key: string)
    requires key in Replay(history).byMAC && Replay(history).byMAC[key].name != ""
    requires forall i | 0 <= i < |later| && Identity(later[i]) == key :: later[i].name == ""
    ensures key in Replay(history + later).byMAC
    ensures Replay(history + later).byMAC[key].name == Replay(history).byMAC[key].name
  {
    if later == [] {
      assert history + later == history;
    } else {
      var n := |later| - 1;
      FriendlyNamesStay(history, later[..n], key);
      assert (history + later)[..|history + later| - 1] == history + later[..n];
      assert (history + later)[|history + later| - 1] == later[n];
    }
  }
}
