/** Folding the records of all sources into one per device (internal/device/discovery/manager.go). */
module Collapse {
  import opened Devices
  import opened Text

  function SourcePriority(source: string): nat {
    if source == "router" then 3 else if source == "static" then 2 else if source == "arp" then 1 else 0
  }

  predicate Usable(r: DeviceRecord) {
    r.ip.Some? || r.mac != ""
  }

  function RecordKey(r: DeviceRecord): (key: string)
    ensures Usable(r) ==> key != ""
  {
    if r.mac != "" then NormalizeMAC(r.mac)
    else if r.ip.Some? then "ip:" + r.ip.value
    else ""
  }

  function BestName(r: DeviceRecord): string {
    if r.name != "" then r.name
    else if r.hostname != "" then r.hostname
    else if r.mac != "" then NormalizeMAC(r.mac)
    else if r.ip.Some? then r.ip.value
    else ""
  }

  /** A record without a time was seen now; the zero time is 0. */
  function Seen(r: DeviceRecord, now: nat): nat {
    if r.lastSeen == 0 then now else r.lastSeen
  }

  /** The record as the base of its device: seen, named and with a hostname. */
  function AsBase(r: DeviceRecord, now: nat): DeviceRecord {
    var name := if r.name == "" then BestName(r) else r.name;
    r.(lastSeen := Seen(r, now), name := name, hostname := if r.hostname == "" then name else r.hostname)
  }

  /** One more record about a device: it takes over with a higher priority, else fills in the IP and the time. */
  function Absorb(curr: Option<DeviceRecord>, r: DeviceRecord, now: nat): DeviceRecord {
    if curr.None? || SourcePriority(r.source) > SourcePriority(curr.value.source) then AsBase(r, now)
    else
      curr.value.(ip := if curr.value.ip.None? then r.ip else curr.value.ip,
                  lastSeen := if Seen(r, now) > curr.value.lastSeen then Seen(r, now) else curr.value.lastSeen)
  }

  predicate HasKey(records: seq<DeviceRecord>, i: nat, key: string) {
    i < |records| && Usable(records[i]) && RecordKey(records[i]) == key
  }

  /** What all records under `key` make of one device. */
  function CollapseKey(records: seq<DeviceRecord>, now: nat, key: string): Option<DeviceRecord> {
    if records == [] then None
    else
      var n := |records| - 1;
      var before := CollapseKey(records[..n], now, key);
      if HasKey(records, n, key) then Some(Absorb(before, records[n], now)) else before
  }

  /** Addresses have texts: an IP that is present is not blank. */
  predicate Addressed(records: seq<DeviceRecord>) {
    forall i | 0 <= i < |records| && records[i].ip.Some? :: records[i].ip.value != ""
  }

  ghost predicate IsCollapse(result: map<string, DeviceRecord>, records: seq<DeviceRecord>, now: nat) {
    forall key ::
      if CollapseKey(records, now, key).Some? then key in result && Some(result[key]) == CollapseKey(records, now, key)
                  else key !in result
  }

  /** A lower-priority record never overwrites good data. */
  method MergeSecondary(curr: DeviceRecord, r: DeviceRecord) returns (merged: DeviceRecord)
    requires curr.name != "" && curr.hostname != ""
    ensures merged == curr.(ip := if curr.ip.None? then r.ip else curr.ip,
                            lastSeen := if r.lastSeen > curr.lastSeen then r.lastSeen else curr.lastSeen)
  {
    merged := curr;
    if merged.ip.None? && r.ip.Some? {
      merged := merged.(ip := r.ip);
    }
    if merged.hostname == "" && r.hostname != "" {
      merged := merged.(hostname := r.hostname);
    }
    if merged.name == "" && r.name != "" {
      merged := merged.(name := r.name);
    }
    if r.lastSeen > merged.lastSeen {
      merged := merged.(lastSeen := r.lastSeen);
    }
  }

  /** A base record always ends up with a name and a hostname. */
  method NameBase(seen: DeviceRecord) returns (r: DeviceRecord)
    ensures r == AsBase(seen, seen.lastSeen)
  {
    r := seen;
    if r.name == "" {
      r := r.(name := BestName(r));
    }
    if r.hostname == "" {
      r := r.(hostname := r.name);
    }
  }

  function Lookup(result: map<string, DeviceRecord>, key: string): Option<DeviceRecord> {
    if key in result then Some(result[key]) else None
  }

  /** Folds the records of all providers, in order, into one per device key. */
  method Collapse(records: seq<DeviceRecord>, now: nat) returns (result: map<string, DeviceRecord>)
    requires Addressed(records)
    ensures IsCollapse(result, records, now)
  {
    result := map[];
    for i := 0 to |records|
      invariant IsCollapse(result, records[..i], now)
    {
      CollapseStep(result, records, now, i);
      var r := records[i];
      if r.ip.None? && |r.mac| == 0 {
        continue;
      }
      if r.lastSeen == 0 {
        r := r.(lastSeen := now);
      }
      var key := RecordKey(r);
      if key == "" {
        continue;
      }
      if key !in result || SourcePriority(r.source) > SourcePriority(result[key].source) {
        r := NameBase(r);
        result := result[key := r];
        continue;
      }
      CollapsedIsNamed(records[..i], now, key);
      var merged := MergeSecondary(result[key], r);
      result := result[key := merged];
    }
    assert records[..|records|] == records;
  }

  lemma CollapseStep(result: map<string, DeviceRecord>, records: seq<DeviceRecord>, now: nat, i: nat)
    requires i < |records| && IsCollapse(result, records[..i], now)
    ensures var r := records[i];
            if Usable(r) then
              IsCollapse(result[RecordKey(r) := Absorb(Lookup(result, RecordKey(r)), r, now)], records[..i + 1], now)
            else IsCollapse(result, records[..i + 1], now)
  {
    assert records[..i + 1][..i] == records[..i];
  }

  /** A collapsed device always has a name and a hostname. */
  lemma {:induction false} CollapsedIsNamed(records: seq<DeviceRecord>, now: nat, key: string)
    requires Addressed(records)
    ensures var c := CollapseKey(records, now, key);
            c.Some? ==> c.value.name != "" && c.value.hostname != ""
  {
    if records != [] {
      CollapsedIsNamed(records[..|records| - 1], now, key);
    }
  }

  /** The base of a device: the first record of the highest source priority under its key. */
  ghost predicate IsBase(records: seq<DeviceRecord>, key: string, b: nat) {
    && HasKey(records, b, key)
    && forall j: nat | HasKey(records, j, key) ::
         && SourcePriority(records[j].source) <= SourcePriority(records[b].source)
         && (j < b ==> SourcePriority(records[j].source) < SourcePriority(records[b].source))
  }

  /** Record `p` gives the IP: the first from the base on that has one, if any does. */
  ghost predicate GivesIP(records: seq<DeviceRecord>, key: string, b: nat, p: nat) {
    && b <= p && HasKey(records, p, key)
    && (forall j: nat | HasKey(records, j, key) && b <= j && (j < p || records[p].ip.None?) :: records[j].ip.None?)
  }

  /** Record `s` gives the time: no record from the base on was seen later. */
  ghost predicate GivesTime(records: seq<DeviceRecord>, key: string, now: nat, b: nat, s: nat) {
    && b <= s && HasKey(records, s, key)
    && forall j: nat | HasKey(records, j, key) && b <= j :: Seen(records[j], now) <= Seen(records[s], now)
  }

  /** The collapsed device is its base, with the first IP and the latest time from the base on. */
  ghost predicate IsMergeOf(c: DeviceRecord, records: seq<DeviceRecord>, now: nat, key: string, b: nat, p: nat,
                            s: nat) {
    && IsBase(records, key, b) && GivesIP(records, key, b, p) && GivesTime(records, key, now, b, s)
    && c == AsBase(records[b], now).(ip := records[p].ip, lastSeen := Seen(records[s], now))
  }

  lemma HasKeyOfPrefix(records: seq<DeviceRecord>, key: string)
    requires records != []
    ensures var n := |records| - 1;
            forall j: nat :: HasKey(records, j, key) <==>
                HasKey(records[..n], j, key) || (j == n && HasKey(records, n, key))
  {
  }

  lemma AbsorbedIntoMerge(c: DeviceRecord, records: seq<DeviceRecord>, now: nat, key: string, b: nat, p: nat, s: nat)
      returns (p': nat, s': nat)
    requires records != [] && IsMergeOf(c, records[..|records| - 1], now, key, b, p, s)
    requires HasKey(records, |records| - 1, key)
    requires SourcePriority(records[|records| - 1].source) <= SourcePriority(c.source)
    ensures IsMergeOf(Absorb(Some(c), records[|records| - 1], now), records, now, key, b, p', s')
  {
    var n := |records| - 1;
    HasKeyOfPrefix(records, key);
    p' := if records[p].ip.None? then n else p;
    s' := if Seen(records[n], now) > Seen(records[s], now) then n else s;
    assert GivesIP(records, key, b, p');
    assert GivesTime(records, key, now, b, s');
  }

  lemma NewBase(records: seq<DeviceRecord>, now: nat, key: string)
    requires records != [] && HasKey(records, |records| - 1, key)
    requires forall j: nat | j < |records| - 1 && HasKey(records, j, key) ::
               SourcePriority(records[j].source) < SourcePriority(records[|records| - 1].source)
    ensures var n := |records| - 1; IsMergeOf(AsBase(records[n], now), records, now, key, n, n, n)
  {
  }

  lemma SameMerge(c: DeviceRecord, records: seq<DeviceRecord>, now: nat, key: string, b: nat, p: nat, s: nat)
    requires records != [] && IsMergeOf(c, records[..|records| - 1], now, key, b, p, s)
    requires !HasKey(records, |records| - 1, key)
    ensures IsMergeOf(c, records, now, key, b, p, s)
  {
    HasKeyOfPrefix(records, key);
  }

  lemma {:induction false} CollapseMeaning(records: seq<DeviceRecord>, now: nat, key: string)
      returns (b: nat, p: nat, s: nat)
    ensures CollapseKey(records, now, key).None? <==> forall j: nat :: !HasKey(records, j, key)
    ensures CollapseKey(records, now, key).Some? ==>
              IsMergeOf(CollapseKey(records, now, key).value, records, now, key, b, p, s)
  {
    b, p, s := 0, 0, 0;
    if records != [] {
      var n := |records| - 1;
      HasKeyOfPrefix(records, key);
      b, p, s := CollapseMeaning(records[..n], now, key);
      var before := CollapseKey(records[..n], now, key);
      if HasKey(records, n, key) {
        if before.None? || SourcePriority(records[n].source) > SourcePriority(before.value.source) {
          NewBase(records, now, key);
          b, p, s := n, n, n;
        } else {
          p, s := AbsorbedIntoMerge(before.value, records, now, key, b, p, s);
        }
      } else if before.Some? {
        SameMerge(before.value, records, now, key, b, p, s);
      }
    }
  }

  /** A record of the collapsed map stays under its own key. */
  lemma CollapsedKeepsItsKey(records: seq<DeviceRecord>, now: nat, key: string)
    requires CollapseKey(records, now, key).Some?
    ensures key != "" && (CollapseKey(records, now, key).value.mac != "" ==>
                            NormalizeMAC(CollapseKey(records, now, key).value.mac) == key)
  {
    var b, p, s := CollapseMeaning(records, now, key);
  }

  /** The names of a collapsed device: those of its base; a missing hostname or name is made up from what there is. */
  lemma CollapsedNames(records: seq<DeviceRecord>, now: nat, key: string) returns (b: nat)
    requires CollapseKey(records, now, key).Some?
    ensures IsBase(records, key, b)
    ensures var c, r := CollapseKey(records, now, key).value, records[b];
            && c.mac == r.mac && c.vendor == r.vendor && c.source == r.source
            && (r.name != "" ==> c.name == r.name)
            && (r.name == "" && r.hostname != "" ==> c.name == r.hostname)
            && (r.name == r.hostname == "" && r.mac != "" ==> c.name == NormalizeMAC(r.mac))
            && (r.name == r.hostname == r.mac == "" && r.ip.Some? ==> c.name == r.ip.value)
            && (r.hostname != "" ==> c.hostname == r.hostname)
            && (r.hostname == "" ==> c.hostname == c.name)
  {
    var p, s;
    b, p, s := CollapseMeaning(records, now, key);
  }

  /** Its time: that of a record from the base on, and none of those was seen later; an undated one was seen now. */
  lemma CollapsedTime(records: seq<DeviceRecord>, now: nat, key: string) returns (b: nat, s: nat)
    requires CollapseKey(records, now, key).Some?
    ensures IsBase(records, key, b) && b <= s && HasKey(records, s, key)
    ensures var c := CollapseKey(records, now, key).value;
            && c.lastSeen == (if records[s].lastSeen == 0 then now else records[s].lastSeen)
            && forall j: nat | HasKey(records, j, key) && b <= j ::
                 records[j].lastSeen <= c.lastSeen && (records[j].lastSeen == 0 ==> now <= c.lastSeen)
  {
    var p;
    b, p, s := CollapseMeaning(records, now, key);
    forall j: nat | HasKey(records, j, key) && b <= j ensures Seen(records[j], now) <= Seen(records[s], now) {
    }
  }

  ghost predicate HasSource(records: seq<DeviceRecord>, key: string, source: string) {
    exists j: nat :: HasKey(records, j, key) && records[j].source == source
  }

  /** The router is believed first, then the static configuration, then ARP. */
  lemma CollapsedSource(records: seq<DeviceRecord>, now: nat, key: string)
    requires CollapseKey(records, now, key).Some?
    ensures var source := CollapseKey(records, now, key).value.source;
            && (source == "router" <==> HasSource(records, key, "router"))
            && (source == "static" <==> HasSource(records, key, "static") && !HasSource(records, key, "router"))
            && (source == "arp" <==> HasSource(records, key, "arp") && !HasSource(records, key, "static")
                                     && !HasSource(records, key, "router"))
  {
    var b, p, s := CollapseMeaning(records, now, key);
    assert HasKey(records, b, key);
    forall j: nat | HasKey(records, j, key)
      ensures SourcePriority(records[j].source) <= SourcePriority(records[b].source)
    {
    }
  }

  /** Hexadecimal, as far as it matters here: not to be mistaken for "ip:". */
  predicate IsMACText(mac: string) {
    !Contains(NormalizeMAC(mac), 'p')
  }

  /** Usable records are folded together iff they have the same MAC, or have none and the same address. */
  lemma KeysIdentify(r: DeviceRecord, s: DeviceRecord)
    requires Usable(r) && Usable(s) && IsMACText(r.mac) && IsMACText(s.mac)
    ensures RecordKey(r) == RecordKey(s) <==>
            if r.mac == "" && s.mac == "" then r.ip == s.ip
            else r.mac != "" && s.mac != "" && NormalizeMAC(r.mac) == NormalizeMAC(s.mac)
  {
    KeyOfAddress(r);
    KeyOfAddress(s);
    if r.mac == "" && s.mac == "" && RecordKey(r) == RecordKey(s) {
      assert RecordKey(r)[3..] == r.ip.value && RecordKey(s)[3..] == s.ip.value;
    }
  }

  lemma KeyOfAddress(r: DeviceRecord)
    requires Usable(r) && IsMACText(r.mac)
    ensures r.mac == "" <==> Contains(RecordKey(r)[..if |RecordKey(r)| < 3 then |RecordKey(r)| else 3], 'p')
  {
    var key := RecordKey(r);
    var n := if |key| < 3 then |key| else 3;
    if r.mac == "" {
      assert key[..n][1] == 'p';
    } else {
      assert forall i | 0 <= i < n :: key[..n][i] == key[i];
    }
  }

  /** Without undated records the clock does not matter. */
  lemma {:induction false} CollapseIgnoresClock(records: seq<DeviceRecord>, now: nat, later: nat, key: string)
    requires forall i | 0 <= i < |records| && Usable(records[i]) :: records[i].lastSeen != 0
    ensures CollapseKey(records, now, key) == CollapseKey(records, later, key)
  {
    if records != [] {
      CollapseIgnoresClock(records[..|records| - 1], now, later, key);
    }
  }
}
