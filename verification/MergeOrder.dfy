/**
 * When a merge is determined by the store and the batch, and when by the order of map iteration
 * (internal/device/discovery/manager.go).
 */
module MergeOrder {
  import opened Collapse
  import opened Devices
  import opened Discovery
  import opened Text

  // --- Two records for one device -----------------------------------------------------------------

  predicate Agree(a: string, b: string) {
    a == "" || b == "" || a == b
  }

  predicate ManagedSource(source: string) {
    source == "manual" || source == "static"
  }

  /**
   * The second of two records finds the same source as the first: it is the user's, or exactly one record makes it
   * so.
   */
  predicate SourcesAgree(d: Device, r: DeviceRecord, s: DeviceRecord) {
    UserManaged(d) || Agree(r.source, s.source) || ManagedSource(r.source) != ManagedSource(s.source)
  }

  /** Two records say nothing different about device `d`. */
  predicate Compatible(d: Device, r: DeviceRecord, s: DeviceRecord) {
    && (d.name != "" || Agree(r.name, s.name))
    && (r.ip.None? || s.ip.None? || r.ip == s.ip)
    && Agree(NormalizeMAC(r.mac), NormalizeMAC(s.mac))
    && Agree(r.hostname, s.hostname) && Agree(r.vendor, s.vendor)
    && SourcesAgree(d, r, s)
  }

  /** Two records may be applied in either order exactly when they are compatible. */
  lemma CompatibleIffCommute(d: Device, id: string, r: DeviceRecord, s: DeviceRecord, now: nat)
    ensures Compatible(d, r, s) <==>
            Updated(Updated(d, id, r, now), id, s, now) == Updated(Updated(d, id, s, now), id, r, now)
  {
  }

  /** The record says nothing about the device that is not on record already, the update time included. */
  predicate BringsNothing(d: Device, id: string, r: DeviceRecord, now: nat) {
    && d.updatedAt == now && (d.id == "" ==> id == "" && d.createdAt == now)
    && (d.name == "" ==> r.name == "") && (r.ip.Some? ==> d.ip == r.ip.value)
    && (NormalizeMAC(r.mac) != "" ==> d.mac == NormalizeMAC(r.mac))
    && (r.hostname != "" ==> d.hostname == r.hostname) && (r.vendor != "" ==> d.vendor == r.vendor)
    && (r.source != "" && !UserManaged(d) ==> d.source == r.source)
    && r.lastSeen <= d.lastSeen
  }

  lemma BringsNothingMeaning(d: Device, id: string, r: DeviceRecord, now: nat)
    ensures BringsNothing(d, id, r, now) <==> Updated(d, id, r, now) == d
  {
  }

  // --- One device in a merge ----------------------------------------------------------------------

  /** The keys of `order` that reach device `id`, in order. */
  function Reachers(index: map<string, string>, order: seq<string>, id: string): seq<string> {
    if order == [] then []
    else
      var before, key := Reachers(index, order[..|order| - 1], id), order[|order| - 1];
      if IdOf(index, key) == id then before + [key] else before
  }

  /** The device after the records under `keys`. */
  function UpdatedBy(d: Device, id: string, batch: Batch, keys: seq<string>, now: nat): Device
    requires forall k | k in keys :: k in batch
  {
    if keys == [] then d
    else Updated(UpdatedBy(d, id, batch, keys[..|keys| - 1], now), id, batch[keys[|keys| - 1]], now)
  }

  lemma {:induction false} ReachersMeaning(index: map<string, string>, order: seq<string>, id: string)
    ensures forall k :: k in Reachers(index, order, id) <==> k in order && IdOf(index, k) == id
  {
    if order != [] {
      ReachersMeaning(index, order[..|order| - 1], id);
      assert order == order[..|order| - 1] + [order[|order| - 1]];
    }
  }

  /** What a merge makes of one device depends only on the keys that reach it. */
  lemma {:induction false} DeviceOfMerge(devices: Store, index: map<string, string>, batch: Batch, order: seq<string>,
                                         now: nat, id: string)
    requires forall k | k in order :: k in batch
    ensures var merged, keys := MergeAll(devices, index, batch, order, now), Reachers(index, order, id);
            && (forall k | k in keys :: k in batch)
            && (id in merged <==> id in devices || keys != [])
            && Stored(merged, id) == UpdatedBy(Stored(devices, id), id, batch, keys, now)
  {
    ReachersMeaning(index, order, id);
    if order != [] {
      var init, key := order[..|order| - 1], order[|order| - 1];
      DeviceOfMerge(devices, index, batch, init, now, id);
      if IdOf(index, key) == id {
        var keys := Reachers(index, init, id);
        assert (keys + [key])[..|keys|] == keys;
      }
    }
  }

  lemma {:induction false} ReachersDoNotRepeat(index: map<string, string>, order: seq<string>, id: string)
    requires NoRepeats(order)
    ensures NoRepeats(Reachers(index, order, id))
  {
    if order != [] {
      var init := order[..|order| - 1];
      ReachersDoNotRepeat(index, init, id);
      ReachersMeaning(index, init, id);
      assert order[|order| - 1] !in init;
    }
  }

  function MacOf(devices: Store, id: string): string {
    NormalizeMAC(Stored(devices, id).mac)
  }

  ghost predicate HasMAC(devices: Store, id: string, mac: string) {
    id in devices && mac != "" && MacOf(devices, id) == mac
  }

  /** Some stored device has this MAC. */
  ghost predicate IsMAC(devices: Store, mac: string) {
    exists id :: HasMAC(devices, id, mac)
  }

  lemma IndexedAreMACs(devices: Store, index: map<string, string>, mac: string)
    requires IsIndex(index, devices)
    ensures mac in index <==> IsMAC(devices, mac)
    ensures mac in index ==> HasMAC(devices, index[mac], mac)
  {
    if mac in index {
      assert HasMAC(devices, index[mac], mac);
    }
  }

  /** A record is filed under the device's own id, which is no MAC. */
  ghost predicate ByOwnKey(devices: Store, batch: Batch, id: string) {
    id in batch && !IsMAC(devices, id)
  }

  /** The record with the device's MAC is taken for it. */
  predicate ByMAC(devices: Store, index: map<string, string>, batch: Batch, id: string) {
    var mac := MacOf(devices, id);
    mac in batch && mac in index && index[mac] == id
  }

  /** So at most two records reach a device: the one under its own id, and the one with its MAC. */
  lemma AtMostTwo(devices: Store, index: map<string, string>, batch: Batch, id: string, k: string)
    requires IsIndex(index, devices) && k in batch
    ensures IdOf(index, k) == id <==>
            (k == id && ByOwnKey(devices, batch, id)) || (k == MacOf(devices, id) && ByMAC(devices, index, batch, id))
  {
    IndexedAreMACs(devices, index, k);
    IndexedAreMACs(devices, index, id);
  }

  lemma TwoOfThree(x: string, y: string, z: string, a: string, b: string)
    requires (x == a || x == b) && (y == a || y == b) && (z == a || z == b)
    ensures x == y || y == z || x == z
  {
  }

  lemma PairOrLess(keys: seq<string>, a: string, b: string)
    requires NoRepeats(keys) && forall k | k in keys :: k == a || k == b
    ensures |keys| <= 2
    ensures |keys| == 2 ==> a != b && (keys == [a, b] || keys == [b, a])
    ensures |keys| == 1 ==> keys == [a] || keys == [b]
  {
    assert forall i | 0 <= i < |keys| :: keys[i] in keys;
    assert |keys| >= 2 ==> keys[0] != keys[1];
    if |keys| > 2 {
      TwoOfThree(keys[0], keys[1], keys[2], a, b);
    }
  }

  lemma KeysAre(keys: seq<string>, a: string, b: string)
    requires NoRepeats(keys) && forall k | k in keys :: k == a || k == b
    ensures a in keys && b in keys && a != b ==> keys == [a, b] || keys == [b, a]
    ensures a in keys && (b !in keys || a == b) ==> keys == [a]
    ensures a !in keys && b in keys ==> keys == [b]
    ensures a !in keys && b !in keys ==> keys == []
  {
    PairOrLess(keys, a, b);
    assert forall i | 0 <= i < |keys| :: keys[i] in keys;
  }

  /** Which keys reach a device in any enumeration of the batch, and in which orders. */
  lemma ReachersCases(devices: Store, index: map<string, string>, batch: Batch, order: seq<string>, id: string)
    requires IsIndex(index, devices) && Enumerates(order, batch.Keys)
    ensures var keys, mac := Reachers(index, order, id), MacOf(devices, id);
            var own, byMAC := ByOwnKey(devices, batch, id), ByMAC(devices, index, batch, id);
            && (own && byMAC ==> mac != id && (keys == [id, mac] || keys == [mac, id]))
            && (own && !byMAC ==> keys == [id])
            && (!own && byMAC ==> keys == [mac])
            && (!own && !byMAC ==> keys == [])
  {
    var keys, mac := Reachers(index, order, id), MacOf(devices, id);
    ReachersMeaning(index, order, id);
    ReachersDoNotRepeat(index, order, id);
    forall k ensures k in keys <==> k in batch && ((k == id && ByOwnKey(devices, batch, id))
                                                   || (k == mac && ByMAC(devices, index, batch, id)))
    {
      if k in batch {
        AtMostTwo(devices, index, batch, id, k);
      }
    }
    IndexedAreMACs(devices, index, mac);
    IndexedAreMACs(devices, index, id);
    KeysAre(keys, id, mac);
  }

  // --- Enumerations -------------------------------------------------------------------------------

  lemma {:induction false} SomeEnumeration(keys: set<string>) returns (order: seq<string>)
    ensures Enumerates(order, keys)
    decreases keys
  {
    if keys == {} {
      order := [];
    } else {
      var k :| k in keys;
      var rest := SomeEnumeration(keys - {k});
      order := rest + [k];
    }
  }

  lemma StartWith(front: seq<string>, keys: set<string>) returns (rest: seq<string>)
    requires NoRepeats(front) && forall k | k in front :: k in keys
    ensures Enumerates(front + rest, keys) && forall k | k in rest :: k !in front
  {
    rest := SomeEnumeration(keys - set k | k in front);
    assert forall i | 0 <= i < |rest| :: rest[i] in rest;
    assert forall i | 0 <= i < |front| :: front[i] in front;
  }

  lemma {:induction false} ReachersOfFront(index: map<string, string>, front: seq<string>, rest: seq<string>,
                                           id: string)
    requires forall k | k in rest :: IdOf(index, k) != id
    ensures Reachers(index, front + rest, id) == Reachers(index, front, id)
  {
    if rest == [] {
      assert front + rest == front;
    } else {
      var n := |rest| - 1;
      ReachersOfFront(index, front, rest[..n], id);
      assert (front + rest)[..|front + rest| - 1] == front + rest[..n];
      assert (front + rest)[|front + rest| - 1] == rest[n] && rest[n] in rest;
    }
  }

  lemma ReachersOfPair(index: map<string, string>, a: string, b: string, id: string)
    requires IdOf(index, a) == id && IdOf(index, b) == id
    ensures Reachers(index, [a, b], id) == [a, b]
  {
    var one, two := [a], [a, b];
    assert one[..|one| - 1] == [] && Reachers(index, [], id) == [];
    assert two[..|two| - 1] == one && Reachers(index, one, id) == [a];
  }

  /** Two records of one device can come in either order. */
  lemma EitherOrder(index: map<string, string>, batch: Batch, k: string, l: string)
      returns (one: seq<string>, other: seq<string>)
    requires k in batch && l in batch && k != l && IdOf(index, k) == IdOf(index, l)
    requires forall h | h in batch && IdOf(index, h) == IdOf(index, k) :: h == k || h == l
    ensures Enumerates(one, batch.Keys) && Enumerates(other, batch.Keys)
    ensures Reachers(index, one, IdOf(index, k)) == [k, l] && Reachers(index, other, IdOf(index, k)) == [l, k]
  {
    var id := IdOf(index, k);
    var rest := StartWith([k, l], batch.Keys);
    one, other := [k, l] + rest, [l, k] + rest;
    FlipFront(k, l, rest, batch.Keys);
    assert forall h | h in rest :: h in one;
    ReachersOfFront(index, [k, l], rest, id);
    ReachersOfFront(index, [l, k], rest, id);
    ReachersOfPair(index, k, l, id);
    ReachersOfPair(index, l, k, id);
  }

  lemma FlipFront(k: string, l: string, rest: seq<string>, keys: set<string>)
    requires Enumerates([k, l] + rest, keys)
    ensures Enumerates([l, k] + rest, keys)
  {
    var one, other := [k, l] + rest, [l, k] + rest;
    forall h ensures h in other <==> h in keys {
      assert h in one <==> h == k || h == l || h in rest;
      assert h in other <==> h == k || h == l || h in rest;
    }
    forall i, j | 0 <= i < j < |other| ensures other[i] != other[j] {
      var i', j' := if i < 2 then 1 - i else i, if j < 2 then 1 - j else j;
      assert other[i] == one[i'] && other[j] == one[j'];
    }
  }

  // --- One index, any order -----------------------------------------------------------------------

  /** All walks of the batch give the same store. */
  ghost predicate OrdersAgree(devices: Store, index: map<string, string>, batch: Batch, now: nat) {
    forall one, other | Enumerates(one, batch.Keys) && Enumerates(other, batch.Keys) ::
      MergeAll(devices, index, batch, one, now) == MergeAll(devices, index, batch, other, now)
  }

  lemma UpdatedByPair(d: Device, id: string, batch: Batch, k: string, l: string, now: nat)
    requires k in batch && l in batch
    ensures UpdatedBy(d, id, batch, [k, l], now) == Updated(Updated(d, id, batch[k], now), id, batch[l], now)
  {
    var one, two := [k], [k, l];
    assert one[..|one| - 1] == [] && UpdatedBy(d, id, batch, one, now) == Updated(d, id, batch[k], now);
    assert two[..|two| - 1] == one;
  }

  lemma OrdersDiffer(devices: Store, index: map<string, string>, batch: Batch, now: nat, k: string, l: string)
    requires IsIndex(index, devices) && k in batch && l in batch && k != l && IdOf(index, k) == IdOf(index, l)
    requires OrdersAgree(devices, index, batch, now)
    ensures Compatible(Stored(devices, IdOf(index, k)), batch[k], batch[l])
  {
    var id := IdOf(index, k);
    forall h | h in batch && IdOf(index, h) == id ensures h == k || h == l {
      AtMostTwo(devices, index, batch, id, h);
      AtMostTwo(devices, index, batch, id, k);
      AtMostTwo(devices, index, batch, id, l);
    }
    var one, other := EitherOrder(index, batch, k, l);
    DeviceOfMerge(devices, index, batch, one, now, id);
    DeviceOfMerge(devices, index, batch, other, now, id);
    assert MergeAll(devices, index, batch, one, now) == MergeAll(devices, index, batch, other, now);
    UpdatedByPair(Stored(devices, id), id, batch, k, l, now);
    UpdatedByPair(Stored(devices, id), id, batch, l, k, now);
    CompatibleIffCommute(Stored(devices, id), id, batch[k], batch[l], now);
  }

  /** Every two records of the batch that belong to one device are compatible there. */
  ghost predicate PairsAreCompatible(devices: Store, index: map<string, string>, batch: Batch) {
    forall k, l | k in batch && l in batch && k != l && IdOf(index, k) == IdOf(index, l) ::
      Compatible(Stored(devices, IdOf(index, k)), batch[k], batch[l])
  }

  lemma SameDeviceInAnyOrder(devices: Store, index: map<string, string>, batch: Batch, now: nat,
                             one: seq<string>, other: seq<string>, id: string)
    requires IsIndex(index, devices) && PairsAreCompatible(devices, index, batch)
    requires Enumerates(one, batch.Keys) && Enumerates(other, batch.Keys)
    ensures var a, b := MergeAll(devices, index, batch, one, now), MergeAll(devices, index, batch, other, now);
            (id in a <==> id in b) && Stored(a, id) == Stored(b, id)
  {
    DeviceOfMerge(devices, index, batch, one, now, id);
    DeviceOfMerge(devices, index, batch, other, now, id);
    ReachersCases(devices, index, batch, one, id);
    ReachersCases(devices, index, batch, other, id);
    if ByOwnKey(devices, batch, id) && ByMAC(devices, index, batch, id) {
      var mac, d := MacOf(devices, id), Stored(devices, id);
      AtMostTwo(devices, index, batch, id, id);
      AtMostTwo(devices, index, batch, id, mac);
      UpdatedByPair(d, id, batch, id, mac, now);
      UpdatedByPair(d, id, batch, mac, id, now);
      CompatibleIffCommute(d, id, batch[id], batch[mac], now);
    }
  }

  /** The order of the walk does not matter exactly when records of the same device are compatible. */
  lemma OrdersAgreeIff(devices: Store, index: map<string, string>, batch: Batch, now: nat)
    requires IsIndex(index, devices)
    ensures OrdersAgree(devices, index, batch, now) <==> PairsAreCompatible(devices, index, batch)
  {
    if OrdersAgree(devices, index, batch, now) {
      forall k, l | k in batch && l in batch && k != l && IdOf(index, k) == IdOf(index, l)
        ensures Compatible(Stored(devices, IdOf(index, k)), batch[k], batch[l])
      {
        OrdersDiffer(devices, index, batch, now, k, l);
      }
    }
    if PairsAreCompatible(devices, index, batch) {
      forall one, other | Enumerates(one, batch.Keys) && Enumerates(other, batch.Keys)
        ensures MergeAll(devices, index, batch, one, now) == MergeAll(devices, index, batch, other, now)
      {
        var a, b := MergeAll(devices, index, batch, one, now), MergeAll(devices, index, batch, other, now);
        forall id ensures (id in a <==> id in b) && Stored(a, id) == Stored(b, id) {
          SameDeviceInAnyOrder(devices, index, batch, now, one, other, id);
        }
        SameStores(a, b);
      }
    }
  }

  /** Two records that carry different MACs are never compatible: the last one taken decides the device's MAC. */
  lemma ClashingMACsDependOnOrder(devices: Store, index: map<string, string>, batch: Batch, k: string, l: string,
                                  now: nat)
    requires IsIndex(index, devices) && IsBatch(batch)
    requires k in batch && l in batch && k != l && IdOf(index, k) == IdOf(index, l)
    requires batch[k].mac != "" && batch[l].mac != ""
    ensures !OrdersAgree(devices, index, batch, now)
  {
    OrdersAgreeIff(devices, index, batch, now);
    assert !Agree(NormalizeMAC(batch[k].mac), NormalizeMAC(batch[l].mac));
  }

  // --- Any index, any order -----------------------------------------------------------------------

  /** All merges of the batch give the same store, whatever the order of both map walks. */
  ghost predicate MergesAgree(devices: Store, batch: Batch, now: nat) {
    forall i1, o1, i2, o2 | IsIndex(i1, devices) && Enumerates(o1, batch.Keys)
                            && IsIndex(i2, devices) && Enumerates(o2, batch.Keys) ::
      MergeAll(devices, i1, batch, o1, now) == MergeAll(devices, i2, batch, o2, now)
  }

  /** Another device has the same MAC, so the record with it may be taken for either. */
  ghost predicate Shared(devices: Store, id: string) {
    exists other :: other != id && HasMAC(devices, other, MacOf(devices, id))
  }

  /** The device after the record under its own id, if there is one. */
  ghost function WithOwn(devices: Store, batch: Batch, id: string, now: nat): Device {
    if ByOwnKey(devices, batch, id) then Updated(Stored(devices, id), id, batch[id], now) else Stored(devices, id)
  }

  /** What can be checked of a device before the merge. */
  ghost predicate IsDetermined(devices: Store, batch: Batch, id: string, now: nat) {
    var mac := MacOf(devices, id);
    mac != "" && mac in batch ==>
      && (ByOwnKey(devices, batch, id) ==> Compatible(Stored(devices, id), batch[id], batch[mac]))
      && (Shared(devices, id) ==> BringsNothing(WithOwn(devices, batch, id, now), id, batch[mac], now))
  }

  /** The device after the record under its own id and then the one with its MAC, if there are any. */
  ghost function WithBoth(devices: Store, batch: Batch, id: string, now: nat): Device {
    var mac, own := MacOf(devices, id), WithOwn(devices, batch, id, now);
    if mac != "" && mac in batch then Updated(own, id, batch[mac], now) else own
  }

  lemma UpdatedByOne(d: Device, id: string, batch: Batch, k: string, now: nat)
    requires k in batch
    ensures UpdatedBy(d, id, batch, [k], now) == Updated(d, id, batch[k], now)
  {
    var one := [k];
    assert one[..|one| - 1] == [] && UpdatedBy(d, id, batch, [], now) == d;
  }

  /** Without the MAC record, a determined device is as with it. */
  lemma MissingMACRecord(devices: Store, index: map<string, string>, batch: Batch, id: string, now: nat)
    requires IsIndex(index, devices) && IsDetermined(devices, batch, id, now) && !ByMAC(devices, index, batch, id)
    ensures WithBoth(devices, batch, id, now) == WithOwn(devices, batch, id, now)
  {
    var mac := MacOf(devices, id);
    if mac != "" && mac in batch {
      assert id in devices && HasMAC(devices, id, mac);
      IndexedAreMACs(devices, index, mac);
      assert HasMAC(devices, index[mac], mac) && index[mac] != id;
      BringsNothingMeaning(WithOwn(devices, batch, id, now), id, batch[mac], now);
    }
  }

  lemma DeterminedDevice(devices: Store, index: map<string, string>, batch: Batch, order: seq<string>, now: nat,
                         id: string)
    requires IsIndex(index, devices) && Enumerates(order, batch.Keys) && IsDetermined(devices, batch, id, now)
    ensures var merged := MergeAll(devices, index, batch, order, now);
            && (id in merged <==> id in devices || ByOwnKey(devices, batch, id))
            && Stored(merged, id) == WithBoth(devices, batch, id, now)
  {
    var mac, d := MacOf(devices, id), Stored(devices, id);
    DeviceOfMerge(devices, index, batch, order, now, id);
    ReachersCases(devices, index, batch, order, id);
    if ByMAC(devices, index, batch, id) {
      IndexedAreMACs(devices, index, mac);
      UpdatedByOne(d, id, batch, mac, now);
      if ByOwnKey(devices, batch, id) {
        UpdatedByPair(d, id, batch, id, mac, now);
        UpdatedByPair(d, id, batch, mac, id, now);
        CompatibleIffCommute(d, id, batch[id], batch[mac], now);
      }
    } else {
      MissingMACRecord(devices, index, batch, id, now);
      if ByOwnKey(devices, batch, id) {
        UpdatedByOne(d, id, batch, id, now);
      }
    }
  }

  /** Some device with the MAC. */
  ghost function Pick(devices: Store, mac: string): (id: string)
    requires IsMAC(devices, mac)
    ensures HasMAC(devices, id, mac)
  {
    var id :| HasMAC(devices, id, mac);
    id
  }

  /** The index that a walk may build which ends with device `id` for its MAC. */
  lemma IndexNaming(devices: Store, id: string) returns (index: map<string, string>)
    requires HasMAC(devices, id, MacOf(devices, id))
    ensures IsIndex(index, devices) && MacOf(devices, id) in index && index[MacOf(devices, id)] == id
  {
    var mac := MacOf(devices, id);
    var macs := set i | i in devices && NormalizeMAC(devices[i].mac) != "" :: NormalizeMAC(devices[i].mac);
    forall m | m in macs ensures IsMAC(devices, m) {
      var i :| i in devices && NormalizeMAC(devices[i].mac) == m;
      assert HasMAC(devices, i, m);
    }
    index := map m | m in macs :: if m == mac then id else Pick(devices, m);
    forall m | m in index ensures m != "" && index[m] in devices && NormalizeMAC(devices[index[m]].mac) == m {
      assert HasMAC(devices, index[m], m);
    }
    forall i | i in devices && NormalizeMAC(devices[i].mac) != "" ensures NormalizeMAC(devices[i].mac) in index {
      assert NormalizeMAC(devices[i].mac) in macs;
    }
  }

  /** An undetermined device, first case: its two records come in either order. */
  lemma OwnRecordIsCompatible(devices: Store, batch: Batch, id: string, now: nat)
    requires MergesAgree(devices, batch, now) && ByOwnKey(devices, batch, id)
    requires HasMAC(devices, id, MacOf(devices, id)) && MacOf(devices, id) in batch
    ensures Compatible(Stored(devices, id), batch[id], batch[MacOf(devices, id)])
  {
    var mac := MacOf(devices, id);
    var index := IndexNaming(devices, id);
    assert ByMAC(devices, index, batch, id);
    AtMostTwo(devices, index, batch, id, id);
    AtMostTwo(devices, index, batch, id, mac);
    assert id != mac by {
      IndexedAreMACs(devices, index, mac);
    }
    assert OrdersAgree(devices, index, batch, now);
    OrdersDiffer(devices, index, batch, now, id, mac);
  }

  /** With index `index`, and the own record taken first, the MAC record is added or not. */
  lemma OwnRecordFirst(devices: Store, index: map<string, string>, batch: Batch, id: string, now: nat)
      returns (order: seq<string>)
    requires IsIndex(index, devices) && HasMAC(devices, id, MacOf(devices, id)) && MacOf(devices, id) in batch
    ensures Enumerates(order, batch.Keys)
    ensures Stored(MergeAll(devices, index, batch, order, now), id)
            == if ByMAC(devices, index, batch, id) then WithBoth(devices, batch, id, now)
                else WithOwn(devices, batch, id, now)
  {
    var mac, d := MacOf(devices, id), Stored(devices, id);
    if ByOwnKey(devices, batch, id) && ByMAC(devices, index, batch, id) {
      AtMostTwo(devices, index, batch, id, id);
      AtMostTwo(devices, index, batch, id, mac);
      forall h | h in batch && IdOf(index, h) == id ensures h == id || h == mac {
        AtMostTwo(devices, index, batch, id, h);
      }
      IndexedAreMACs(devices, index, mac);
      var other;
      order, other := EitherOrder(index, batch, id, mac);
      UpdatedByPair(d, id, batch, id, mac, now);
    } else {
      order := SomeEnumeration(batch.Keys);
      ReachersCases(devices, index, batch, order, id);
      UpdatedByOne(d, id, batch, mac, now);
      if ByOwnKey(devices, batch, id) {
        UpdatedByOne(d, id, batch, id, now);
      }
    }
    DeviceOfMerge(devices, index, batch, order, now, id);
  }

  /** Second case: the record with the MAC is taken for it or for another device. */
  lemma SharedRecordBringsNothing(devices: Store, batch: Batch, id: string, now: nat)
    requires MergesAgree(devices, batch, now) && Shared(devices, id)
    requires HasMAC(devices, id, MacOf(devices, id)) && MacOf(devices, id) in batch
    ensures BringsNothing(WithOwn(devices, batch, id, now), id, batch[MacOf(devices, id)], now)
  {
    var mac := MacOf(devices, id);
    var other :| other != id && HasMAC(devices, other, mac);
    var mine := IndexNaming(devices, id);
    var theirs := IndexNaming(devices, other);
    var o1 := OwnRecordFirst(devices, mine, batch, id, now);
    var o2 := OwnRecordFirst(devices, theirs, batch, id, now);
    assert ByMAC(devices, mine, batch, id) && !ByMAC(devices, theirs, batch, id);
    assert MergeAll(devices, mine, batch, o1, now) == MergeAll(devices, theirs, batch, o2, now);
    BringsNothingMeaning(WithOwn(devices, batch, id, now), id, batch[mac], now);
  }

  lemma AgreementDetermines(devices: Store, batch: Batch, id: string, now: nat)
    requires MergesAgree(devices, batch, now)
    ensures IsDetermined(devices, batch, id, now)
  {
    var mac := MacOf(devices, id);
    if mac != "" && mac in batch {
      assert id in devices && HasMAC(devices, id, mac);
      if ByOwnKey(devices, batch, id) {
        OwnRecordIsCompatible(devices, batch, id, now);
      }
      if Shared(devices, id) {
        SharedRecordBringsNothing(devices, batch, id, now);
      }
    }
  }

  lemma DeterminedStores(devices: Store, batch: Batch, now: nat, i1: map<string, string>, o1: seq<string>,
                         i2: map<string, string>, o2: seq<string>)
    requires forall id :: IsDetermined(devices, batch, id, now)
    requires IsIndex(i1, devices) && Enumerates(o1, batch.Keys) && IsIndex(i2, devices) && Enumerates(o2, batch.Keys)
    ensures MergeAll(devices, i1, batch, o1, now) == MergeAll(devices, i2, batch, o2, now)
  {
    var a, b := MergeAll(devices, i1, batch, o1, now), MergeAll(devices, i2, batch, o2, now);
    forall id ensures (id in a <==> id in b) && Stored(a, id) == Stored(b, id) {
      assert IsDetermined(devices, batch, id, now);
      DeterminedDevice(devices, i1, batch, o1, now, id);
      DeterminedDevice(devices, i2, batch, o2, now, id);
    }
    SameStores(a, b);
  }

  /**
   * A merge is determined by the store and the batch exactly when it is at every device: its own record and the one
   * with its MAC are compatible, and a record whose MAC several devices share brings none of them anything.
   */
  lemma MergesAgreeIff(devices: Store, batch: Batch, now: nat)
    ensures MergesAgree(devices, batch, now) <==> forall id :: IsDetermined(devices, batch, id, now)
  {
    if MergesAgree(devices, batch, now) {
      forall id ensures IsDetermined(devices, batch, id, now) {
        AgreementDetermines(devices, batch, id, now);
      }
    }
    if forall id :: IsDetermined(devices, batch, id, now) {
      forall i1, o1, i2, o2 | IsIndex(i1, devices) && Enumerates(o1, batch.Keys)
                              && IsIndex(i2, devices) && Enumerates(o2, batch.Keys)
        ensures MergeAll(devices, i1, batch, o1, now) == MergeAll(devices, i2, batch, o2, now)
      {
        DeterminedStores(devices, batch, now, i1, o1, i2, o2);
      }
    }
  }

  // --- What follows -------------------------------------------------------------------------------

  /** Without shared MACs only the order matters, and only for records of the same device that are not compatible. */
  lemma UniqueMACsAgreeIff(devices: Store, index: map<string, string>, batch: Batch, now: nat)
    requires UniqueMACs(devices) && IsIndex(index, devices)
    ensures MergesAgree(devices, batch, now) <==> PairsAreCompatible(devices, index, batch)
  {
    OrdersAgreeIff(devices, index, batch, now);
    if PairsAreCompatible(devices, index, batch) {
      forall i1, o1, i2, o2 | IsIndex(i1, devices) && Enumerates(o1, batch.Keys)
                              && IsIndex(i2, devices) && Enumerates(o2, batch.Keys)
        ensures MergeAll(devices, i1, batch, o1, now) == MergeAll(devices, i2, batch, o2, now)
      {
        IndexIsUnique(devices, i1, index);
        IndexIsUnique(devices, i2, index);
      }
    }
  }

  /** A MAC of the batch that two devices share: unless all is on record already, the map walk picks who is updated. */
  lemma SharedMACsDependOnWalk(devices: Store, batch: Batch, id: string, other: string, now: nat)
    requires id != other && HasMAC(devices, id, MacOf(devices, other)) && HasMAC(devices, other, MacOf(devices, other))
    requires MacOf(devices, id) in batch && id !in batch && devices[id].updatedAt != now
    ensures !MergesAgree(devices, batch, now)
  {
    MergesAgreeIff(devices, batch, now);
    assert Shared(devices, id);
    assert !IsDetermined(devices, batch, id, now);
  }

  /**
   * One MAC is enough: a device filed under its address, later given a MAC by the administrator. From then on its
   * static record and the one from ARP or the router both reach it, and the last one taken names the host.
   */
  lemma StaticRecordClashes(devices: Store, batch: Batch, ip: string, now: nat)
    requires var id := "ip:" + ip;
             && id in devices && id in batch && !IsMAC(devices, id)
             && MacOf(devices, id) != "" && MacOf(devices, id) in batch
             && !Agree(batch[id].hostname, batch[MacOf(devices, id)].hostname)
    ensures !MergesAgree(devices, batch, now)
  {
    MergesAgreeIff(devices, batch, now);
    assert !IsDetermined(devices, batch, "ip:" + ip, now);
  }

  const STATIC := DeviceRecord("", Some("a"), "tv", "tv", "", "static", 1)
  const ON_THE_WIRE := DeviceRecord("m", Some("a"), "box", "box", "", "arp", 2)
  const ADOPTED := Device("ip:a", "tv", "a", "m", "tv", "", "static", 1, "", 1, 1)

  lemma WitnessRecords(now: nat)
    ensures RecordKey(STATIC) == "ip:a" && RecordKey(ON_THE_WIRE) == "m"
    ensures AsBase(STATIC, now) == STATIC && AsBase(ON_THE_WIRE, now) == ON_THE_WIRE
    ensures MacOf(map["ip:a" := ADOPTED], "ip:a") == "m"
  {
    assert NormalizeMAC("m") == "m";
  }

  lemma WitnessCollapse(now: nat)
    ensures IsCollapse(map["ip:a" := STATIC, "m" := ON_THE_WIRE], [STATIC, ON_THE_WIRE], now)
  {
    var records, batch := [STATIC, ON_THE_WIRE], map["ip:a" := STATIC, "m" := ON_THE_WIRE];
    WitnessRecords(now);
    assert records[..1] == [STATIC] && [STATIC][..0] == [];
    forall key
      ensures var c := CollapseKey(records, now, key);
              if c.Some? then key in batch && Some(batch[key]) == c
              else key !in batch
    {
      var none: seq<DeviceRecord> := [];
      assert CollapseKey(none, now, key) == None;
      assert CollapseKey([STATIC], now, key) == if key == "ip:a" then Some(STATIC) else None;
    }
  }

  /** For example: two records of one address, a store with one device, and two different stores after the merge. */
  lemma StaticRecordWitness(now: nat)
    ensures var devices, records := map["ip:a" := ADOPTED], [STATIC, ON_THE_WIRE];
            var batch := map["ip:a" := STATIC, "m" := ON_THE_WIRE];
            UniqueMACs(devices) && IsCollapse(batch, records, now) && !MergesAgree(devices, batch, now)
  {
    var devices := map["ip:a" := ADOPTED];
    WitnessRecords(now);
    WitnessCollapse(now);
    assert forall id :: !HasMAC(devices, id, "ip:a");
    StaticRecordClashes(devices, map["ip:a" := STATIC, "m" := ON_THE_WIRE], "a", now);
  }
}
