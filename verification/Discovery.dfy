/** Merging discovered records into the stored devices (internal/device/discovery/manager.go). */
module Discovery {
  import opened Collapse
  import opened Devices
  import opened Text

  datatype Device = Device(id: string, name: string, ip: string, mac: string, hostname: string, vendor: string,
                           source: string, lastSeen: nat, userId: string, createdAt: nat, updatedAt: nat)
  const NO_DEVICE := Device("", "", "", "", "", "", "", 0, "", 0, 0)

  type Store = map<string, Device>
  type Batch = map<string, DeviceRecord>

  /** `index` names, for each MAC in the store, one device that has it. */
  ghost predicate IsIndex(index: map<string, string>, devices: Store) {
    && (forall mac | mac in index :: mac != "" && index[mac] in devices && NormalizeMAC(devices[index[mac]].mac) == mac)
    && forall id | id in devices && NormalizeMAC(devices[id].mac) != "" :: NormalizeMAC(devices[id].mac) in index
  }

  /** The device a record belongs to: the one with its MAC, else one of its own key. */
  function IdOf(index: map<string, string>, key: string): string {
    if key in index then index[key] else key
  }

  function Stored(devices: Store, id: string): Device {
    if id in devices then devices[id] else NO_DEVICE
  }

  predicate UserManaged(d: Device) {
    d.source == "manual" || d.source == "static"
  }

  /** The device after one record: identity and user data stay, the rest follows the record. */
  function Updated(d: Device, id: string, rec: DeviceRecord, now: nat): Device {
    Device(if d.id == "" then id else d.id,
           if d.name == "" then rec.name else d.name,
           if rec.ip.Some? then rec.ip.value else d.ip,
           if NormalizeMAC(rec.mac) != "" then NormalizeMAC(rec.mac) else d.mac,
           if rec.hostname != "" then rec.hostname else d.hostname,
           if rec.vendor != "" then rec.vendor else d.vendor,
           if rec.source != "" && !UserManaged(d) then rec.source else d.source,
           if d.lastSeen == 0 || rec.lastSeen > d.lastSeen then rec.lastSeen else d.lastSeen,
           d.userId,
           if d.id == "" then now else d.createdAt,
           now)
  }

  /** The store after the records under `order`, one after the other. */
  function MergeAll(devices: Store, index: map<string, string>, batch: Batch, order: seq<string>, now: nat): Store
    requires forall k | k in order :: k in batch
  {
    if order == [] then devices
    else
      var before, key := MergeAll(devices, index, batch, order[..|order| - 1], now), order[|order| - 1];
      var id := IdOf(index, key);
      before[id := Updated(Stored(before, id), id, batch[key], now)]
  }

  ghost predicate NoRepeats(order: seq<string>) {
    forall i, j | 0 <= i < j < |order| :: order[i] != order[j]
  }

  ghost predicate Enumerates(order: seq<string>, keys: set<string>) {
    (forall k :: k in order <==> k in keys) && NoRepeats(order)
  }

  /** What a record may fill in about who the device is. */
  method FillIdentity(d: Device, id: string, rec: DeviceRecord, now: nat) returns (dev: Device)
    ensures var u := Updated(d, id, rec, now);
            dev == d.(id := u.id, createdAt := u.createdAt, name := u.name, hostname := u.hostname, vendor := u.vendor,
                      source := u.source)
  {
    dev := d;
    if dev.id == "" {
      dev := dev.(id := id, createdAt := now);
    }
    if dev.name == "" {
      dev := dev.(name := rec.name);
    }
    if rec.hostname != "" {
      dev := dev.(hostname := rec.hostname);
    }
    if rec.vendor != "" {
      dev := dev.(vendor := rec.vendor);
    }
    if rec.source != "" {
      if dev.source == "" || (dev.source != "manual" && dev.source != "static") {
        dev := dev.(source := rec.source);
      }
    }
  }

  /** What a record says about where and when the device was seen. */
  method Refresh(d: Device, rec: DeviceRecord, now: nat) returns (dev: Device)
    ensures var u := Updated(d, d.id, rec, now);
            dev == d.(ip := u.ip, mac := u.mac, lastSeen := u.lastSeen, updatedAt := now)
  {
    dev := d;
    if rec.ip.Some? {
      dev := dev.(ip := rec.ip.value);
    }
    if |rec.mac| > 0 {
      var mac := NormalizeMAC(rec.mac);
      if mac != "" {
        dev := dev.(mac := mac);
      }
    }
    if dev.lastSeen == 0 || rec.lastSeen > dev.lastSeen {
      dev := dev.(lastSeen := rec.lastSeen);
    }
    dev := dev.(updatedAt := now);
  }

  /** The collapsed records in the order they were taken. */
  function Taken(batch: Batch, order: seq<string>): seq<DeviceRecord>
    requires forall k | k in order :: k in batch
  {
    if order == [] then [] else Taken(batch, order[..|order| - 1]) + [batch[order[|order| - 1]]]
  }

  /** Where a merge stands once the records under `order` are taken and those under `todo` are left. */
  ghost predicate Progress(was: Store, index: map<string, string>, batch: Batch, order: seq<string>,
                           todo: set<string>, now: nat,
                           devices: Store, before: seq<DeviceRecord>, history: seq<DeviceRecord>) {
    && todo <= batch.Keys && Enumerates(order, batch.Keys - todo)
    && devices == MergeAll(was, index, batch, order, now) && history == before + Taken(batch, order)
  }

  lemma TakeOne(was: Store, index: map<string, string>, batch: Batch, order: seq<string>, todo: set<string>, now: nat,
                devices: Store, before: seq<DeviceRecord>, history: seq<DeviceRecord>, key: string)
    requires Progress(was, index, batch, order, todo, now, devices, before, history) && key in todo
    ensures var id := IdOf(index, key);
            Progress(was, index, batch, order + [key], todo - {key}, now,
                     devices[id := Updated(Stored(devices, id), id, batch[key], now)], before, history + [batch[key]])
  {
    assert (order + [key])[..|order|] == order;
  }

  /** The stored devices, and the cache of names that is told about every record. */
  class DeviceStore {
    var devices: Store
    const cache: DeviceCache

    constructor (cache: DeviceCache)
      ensures devices == map[] && this.cache == cache
    {
      devices, this.cache := map[], cache;
    }

    /** The MAC index, built in whatever order the map yields its devices. */
    method IndexByMAC() returns (index: map<string, string>)
      ensures IsIndex(index, devices)
    {
      index := map[];
      var todo := devices.Keys;
      while todo != {}
        invariant todo <= devices.Keys
        invariant forall mac | mac in index ::
                    mac != "" && index[mac] in devices && NormalizeMAC(devices[index[mac]].mac) == mac
        invariant forall id | id in devices && id !in todo && NormalizeMAC(devices[id].mac) != "" ::
                    NormalizeMAC(devices[id].mac) in index
        decreases todo
      {
        var id :| id in todo;
        todo := todo - {id};
        var mac := NormalizeMAC(devices[id].mac);
        if mac != "" {
          index := index[mac := id];
        }
      }
    }

    /** Applies one record to device `id`, field by field. */
    method Apply(id: string, rec: DeviceRecord, now: nat)
      modifies this`devices
      ensures devices == old(devices)[id := Updated(Stored(old(devices), id), id, rec, now)]
    {
      var dev := FillIdentity(Stored(devices, id), id, rec, now);
      dev := Refresh(dev, rec, now);
      devices := devices[id := dev];
    }

    /** Merges a batch of records, taking the collapsed ones in whatever order the map yields them. */
    method Merge(records: seq<DeviceRecord>, now: nat)
      returns (ghost batch: Batch, ghost index: map<string, string>, ghost order: seq<string>)
      requires Addressed(records) && cache.Valid()
      modifies this, cache
      ensures IsCollapse(batch, records, now) && IsIndex(index, old(devices)) && Enumerates(order, batch.Keys)
      ensures devices == MergeAll(old(devices), index, batch, order, now)
      ensures cache.Valid() && cache.history == old(cache.history) + Taken(batch, order)
    {
      var byKey := Collapse.Collapse(records, now);
      var existingByMAC := IndexByMAC();
      batch, index, order := byKey, existingByMAC, [];
      var todo := byKey.Keys;
      while todo != {}
        invariant cache.Valid()
                    && Progress(old(devices), index, batch, order, todo, now, devices, old(cache.history),
                      cache.history)
        decreases todo
      {
        var key :| key in todo;
        TakeOne(old(devices), index, batch, order, todo, now, devices, old(cache.history), cache.history, key);
        todo := todo - {key};
        Apply(IdOf(existingByMAC, key), byKey[key], now);
        cache.Upsert(byKey[key]);
        order := order + [key];
      }
    }
  }

  // --- What every merge keeps ---------------------------------------------------------------------

  /** What a merge may never take from a stored device. */
  ghost predicate Keeps(d: Device, e: Device) {
    && e.userId == d.userId
    && (d.id != "" ==> e.id == d.id && e.createdAt == d.createdAt)
    && (d.name != "" ==> e.name == d.name)
    && (UserManaged(d) ==> e.source == d.source)
    && d.lastSeen <= e.lastSeen
  }

  /** Whatever the order: no device disappears, and each keeps its owner, name and creation; time never goes back. */
  lemma {:induction false} MergeKeepsDevices(devices: Store, index: map<string, string>, batch: Batch,
                                             order: seq<string>,
                                             now: nat, id: string)
    requires (forall k | k in order :: k in batch) && id in devices
    ensures id in MergeAll(devices, index, batch, order, now)
    ensures Keeps(devices[id], MergeAll(devices, index, batch, order, now)[id])
  {
    if order != [] {
      MergeKeepsDevices(devices, index, batch, order[..|order| - 1], now, id);
    }
  }

  ghost predicate UniqueMACs(devices: Store) {
    forall i, j | i in devices && j in devices && NormalizeMAC(devices[i].mac) != "" ::
      NormalizeMAC(devices[i].mac) == NormalizeMAC(devices[j].mac) ==> i == j
  }

  /** A batch as collapsing leaves it: named records, each under its own key. */
  ghost predicate IsBatch(batch: Batch) {
    forall k | k in batch :: k != "" && batch[k].name != "" && (batch[k].mac != "" ==> NormalizeMAC(batch[k].mac) == k)
  }

  lemma CollapseMakesBatch(batch: Batch, records: seq<DeviceRecord>, now: nat)
    requires Addressed(records) && IsCollapse(batch, records, now)
    ensures IsBatch(batch)
  {
    forall k | k in batch
      ensures k != "" && batch[k].name != "" && (batch[k].mac != "" ==> NormalizeMAC(batch[k].mac) == k)
    {
      CollapsedIsNamed(records, now, k);
      CollapsedKeepsItsKey(records, now, k);
    }
  }

  lemma NormalizeTwice(mac: string)
    ensures NormalizeMAC(NormalizeMAC(mac)) == NormalizeMAC(mac)
  {
    assert forall i | 0 <= i < |mac| :: NormalizeMAC(NormalizeMAC(mac))[i] == NormalizeMAC(mac)[i];
  }

  /** A record of the batch gives its MAC to device `id`. */
  predicate GivesMAC(index: map<string, string>, batch: Batch, id: string, key: string) {
    key in batch && IdOf(index, key) == id && batch[key].mac != ""
  }

  /** Where the MAC of a merged device comes from. */
  ghost predicate MACComesFrom(devices: Store, index: map<string, string>, batch: Batch, order: seq<string>,
                               id: string, d: Device) {
    || (GivesMAC(index, batch, id, NormalizeMAC(d.mac)) && NormalizeMAC(d.mac) in order)
    || (NormalizeMAC(d.mac) == NormalizeMAC(Stored(devices, id).mac)
        && forall k | k in order :: !GivesMAC(index, batch, id, k))
  }

  lemma {:induction false} MACOrigin(devices: Store, index: map<string, string>, batch: Batch, order: seq<string>,
                                     now: nat, id: string)
    requires IsBatch(batch) && forall k | k in order :: k in batch
    ensures MACComesFrom(devices, index, batch, order, id, Stored(MergeAll(devices, index, batch, order, now), id))
  {
    if order != [] {
      var init, key := order[..|order| - 1], order[|order| - 1];
      MACOrigin(devices, index, batch, init, now, id);
      assert forall k :: k in order <==> k in init || k == key;
      if IdOf(index, key) == id && batch[key].mac != "" {
        NormalizeTwice(batch[key].mac);
      }
    }
  }

  /** If no two devices had the same MAC, none do afterwards. */
  lemma MACsStayUnique(devices: Store, index: map<string, string>, batch: Batch, order: seq<string>, now: nat)
    requires UniqueMACs(devices) && IsIndex(index, devices) && IsBatch(batch) && Enumerates(order, batch.Keys)
    ensures UniqueMACs(MergeAll(devices, index, batch, order, now))
  {
    var merged := MergeAll(devices, index, batch, order, now);
    forall i, j | i in merged && j in merged && NormalizeMAC(merged[i].mac) != ""
                  && NormalizeMAC(merged[i].mac) == NormalizeMAC(merged[j].mac)
      ensures i == j
    {
      MACOrigin(devices, index, batch, order, now, i);
      MACOrigin(devices, index, batch, order, now, j);
    }
  }

  // --- Order and repetition -----------------------------------------------------------------------

  /** No two records of the batch belong to the same device. */
  ghost predicate DistinctIds(index: map<string, string>, batch: Batch) {
    forall k, l | k in batch && l in batch && IdOf(index, k) == IdOf(index, l) :: k == l
  }

  /** The record that reaches device `id`, the last one if there are several. */
  function Reacher(index: map<string, string>, order: seq<string>, id: string): (k: Option<string>)
    ensures k.Some? ==> k.value in order && IdOf(index, k.value) == id
    ensures k.None? ==> forall key | key in order :: IdOf(index, key) != id
  {
    if order == [] then None
    else if IdOf(index, order[|order| - 1]) == id then Some(order[|order| - 1])
    else Reacher(index, order[..|order| - 1], id)
  }

  function MergedWith(d: Device, id: string, batch: Batch, key: Option<string>, now: nat): Device {
    if key.Some? && key.value in batch then Updated(d, id, batch[key.value], now) else d
  }

  /** With distinct ids, each device is changed by its own record, or not at all. */
  lemma {:induction false} MergedDevice(devices: Store, index: map<string, string>, batch: Batch, order: seq<string>,
                                        now: nat, id: string)
    requires DistinctIds(index, batch) && (forall k | k in order :: k in batch) && NoRepeats(order)
    ensures var merged, key := MergeAll(devices, index, batch, order, now), Reacher(index, order, id);
            && (id in merged <==> id in devices || key.Some?)
            && Stored(merged, id) == MergedWith(Stored(devices, id), id, batch, key, now)
  {
    if order != [] {
      var n := |order| - 1;
      var init, key := order[..n], order[n];
      MergedDevice(devices, index, batch, init, now, id);
      assert key !in init;
    }
  }

  lemma SameReacher(index: map<string, string>, batch: Batch, one: seq<string>, other: seq<string>, id: string)
    requires DistinctIds(index, batch) && Enumerates(one, batch.Keys) && Enumerates(other, batch.Keys)
    ensures Reacher(index, one, id) == Reacher(index, other, id)
  {
    var a, b := Reacher(index, one, id), Reacher(index, other, id);
    assert a.Some? ==> a.value in other;
    assert b.Some? ==> b.value in one;
  }

  lemma SameDevice(devices: Store, index: map<string, string>, batch: Batch, one: seq<string>, other: seq<string>,
                   now: nat, id: string)
    requires DistinctIds(index, batch) && Enumerates(one, batch.Keys) && Enumerates(other, batch.Keys)
    ensures var a, b := MergeAll(devices, index, batch, one, now), MergeAll(devices, index, batch, other, now);
            (id in a <==> id in b) && Stored(a, id) == Stored(b, id)
  {
    MergedDevice(devices, index, batch, one, now, id);
    MergedDevice(devices, index, batch, other, now, id);
    SameReacher(index, batch, one, other, id);
  }

  lemma SameStores(a: Store, b: Store)
    requires forall id :: (id in a <==> id in b) && Stored(a, id) == Stored(b, id)
    ensures a == b
  {
    assert forall id | id in a :: a[id] == Stored(a, id) && b[id] == Stored(b, id);
  }

  /** Then the order in which the batch is walked does not matter. */
  lemma OrderIsIrrelevant(devices: Store, index: map<string, string>, batch: Batch, one: seq<string>,
                          other: seq<string>, now: nat)
    requires DistinctIds(index, batch) && Enumerates(one, batch.Keys) && Enumerates(other, batch.Keys)
    ensures MergeAll(devices, index, batch, one, now) == MergeAll(devices, index, batch, other, now)
  {
    var a, b := MergeAll(devices, index, batch, one, now), MergeAll(devices, index, batch, other, now);
    forall id ensures (id in a <==> id in b) && Stored(a, id) == Stored(b, id) {
      SameDevice(devices, index, batch, one, other, now, id);
    }
    SameStores(a, b);
  }

  lemma IndexIsUnique(devices: Store, one: map<string, string>, other: map<string, string>)
    requires UniqueMACs(devices) && IsIndex(one, devices) && IsIndex(other, devices)
    ensures one == other
  {
    forall mac ensures mac in one <==> mac in other {
    }
    forall mac | mac in one ensures one[mac] == other[mac] {
    }
  }

  /** So two merges of the same batch into the same store give the same store, map iteration notwithstanding. */
  lemma MergeIsDeterministic(devices: Store, batch: Batch, i1: map<string, string>, o1: seq<string>,
                             i2: map<string, string>, o2: seq<string>, now: nat)
    requires UniqueMACs(devices) && IsIndex(i1, devices) && IsIndex(i2, devices) && DistinctIds(i1, batch)
    requires Enumerates(o1, batch.Keys) && Enumerates(o2, batch.Keys)
    ensures MergeAll(devices, i1, batch, o1, now) == MergeAll(devices, i2, batch, o2, now)
  {
    IndexIsUnique(devices, i1, i2);
    OrderIsIrrelevant(devices, i1, batch, o1, o2, now);
  }

  /** What a record does to its device: what it says replaces what was there, what it leaves out stays. */
  ghost predicate Delivers(rec: DeviceRecord, d: Device, id: string, e: Device, now: nat) {
    && (d.id == "" ==> e.id == id && e.createdAt == now) && (d.id != "" ==> e.id == d.id && e.createdAt == d.createdAt)
    && e.userId == d.userId
    && e.name == (if d.name == "" then rec.name else d.name)
    && (if rec.ip.Some? then e.ip == rec.ip.value else e.ip == d.ip)
    && (if rec.mac != "" then e.mac == NormalizeMAC(rec.mac) else e.mac == d.mac)
    && (if rec.hostname != "" then e.hostname == rec.hostname else e.hostname == d.hostname)
    && (if rec.vendor != "" then e.vendor == rec.vendor else e.vendor == d.vendor)
    && (if rec.source == "" || d.source == "manual" || d.source == "static" then e.source == d.source
        else e.source == rec.source)
    && e.lastSeen >= rec.lastSeen && e.lastSeen >= d.lastSeen
    && (e.lastSeen == rec.lastSeen || e.lastSeen == d.lastSeen)
    && e.updatedAt == now
  }

  /** With distinct ids every record arrives at its device, and the devices without a record stay as they were. */
  lemma RecordsArrive(devices: Store, index: map<string, string>, batch: Batch, order: seq<string>, now: nat)
    requires DistinctIds(index, batch) && Enumerates(order, batch.Keys)
    ensures var merged := MergeAll(devices, index, batch, order, now);
            && (forall k | k in batch :: IdOf(index, k) in merged
                  && Delivers(batch[k], Stored(devices, IdOf(index, k)), IdOf(index, k), merged[IdOf(index, k)], now))
            && (forall id | id in merged && forall k | k in batch :: IdOf(index, k) != id ::
                  id in devices && merged[id] == devices[id])
  {
    var merged := MergeAll(devices, index, batch, order, now);
    forall k | k in batch
      ensures IdOf(index, k) in merged
                && Delivers(batch[k], Stored(devices, IdOf(index, k)), IdOf(index, k), merged[IdOf(index, k)], now)
    {
      var id := IdOf(index, k);
      MergedDevice(devices, index, batch, order, now, id);
      assert Reacher(index, order, id) == Some(k);
    }
    forall id | id in merged && forall k | k in batch :: IdOf(index, k) != id
      ensures id in devices && merged[id] == devices[id]
    {
      MergedDevice(devices, index, batch, order, now, id);
    }
  }

  /** After a merge every record of the batch still belongs to the same device. */
  lemma IdsAreStable(devices: Store, index: map<string, string>, batch: Batch, order: seq<string>, now: nat,
                     after: map<string, string>, k: string)
    requires UniqueMACs(devices) && IsIndex(index, devices) && IsBatch(batch) && DistinctIds(index, batch)
    requires Enumerates(order, batch.Keys) && k in batch
    requires IsIndex(after, MergeAll(devices, index, batch, order, now))
    ensures IdOf(after, k) == IdOf(index, k)
  {
    var merged, id := MergeAll(devices, index, batch, order, now), IdOf(index, k);
    MACsStayUnique(devices, index, batch, order, now);
    MergedDevice(devices, index, batch, order, now, id);
    assert Reacher(index, order, id) == Some(k);
    assert merged[id] == Updated(Stored(devices, id), id, batch[k], now);
    if batch[k].mac != "" {
      NormalizeTwice(batch[k].mac);
      assert NormalizeMAC(merged[id].mac) == k;
    } else if k in index {
      assert NormalizeMAC(merged[id].mac) == k;
    } else if k in after {
      MACOrigin(devices, index, batch, order, now, after[k]);
    }
  }

  /** Merging the same batch again changes nothing but the update time. */
  lemma MergeAgainChangesNothing(devices: Store, i1: map<string, string>, batch: Batch, o1: seq<string>, now1: nat,
                                 i2: map<string, string>, o2: seq<string>, now2: nat, id: string)
    requires UniqueMACs(devices) && IsIndex(i1, devices) && IsBatch(batch) && DistinctIds(i1, batch) && "" !in devices
    requires Enumerates(o1, batch.Keys) && Enumerates(o2, batch.Keys)
    requires IsIndex(i2, MergeAll(devices, i1, batch, o1, now1))
    ensures var once := MergeAll(devices, i1, batch, o1, now1);
            var twice := MergeAll(once, i2, batch, o2, now2);
            && (id in twice <==> id in once)
            && Stored(twice, id).(updatedAt := 0) == Stored(once, id).(updatedAt := 0)
  {
    var once := MergeAll(devices, i1, batch, o1, now1);
    forall k | k in batch ensures IdOf(i2, k) == IdOf(i1, k) {
      IdsAreStable(devices, i1, batch, o1, now1, i2, k);
    }
    MergedDevice(devices, i1, batch, o1, now1, id);
    MergedDevice(once, i2, batch, o2, now2, id);
    SameReacher(i1, batch, o1, o2, id);
    SameReacherForSameIds(i1, i2, o2, id);
    var key := Reacher(i1, o1, id);
    if key.Some? {
      assert id != "";
      UpdateTwice(Stored(devices, id), id, batch[key.value], now1, now2);
    }
  }

  lemma {:induction false} SameReacherForSameIds(i1: map<string, string>, i2: map<string, string>, order: seq<string>,
                                                 id: string)
    requires forall k | k in order :: IdOf(i1, k) == IdOf(i2, k)
    ensures Reacher(i1, order, id) == Reacher(i2, order, id)
  {
    if order != [] {
      SameReacherForSameIds(i1, i2, order[..|order| - 1], id);
    }
  }

  /** Dated records collapse to the same batch whenever they are merged. */
  lemma SameBatchAnyTime(records: seq<DeviceRecord>, b1: Batch, now1: nat, b2: Batch, now2: nat)
    requires IsCollapse(b1, records, now1) && IsCollapse(b2, records, now2)
    requires forall i | 0 <= i < |records| && Usable(records[i]) :: records[i].lastSeen != 0
    ensures b1 == b2
  {
    forall key ensures CollapseKey(records, now1, key) == CollapseKey(records, now2, key) {
      CollapseIgnoresClock(records, now1, now2, key);
    }
    assert forall key | key in b1 :: key in b2 && b1[key] == b2[key];
  }

  lemma UpdateTwice(d: Device, id: string, rec: DeviceRecord, now1: nat, now2: nat)
    requires id != "" && rec.name != ""
    ensures Updated(Updated(d, id, rec, now1), id, rec, now2) == Updated(d, id, rec, now1).(updatedAt := now2)
  {
  }

  // --- What the cache of names learns -------------------------------------------------------------

  lemma {:induction false} TakenAt(batch: Batch, order: seq<string>)
    requires forall k | k in order :: k in batch
    ensures |Taken(batch, order)| == |order|
    ensures forall i | 0 <= i < |order| :: Taken(batch, order)[i] == batch[order[i]]
  {
    if order != [] {
      var n := |order| - 1;
      TakenAt(batch, order[..n]);
      forall i | 0 <= i < |order| ensures Taken(batch, order)[i] == batch[order[i]] {
        assert i < n ==> Taken(batch, order)[i] == Taken(batch, order[..n])[i] && order[..n][i] == order[i];
      }
    }
  }

  lemma CollapsedIsAddressed(batch: Batch, records: seq<DeviceRecord>, now: nat, key: string)
    requires Addressed(records) && IsCollapse(batch, records, now) && key in batch
    ensures batch[key].ip != Some("")
  {
    assert CollapseKey(records, now, key) == Some(batch[key]);
    var b, p, s := CollapseMeaning(records, now, key);
  }

  lemma HistoryIsAddressable(before: seq<DeviceRecord>, records: seq<DeviceRecord>, now: nat, batch: Batch,
                             order: seq<string>)
    requires Addressable(before) && Addressed(records) && IsCollapse(batch, records, now)
    requires forall k | k in order :: k in batch
    ensures Addressable(before + Taken(batch, order))
  {
    TakenAt(batch, order);
    forall k | k in batch ensures batch[k].ip != Some("") {
      CollapsedIsAddressed(batch, records, now, k);
    }
    forall i | 0 <= i < |Taken(batch, order)| ensures Taken(batch, order)[i].ip != Some("") {
      assert order[i] in order;
    }
  }

  /** In a history of addressed records whose newest carriers of `ip` have names, `ip` resolves to the last one's. */
  lemma NewestCarrierNames(before: seq<DeviceRecord>, taken: seq<DeviceRecord>, ip: string, i: nat) returns (last: nat)
    requires Addressable(before + taken) && IsLower(ip) && i < |taken| && taken[i].ip == Some(ip)
    requires forall j | 0 <= j < |taken| :: taken[j].name != ""
    ensures last < |taken| && taken[last].ip == Some(ip)
    ensures NameIn(Replay(before + taken), ip) == Some(taken[last].name)
  {
    var history := before + taken;
    LastUpsertNamesTheAddress(history, ip);
    assert history[|before| + i] == taken[i];
    var h := LastWith(history, ip).value;
    last := h - |before|;
    assert history[h] == taken[last];
  }

  /** After a merge the cache names every address of the batch, and by the name of a record that carries it. */
  lemma MergedAddressesResolve(before: seq<DeviceRecord>, records: seq<DeviceRecord>, now: nat, batch: Batch,
                               order: seq<string>, ip: string, k: string) returns (l: string)
    requires Addressable(before) && Addressed(records) && IsCollapse(batch, records, now)
               && Enumerates(order, batch.Keys)
    requires IsLower(ip) && k in batch && batch[k].ip == Some(ip)
    ensures l in batch && batch[l].ip == Some(ip)
    ensures NameIn(Replay(before + Taken(batch, order)), ip) == Some(batch[l].name)
  {
    var taken := Taken(batch, order);
    TakenAt(batch, order);
    HistoryIsAddressable(before, records, now, batch, order);
    CollapseMakesBatch(batch, records, now);
    forall j | 0 <= j < |taken| ensures taken[j].name != "" {
      assert order[j] in order;
    }
    var i :| 0 <= i < |order| && order[i] == k;
    var last := NewestCarrierNames(before, taken, ip, i);
    l := order[last];
  }
}
