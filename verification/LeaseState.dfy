/** The lease table of one virtual network, as values.

The server keeps four maps and a version counter.  This module gives every operation on
them as a function from table to table; class `NetworkState` performs the same operations
in place and is proved against these functions. */
module LeaseState {
  import opened Base

  /** Identity of a client's outgoing channel. */
  type Sender = nat
  /** Identity of a shared traffic counter. */
  type StatsId = nat

  datatype DeviceEntry = DeviceEntry(
    ip: Option<Ip>,
    randomId: nat,
    isConnected: bool,
    disconnectTime: Option<nat>,
    dataVersion: nat,
    stats: StatsId)

  datatype Table = Table(
    dataVersion: nat,
    deviceMap: map<DeviceId, DeviceEntry>,
    deviceIpMap: map<Ip, DeviceId>,
    senderMap: map<Ip, Sender>,
    statsMap: map<Ip, StatsId>)

  /** The part of a registration request the allocator looks at. */
  datatype RegRequest = RegRequest(deviceId: DeviceId, ip: Option<Ip>, ipVariable: bool)

  datatype RegError = GatewayIp | OutsideNet | DuplicateIp | Exhausted

  datatype Grant = Grant(table: Table, ip: Ip, previous: Option<Ip>)

  predicate Has(t: Table, d: DeviceId, ip: Ip) {
    d in t.deviceMap && t.deviceMap[d].ip == Some(ip)
  }

  /** No device holds the address. */
  ghost predicate Unheld(t: Table, ip: Ip) {
    forall d :: !Has(t, d, ip)
  }

  predicate Connected(t: Table, d: DeviceId) {
    d in t.deviceMap && t.deviceMap[d].isConnected
  }

  // ----- the address scan

  /** The first address of lo..hi that is neither the gateway nor a key of the index. */
  function Scan(lo: int, hi: int, gateway: Ip, taken: set<Ip>): (r: Option<Ip>)
    requires 0 <= lo && hi <= 0x1_0000_0000
    ensures r.Some? ==> lo <= r.value < hi && r.value != gateway && r.value !in taken
    ensures r.Some? ==> forall j: Ip :: lo <= j < r.value ==> j == gateway || j in taken
    ensures r.None? ==> forall j: Ip :: lo <= j < hi ==> j == gateway || j in taken
    decreases hi - lo
  {
    if lo >= hi then None
    else if lo == gateway || lo in taken then Scan(lo + 1, hi, gateway, taken)
    else Some(lo)
  }

  function Available(c: Config, taken: set<Ip>): Option<Ip>
    requires c.Valid()
  {
    Scan(c.network + 1, c.Broadcast(), c.Gateway(), taken)
  }

  function Interval(lo: int, hi: int): (r: set<Ip>)
    requires 0 <= lo <= hi <= 0x1_0000_0000
    ensures forall j: Ip :: j in r <==> lo <= j < hi
    ensures |r| == hi - lo
    decreases hi - lo
  {
    if lo == hi then {} else Interval(lo, hi - 1) + {hi - 1}
  }

  /** The scan returns the least free host; it fails exactly when every host is taken, so never
      while the index holds fewer keys than there are hosts. */
  lemma AvailableIsLeastFreeHost(c: Config, taken: set<Ip>)
    requires c.Valid()
    ensures var r := Available(c, taken);
      && (r.None? <==> forall j: Ip :: c.Host(j) ==> j in taken)
      && (r.Some? ==> c.Host(r.value) && r.value !in taken
                      && forall j: Ip :: c.Host(j) && j < r.value ==> j in taken)
    ensures c.prefix <= 30 && |taken| < c.Size() - 3 ==> Available(c, taken).Some?
  {
    var r := Available(c, taken);
    if r.None? && c.prefix <= 30 {
      SubsetSize(Interval(c.network + 2, c.Broadcast()), taken);
    }
  }

  // ----- registration

  /** The entry written for a device that is new or moves to another address. */
  function NewEntry(ip: Ip, rid: nat, version: nat, stats: StatsId): DeviceEntry {
    DeviceEntry(Some(ip), rid, true, None, version, stats)
  }

  /** Writes a new entry and its index key; a bump of the version always comes with it. */
  function AddDevice(t: Table, d: DeviceId, ip: Ip, rid: nat, stats: StatsId): Table {
    t.(dataVersion := t.dataVersion + 1,
       deviceIpMap := t.deviceIpMap[ip := d],
       deviceMap := t.deviceMap[d := NewEntry(ip, rid, t.dataVersion + 1, stats)])
  }

  /** A returning device is renewed in place: its address and its counter stay. */
  function Renew(t: Table, d: DeviceId, ip: Ip, rid: nat): Table
    requires d in t.deviceMap
  {
    var e := t.deviceMap[d].(ip := Some(ip), randomId := rid, isConnected := true,
                             disconnectTime := None, dataVersion := t.dataVersion + 1);
    t.(dataVersion := t.dataVersion + 1, deviceMap := t.deviceMap[d := e])
  }

  /** The device is known and asks for nothing or for what it has. */
  predicate KeepsAddress(t: Table, req: RegRequest) {
    req.deviceId in t.deviceMap && (req.ip.None? || t.deviceMap[req.deviceId].ip == req.ip)
  }

  /** Why the requested address cannot be given to a device that does not hold it. */
  function Objection(t: Table, c: Config, ip: Ip): Option<RegError>
    requires c.Valid()
  {
    if ip == c.Gateway() then Some(GatewayIp)
    else if !c.Contains(ip) then Some(OutsideNet)
    else if ip in t.deviceIpMap then Some(DuplicateIp)
    else None
  }

  function OldIp(t: Table, d: DeviceId): Option<Ip> {
    if d in t.deviceMap then t.deviceMap[d].ip else None
  }

  /** The request is served by the scan although it names a device or an address: the wish was
      not possible and may be varied, or there was no wish. */
  predicate FallsThrough(t: Table, c: Config, req: RegRequest)
    requires c.Valid()
  {
    && !KeepsAddress(t, req)
    && (req.ip.Some? ==> req.ipVariable && Objection(t, c, req.ip.value).Some?)
  }

  /** A known device that keeps its address, or gets one from the scan if it has none. */
  function AllocateKeep(t: Table, c: Config, d: DeviceId, rid: nat): Result<Grant, RegError>
    requires c.Valid() && d in t.deviceMap
  {
    match t.deviceMap[d].ip
    case Some(ip) => Ok(Grant(Renew(t, d, ip, rid), ip, None))
    case None =>
      match Available(c, t.deviceIpMap.Keys)
      case None => Err(Exhausted)
      case Some(ip) =>
        var t' := Renew(t, d, ip, rid);
        Ok(Grant(t'.(deviceIpMap := t'.deviceIpMap[ip := d]), ip, None))
  }

  /** The scan serves the device; the key of its previous address is left in the index. */
  function AllocateScan(t: Table, c: Config, d: DeviceId, rid: nat, stats: StatsId): Result<Grant, RegError>
    requires c.Valid()
  {
    match Available(c, t.deviceIpMap.Keys)
    case None => Err(Exhausted)
    case Some(ip) => Ok(Grant(AddDevice(t, d, ip, rid, stats), ip, OldIp(t, d)))
  }

  /** The device gets the address it names; the key of its previous address is dropped. */
  function AllocateNamed(t: Table, c: Config, d: DeviceId, ip: Ip, rid: nat, stats: StatsId): Result<Grant, RegError>
    requires c.Valid()
  {
    match Objection(t, c, ip)
    case Some(e) => Err(e)
    case None =>
      var previous := OldIp(t, d);
      var t' := if previous.Some? then t.(deviceIpMap := t.deviceIpMap - {previous.value}) else t;
      Ok(Grant(AddDevice(t', d, ip, rid, stats), ip, previous))
  }

  function Allocate(t: Table, c: Config, req: RegRequest, rid: nat, stats: StatsId): Result<Grant, RegError>
    requires c.Valid()
  {
    if KeepsAddress(t, req) then AllocateKeep(t, c, req.deviceId, rid)
    else if FallsThrough(t, c, req) then AllocateScan(t, c, req.deviceId, rid, stats)
    else AllocateNamed(t, c, req.deviceId, req.ip.value, rid, stats)
  }

  /** Allocation together with the two session maps. */
  function Register(t: Table, c: Config, req: RegRequest, rid: nat, sender: Sender, stats: StatsId)
    : Result<Grant, RegError>
    requires c.Valid()
  {
    match Allocate(t, c, req, rid, stats)
    case Err(e) => Err(e)
    case Ok(g) => Ok(g.(table := WithSession(t, g, req.deviceId, sender)))
  }

  /** Moves the device's session maps from its previous address to the granted one. */
  function WithSession(t: Table, g: Grant, d: DeviceId, sender: Sender): Table {
    var gone := if g.previous.Some? then {g.previous.value} else {};
    var counters := t.statsMap - gone;
    g.table.(senderMap := (t.senderMap - gone)[g.ip := sender],
             statsMap := if d in g.table.deviceMap then counters[g.ip := g.table.deviceMap[d].stats] else counters)
  }

  // ----- the end of a session, of a lease, of a device

  /** The session (device, ip, rid) is the one the entry belongs to. */
  predicate Owns(t: Table, d: DeviceId, ip: Ip, rid: nat) {
    Has(t, d, ip) && t.deviceMap[d].randomId == rid
  }

  function Offline(t: Table, d: DeviceId, ip: Ip, rid: nat, now: nat): Table {
    if !Owns(t, d, ip, rid) then t else
    var e := t.deviceMap[d].(dataVersion := t.dataVersion + 1, isConnected := false, disconnectTime := Some(now));
    Table(t.dataVersion + 1, t.deviceMap[d := e], t.deviceIpMap, t.senderMap - {ip}, t.statsMap - {ip})
  }

  function ReleasePre(t: Table, d: DeviceId, ip: Ip, rid: nat): Table {
    if !Owns(t, d, ip, rid) then t else
    Table(t.dataVersion + 1, t.deviceMap - {d}, t.deviceIpMap - {ip}, t.senderMap - {ip}, t.statsMap - {ip})
  }

  function RemoveDevice(t: Table, d: DeviceId): Table {
    if d !in t.deviceMap then t else
    var gone := if t.deviceMap[d].ip.Some? then {t.deviceMap[d].ip.value} else {};
    Table(t.dataVersion + 1, t.deviceMap - {d}, t.deviceIpMap - gone, t.senderMap - gone, t.statsMap - gone)
  }

  predicate Expired(e: DeviceEntry, lease: nat, now: nat) {
    !e.isConnected && e.disconnectTime.Some? && e.disconnectTime.value + lease <= now
  }

  function ExpiredDevices(t: Table, lease: nat, now: nat): set<DeviceId> {
    set d | d in t.deviceMap && Expired(t.deviceMap[d], lease, now)
  }

  /** The addresses held by a set of devices. */
  function HeldBy(t: Table, ds: set<DeviceId>): set<Ip> {
    set d | d in ds && d in t.deviceMap && t.deviceMap[d].ip.Some? :: t.deviceMap[d].ip.value
  }

  /** Removing a batch touches the device map and the index only, not the session maps. */
  function RemoveDevices(t: Table, ds: set<DeviceId>): Table {
    if ds == {} then t else
    t.(dataVersion := t.dataVersion + 1,
       deviceMap := t.deviceMap - ds,
       deviceIpMap := t.deviceIpMap - HeldBy(t, ds))
  }

  // ----- what every table keeps

  /** Each device's address is usable and indexes back to the device. */
  predicate Indexed(t: Table, c: Config)
    requires c.Valid()
  {
    forall d :: d in t.deviceMap && t.deviceMap[d].ip.Some? ==>
      var ip := t.deviceMap[d].ip.value;
      c.Usable(ip) && ip in t.deviceIpMap && t.deviceIpMap[ip] == d
  }

  /** Connection flag, address, lease clock and stamp of one entry agree. */
  predicate EntryOk(t: Table, e: DeviceEntry) {
    && (e.isConnected ==> e.ip.Some? && e.disconnectTime.None? && e.dataVersion > 0)
    && (!e.isConnected ==> e.disconnectTime.Some?)
    && e.dataVersion <= t.dataVersion
  }

  predicate Online(t: Table, ip: Ip) {
    exists d :: d in t.deviceMap && t.deviceMap[d].isConnected && t.deviceMap[d].ip == Some(ip)
  }

  /** The two session maps have exactly the addresses of connected devices as keys, and each
      connected device's counter is the one in the map. */
  predicate SessionMapsAgree(t: Table) {
    && (forall ip :: ip in t.senderMap <==> Online(t, ip))
    && (forall ip :: ip in t.statsMap <==> Online(t, ip))
    && (forall d :: d in t.deviceMap ==> CounterShared(t, t.deviceMap[d]))
  }

  predicate CounterShared(t: Table, e: DeviceEntry) {
    e.isConnected && e.ip.Some? && e.ip.value in t.statsMap ==> t.statsMap[e.ip.value] == e.stats
  }

  predicate TableInv(t: Table, c: Config)
    requires c.Valid()
  {
    && Indexed(t, c)
    && (forall d :: d in t.deviceMap ==> EntryOk(t, t.deviceMap[d]))
    && SessionMapsAgree(t)
  }

  /** No two devices hold one address. */
  lemma OneHolder(t: Table, c: Config, d: DeviceId, e: DeviceId, ip: Ip)
    requires c.Valid() && Indexed(t, c)
    requires Has(t, d, ip) && Has(t, e, ip)
    ensures d == e
  {
    assert t.deviceIpMap[ip] == d;
  }

  // ----- preservation, one operation at a time

  /** What a granted registration of `d` leaves in the device map and the index, whichever branch
      served it: one entry is written, connected, under a fresh stamp; its address is usable and
      nobody else's; apart from that address the index changes at most at the previous one. */
  predicate Placed(t: Table, u: Table, c: Config, d: DeviceId, ip: Ip, previous: Option<Ip>, rid: nat)
    requires c.Valid()
  {
    && u.dataVersion == t.dataVersion + 1
    && Owns(u, d, ip, rid)
    && u.deviceMap == t.deviceMap[d := u.deviceMap[d]]
    && u.deviceMap[d].isConnected && u.deviceMap[d].disconnectTime.None?
    && u.deviceMap[d].dataVersion == u.dataVersion
    && c.Usable(ip)
    && ip in u.deviceIpMap && u.deviceIpMap[ip] == d
    && (forall j :: j in t.deviceIpMap && j != ip && Some(j) != previous ==>
          j in u.deviceIpMap && u.deviceIpMap[j] == t.deviceIpMap[j])
    && (ip in t.deviceIpMap ==> Has(t, d, ip))
    && (previous.Some? ==> Has(t, d, previous.value) && previous.value != ip)
    && (previous.None? && OldIp(t, d).Some? ==> Has(t, d, ip))
  }

  lemma KeepPlaces(t: Table, c: Config, d: DeviceId, rid: nat)
    requires c.Valid() && Indexed(t, c) && d in t.deviceMap
    requires AllocateKeep(t, c, d, rid).Ok?
    ensures var g := AllocateKeep(t, c, d, rid).value; Placed(t, g.table, c, d, g.ip, g.previous, rid)
  {
  }

  lemma ScanPlaces(t: Table, c: Config, d: DeviceId, rid: nat, stats: StatsId)
    requires c.Valid() && Indexed(t, c)
    requires AllocateScan(t, c, d, rid, stats).Ok?
    ensures var g := AllocateScan(t, c, d, rid, stats).value; Placed(t, g.table, c, d, g.ip, g.previous, rid)
  {
  }

  lemma NamedPlaces(t: Table, c: Config, d: DeviceId, ip: Ip, rid: nat, stats: StatsId)
    requires c.Valid() && Indexed(t, c)
    requires AllocateNamed(t, c, d, ip, rid, stats).Ok?
    ensures var g := AllocateNamed(t, c, d, ip, rid, stats).value; Placed(t, g.table, c, d, g.ip, g.previous, rid)
  {
  }

  lemma AllocatePlaces(t: Table, c: Config, req: RegRequest, rid: nat, stats: StatsId)
    requires c.Valid() && Indexed(t, c)
    requires Allocate(t, c, req, rid, stats).Ok?
    ensures var g := Allocate(t, c, req, rid, stats).value;
      Placed(t, g.table, c, req.deviceId, g.ip, g.previous, rid)
  {
    if KeepsAddress(t, req) {
      KeepPlaces(t, c, req.deviceId, rid);
    } else if FallsThrough(t, c, req) {
      ScanPlaces(t, c, req.deviceId, rid, stats);
    } else {
      NamedPlaces(t, c, req.deviceId, req.ip.value, rid, stats);
    }
  }

  lemma PlacedKeepsIndex(t: Table, u: Table, c: Config, d: DeviceId, ip: Ip, previous: Option<Ip>, rid: nat)
    requires c.Valid() && Indexed(t, c)
    requires Placed(t, u, c, d, ip, previous, rid)
    ensures Indexed(u, c)
    ensures forall e :: e in t.deviceMap && e != d ==> t.deviceMap[e].ip != Some(ip)
  {
    forall e | e in t.deviceMap && e != d && t.deviceMap[e].ip.Some?
      ensures var j := t.deviceMap[e].ip.value; j != ip && Some(j) != previous
    {
      var j := t.deviceMap[e].ip.value;
      assert t.deviceIpMap[j] == e;
    }
  }

  lemma PlacedOnline(t: Table, u: Table, c: Config, d: DeviceId, ip: Ip, previous: Option<Ip>, rid: nat, j: Ip)
    requires c.Valid() && Indexed(t, c)
    requires Placed(t, u, c, d, ip, previous, rid)
    ensures Online(u, j) <==> j == ip || (Online(t, j) && Some(j) != previous)
  {
    PlacedKeepsIndex(t, u, c, d, ip, previous, rid);
    assert Has(u, d, ip);
    if j != ip && Online(t, j) && Some(j) != previous {
      var e :| e in t.deviceMap && t.deviceMap[e].isConnected && t.deviceMap[e].ip == Some(j);
      assert e != d && u.deviceMap[e] == t.deviceMap[e];
    }
    if Online(u, j) && j != ip {
      var e :| e in u.deviceMap && u.deviceMap[e].isConnected && u.deviceMap[e].ip == Some(j);
      assert e != d && t.deviceMap[e] == u.deviceMap[e];
      assert t.deviceIpMap[j] == e;
    }
  }

  lemma SessionFollowsGrant(t: Table, c: Config, g: Grant, d: DeviceId, rid: nat, sender: Sender)
    requires c.Valid() && Indexed(t, c) && SessionMapsAgree(t)
    requires Placed(t, g.table, c, d, g.ip, g.previous, rid)
    ensures SessionMapsAgree(WithSession(t, g, d, sender))
  {
    var u := WithSession(t, g, d, sender);
    PlacedKeepsIndex(t, g.table, c, d, g.ip, g.previous, rid);
    forall j ensures Online(u, j) <==> j in u.senderMap {
      PlacedOnline(t, g.table, c, d, g.ip, g.previous, rid, j);
      assert Online(u, j) == Online(g.table, j);
    }
    CountersFollowGrant(t, c, g, d, rid, sender);
  }

  lemma CountersFollowGrant(t: Table, c: Config, g: Grant, d: DeviceId, rid: nat, sender: Sender)
    requires c.Valid() && Indexed(t, c) && SessionMapsAgree(t)
    requires Placed(t, g.table, c, d, g.ip, g.previous, rid)
    ensures var u := WithSession(t, g, d, sender);
      && u.statsMap.Keys == u.senderMap.Keys
      && forall e :: e in u.deviceMap ==> CounterShared(u, u.deviceMap[e])
  {
    var u := WithSession(t, g, d, sender);
    forall j ensures j in t.senderMap <==> j in t.statsMap { assert j in t.senderMap <==> Online(t, j); }
    forall e | e in u.deviceMap && e != d ensures CounterShared(u, u.deviceMap[e]) {
      assert CounterShared(t, t.deviceMap[e]);
    }
  }

  lemma RegisterKeepsInv(t: Table, c: Config, req: RegRequest, rid: nat, sender: Sender, stats: StatsId)
    requires c.Valid() && TableInv(t, c)
    requires Register(t, c, req, rid, sender, stats).Ok?
    ensures var g := Register(t, c, req, rid, sender, stats).value;
      && TableInv(g.table, c)
      && Placed(t, g.table, c, req.deviceId, g.ip, g.previous, rid)
      && g.ip in g.table.senderMap && g.table.senderMap[g.ip] == sender
  {
    AllocatePlaces(t, c, req, rid, stats);
    var g := Allocate(t, c, req, rid, stats).value;
    PlacedKeepsIndex(t, g.table, c, req.deviceId, g.ip, g.previous, rid);
    SessionFollowsGrant(t, c, g, req.deviceId, rid, sender);
  }

  lemma OfflineKeepsInv(t: Table, c: Config, d: DeviceId, ip: Ip, rid: nat, now: nat)
    requires c.Valid() && TableInv(t, c)
    ensures TableInv(Offline(t, d, ip, rid, now), c)
  {
    if Owns(t, d, ip, rid) {
      OfflineSessions(t, c, d, ip, rid, now);
    }
  }

  lemma OfflineSessions(t: Table, c: Config, d: DeviceId, ip: Ip, rid: nat, now: nat)
    requires c.Valid() && TableInv(t, c) && Owns(t, d, ip, rid)
    ensures SessionMapsAgree(Offline(t, d, ip, rid, now))
  {
    var u := Offline(t, d, ip, rid, now);
    forall j ensures Online(u, j) <==> Online(t, j) && j != ip {
      LeavesOnline(t, u, c, {d}, j);
    }
    forall e | e in u.deviceMap && e != d ensures CounterShared(u, u.deviceMap[e]) {
      assert CounterShared(t, t.deviceMap[e]);
    }
  }

  /** Taking devices out of the connected set takes exactly their addresses out of the online set. */
  lemma LeavesOnline(t: Table, u: Table, c: Config, ds: set<DeviceId>, j: Ip)
    requires c.Valid() && Indexed(t, c)
    requires forall e :: e !in ds ==> (e in u.deviceMap <==> e in t.deviceMap)
    requires forall e :: e !in ds && e in t.deviceMap ==> u.deviceMap[e] == t.deviceMap[e]
    requires forall e :: e in ds ==> !Connected(u, e)
    ensures Online(u, j) <==> Online(t, j) && j !in HeldBy(t, ds)
  {
    if Online(u, j) {
      var e :| e in u.deviceMap && u.deviceMap[e].isConnected && u.deviceMap[e].ip == Some(j);
      assert Connected(u, e) && e in t.deviceMap;
      assert t.deviceIpMap[j] == e;
    }
    if Online(t, j) && j !in HeldBy(t, ds) {
      var e :| e in t.deviceMap && t.deviceMap[e].isConnected && t.deviceMap[e].ip == Some(j);
      assert e !in ds && e in u.deviceMap;
    }
  }

  lemma RemoveDeviceKeepsInv(t: Table, c: Config, d: DeviceId)
    requires c.Valid() && TableInv(t, c)
    ensures TableInv(RemoveDevice(t, d), c)
  {
    var u := RemoveDevice(t, d);
    if d in t.deviceMap {
      forall e | e in u.deviceMap && u.deviceMap[e].ip.Some?
        ensures t.deviceMap[e].ip != t.deviceMap[d].ip
      {
        if t.deviceMap[e].ip == t.deviceMap[d].ip { OneHolder(t, c, d, e, t.deviceMap[d].ip.value); }
      }
      forall j: Ip ensures Online(u, j) <==> Online(t, j) && t.deviceMap[d].ip != Some(j) {
        LeavesOnline(t, u, c, {d}, j);
      }
      forall e | e in u.deviceMap ensures CounterShared(u, u.deviceMap[e]) {
        assert CounterShared(t, t.deviceMap[e]);
      }
    }
  }

  lemma ReleaseIsRemoval(t: Table, d: DeviceId, ip: Ip, rid: nat)
    ensures ReleasePre(t, d, ip, rid) == if Owns(t, d, ip, rid) then RemoveDevice(t, d) else t
  {
  }

  lemma RemoveDevicesKeepsIndex(t: Table, c: Config, ds: set<DeviceId>)
    requires c.Valid() && Indexed(t, c)
    ensures Indexed(RemoveDevices(t, ds), c)
  {
    forall e | e in RemoveDevices(t, ds).deviceMap && t.deviceMap[e].ip.Some? && ds != {}
      ensures t.deviceMap[e].ip.value !in HeldBy(t, ds)
    {
      assert t.deviceIpMap[t.deviceMap[e].ip.value] == e;
    }
  }

  /** A batch removal leaves the session maps alone, so they still agree afterwards if and only if
      nobody in the batch is connected. */
  lemma RemoveDevicesKeepsInvIff(t: Table, c: Config, ds: set<DeviceId>)
    requires c.Valid() && TableInv(t, c)
    ensures TableInv(RemoveDevices(t, ds), c) <==> forall d :: d in ds ==> !Connected(t, d)
  {
    var u := RemoveDevices(t, ds);
    RemoveDevicesKeepsIndex(t, c, ds);
    forall j ensures Online(u, j) <==> Online(t, j) && j !in HeldBy(t, ds) {
      LeavesOnline(t, u, c, ds, j);
    }
    if d :| d in ds && Connected(t, d) {
      var ip := t.deviceMap[d].ip.value;
      assert EntryOk(t, t.deviceMap[d]) && ip in HeldBy(t, ds);
      assert Online(t, ip) && !Online(u, ip) && ip in u.senderMap;
    } else {
      forall j | Online(t, j) ensures j !in HeldBy(t, ds) {
        var e :| e in t.deviceMap && t.deviceMap[e].isConnected && t.deviceMap[e].ip == Some(j);
        assert t.deviceIpMap[j] == e;
        assert Connected(t, e);
      }
      forall e | e in u.deviceMap ensures CounterShared(u, u.deviceMap[e]) {
        assert CounterShared(t, t.deviceMap[e]);
      }
    }
  }

  /** Removing the one connected device of a table in a batch leaves its channel behind. */
  lemma RemovedWhileConnectedExample()
    ensures var c := Config(0, 24, 10);
      var e := DeviceEntry(Some(2), 1, true, None, 1, 1);
      var t := Table(1, map["a" := e], map[2 := "a"], map[2 := 1], map[2 := 1]);
      && c.Valid() && TableInv(t, c) && !TableInv(RemoveDevices(t, {"a"}), c)
      && RemoveDevices(t, {"a"}).deviceMap == map[] && 2 in RemoveDevices(t, {"a"}).senderMap
  {
    var c := Config(0, 24, 10);
    var e := DeviceEntry(Some(2), 1, true, None, 1, 1);
    var t := Table(1, map["a" := e], map[2 := "a"], map[2 := 1], map[2 := 1]);
    assert c.Size() == 256;
    forall ip ensures Online(t, ip) <==> ip == 2 {
      assert t.deviceMap["a"] == e;
    }
    assert Connected(t, "a") && "a" in {"a"};
    RemoveDevicesKeepsInvIff(t, c, {"a"});
  }

  /** Expiry only collects disconnected devices. */
  lemma ExpiryKeepsInv(t: Table, c: Config, now: nat)
    requires c.Valid() && TableInv(t, c)
    ensures TableInv(RemoveDevices(t, ExpiredDevices(t, c.lease, now)), c)
  {
    RemoveDevicesKeepsInvIff(t, c, ExpiredDevices(t, c.lease, now));
  }

  // ----- the converse index

  /** Every key of the index is held by the device it names. */
  predicate IndexExact(t: Table) {
    forall ip :: ip in t.deviceIpMap ==> Has(t, t.deviceIpMap[ip], ip)
  }

  /** The index stays exact through a registration if and only if the request is not one by which
      a device that already has an address is served another one by the scan. */
  lemma RegisterKeepsIndexExactIff(t: Table, c: Config, req: RegRequest, rid: nat, sender: Sender, stats: StatsId)
    requires c.Valid() && Indexed(t, c) && IndexExact(t)
    requires Register(t, c, req, rid, sender, stats).Ok?
    ensures IndexExact(Register(t, c, req, rid, sender, stats).value.table)
       <==> !(FallsThrough(t, c, req) && OldIp(t, req.deviceId).Some?)
  {
    var g := Register(t, c, req, rid, sender, stats).value;
    var u, d := g.table, req.deviceId;
    AllocatePlaces(t, c, req, rid, stats);
    if FallsThrough(t, c, req) && OldIp(t, d).Some? {
      var stale := OldIp(t, d).value;
      assert Has(t, d, stale) && t.deviceIpMap[stale] == d;
      assert stale in u.deviceIpMap && u.deviceIpMap[stale] == d && !Has(u, d, stale);
    } else {
      forall ip | ip in u.deviceIpMap && ip != g.ip ensures Has(u, u.deviceIpMap[ip], ip) {
        assert ip in t.deviceIpMap && u.deviceIpMap[ip] == t.deviceIpMap[ip];
        assert Has(t, t.deviceIpMap[ip], ip);
      }
    }
  }

  /** One request that leaves a key behind: device "a" holds .2, wishes for the gateway, and is
      moved to .3 while .2 still indexes it. */
  lemma StaleKeyExample()
    ensures exists t: Table, c: Config, req: RegRequest ::
      c.Valid() && TableInv(t, c) && IndexExact(t) && Register(t, c, req, 2, 2, 2).Ok?
      && !IndexExact(Register(t, c, req, 2, 2, 2).value.table)
  {
    var c := Config(0, 24, 10);
    var e := DeviceEntry(Some(2), 1, false, Some(0), 0, 1);
    var t := Table(0, map["a" := e], map[2 := "a"], map[], map[]);
    var req := RegRequest("a", Some(1), true);
    assert c.Size() == 256;
    assert FallsThrough(t, c, req) && OldIp(t, "a") == Some(2);
    AvailableIsLeastFreeHost(c, t.deviceIpMap.Keys);
    assert c.Host(3) && 3 !in t.deviceIpMap;
    RegisterKeepsIndexExactIff(t, c, req, 2, 2, 2);
  }
}
