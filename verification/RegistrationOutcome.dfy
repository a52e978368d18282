/** What a registration, the end of its session and the end of a lease come to, in terms of the
tables alone. */
module RegistrationOutcomes {
  import opened Base
  import opened LeaseState
  import opened ClientList
  import opened Sessions

  /** A host address that no index key takes: not the two ends of the subnet, not the gateway. */
  predicate FreeHost(t: Table, c: Config, ip: Ip)
    requires c.Valid()
  {
    c.network < ip < c.network + c.Size() - 1 && ip != c.network + 1 && ip !in t.deviceIpMap
  }

  /** An address the device may have if it asks for it: inside the subnet, not the gateway, not taken. */
  predicate Possible(t: Table, c: Config, ip: Ip)
    requires c.Valid()
  {
    c.network <= ip < c.network + c.Size() && ip != c.network + 1 && ip !in t.deviceIpMap
  }

  /** Served by the scan: the least free host, or a refusal if there is none. */
  ghost predicate ByScan(t: Table, c: Config, r: Result<Grant, RegError>)
    requires c.Valid()
  {
    match r
    case Ok(g) => FreeHost(t, c, g.ip) && forall j: Ip :: FreeHost(t, c, j) ==> g.ip <= j
    case Err(e) => e == Exhausted && forall j: Ip :: !FreeHost(t, c, j)
  }

  lemma ScanServes(t: Table, c: Config, d: DeviceId, rid: nat, stats: StatsId)
    requires c.Valid()
    ensures ByScan(t, c, AllocateScan(t, c, d, rid, stats))
    ensures d in t.deviceMap && t.deviceMap[d].ip.None? ==> ByScan(t, c, AllocateKeep(t, c, d, rid))
  {
    AvailableIsLeastFreeHost(c, t.deviceIpMap.Keys);
    forall j: Ip ensures FreeHost(t, c, j) <==> c.Host(j) && j !in t.deviceIpMap {
    }
  }

  /** A known device that asks for nothing or for its own address keeps what it has, address and
      counter; with no address yet it is served by the scan. */
  lemma KnownDeviceOutcome(t: Table, c: Config, req: RegRequest, rid: nat, sender: Sender, stats: StatsId)
    requires c.Valid() && req.deviceId in t.deviceMap
    requires req.ip.None? || req.ip == t.deviceMap[req.deviceId].ip
    ensures var r, e := LeaseState.Register(t, c, req, rid, sender, stats), t.deviceMap[req.deviceId];
      && (r.Ok? ==> Has(r.value.table, req.deviceId, r.value.ip)
                    && r.value.table.deviceMap[req.deviceId].stats == e.stats)
      && (e.ip.Some? ==> r.Ok? && r.value.ip == e.ip.value)
      && (e.ip.None? ==> ByScan(t, c, r))
  {
    ScanServes(t, c, req.deviceId, rid, stats);
  }

  /** Any other request is met if it names a possible address, refused with the reason if it names
      another and insists on it, and served by the scan otherwise, so a device without a wish gets an
      address as long as a host is free; its counter is the one it brings. */
  lemma OtherRequestOutcome(t: Table, c: Config, req: RegRequest, rid: nat, sender: Sender, stats: StatsId)
    requires c.Valid()
    requires req.deviceId in t.deviceMap ==> req.ip.Some? && req.ip != t.deviceMap[req.deviceId].ip
    ensures var r := LeaseState.Register(t, c, req, rid, sender, stats);
      && (r.Ok? ==> Has(r.value.table, req.deviceId, r.value.ip)
                    && r.value.table.deviceMap[req.deviceId].stats == stats)
      && (req.ip.Some? && Possible(t, c, req.ip.value) ==> r.Ok? && r.value.ip == req.ip.value)
      && (req.ip.Some? && !Possible(t, c, req.ip.value) && !req.ipVariable ==>
            r == Err(if req.ip.value == c.network + 1 then GatewayIp
                     else if c.network <= req.ip.value < c.network + c.Size() then DuplicateIp else OutsideNet))
      && (req.ip.None? || (!Possible(t, c, req.ip.value) && req.ipVariable) ==> ByScan(t, c, r))
  {
    ScanServes(t, c, req.deviceId, rid, stats);
  }

  /** A granted registration and then the end of its session, with or without a confirmation in
      between: the device keeps its address, its counter and a lease from that moment on if and only
      if it registered normally or the confirmation was saved; else nothing of it is left. */
  lemma SessionEndIff(c: Config, s: Server, a: Action, saved: bool)
    requires c.Valid() && ServerInv(c, s) && a.Reg? && Enabled(s, a)
    requires LeaseState.Register(s.table, c, a.req, a.rid, a.sender, a.stats).Ok?
    ensures var d, g := a.req.deviceId, LeaseState.Register(s.table, c, a.req, a.rid, a.sender, a.stats).value;
      var u := Next(c, Next(c, Next(c, s, a), Confirm(a.rid, saved)), Drop(a.rid));
      && a.rid !in u.sessions
      && (Has(u.table, d, g.ip) <==> !a.preRegister || saved)
      && (!a.preRegister || saved ==>
            u.table.deviceMap[d] == g.table.deviceMap[d].(isConnected := false, disconnectTime := Some(s.now),
                                                          dataVersion := g.table.dataVersion + 1))
      && (a.preRegister && !saved ==> d !in u.table.deviceMap && g.ip !in u.table.deviceIpMap)
  {
    AllocatePlaces(s.table, c, a.req, a.rid, a.stats);
  }

  /** What a poll of a session is answered: a confirmed one for its own address, any other not at all. */
  ghost predicate PollAnswered(s: Server, rid: nat, version: nat, r: Option<Reply>) {
    if rid in s.sessions && s.sessions[rid].status == Confirmed
    then AnswersPoll(s.table, s.sessions[rid].ip, version, r)
    else r.None?
  }

  /** Right after a granted registration a poll is answered for the granted address if the device
      registered normally, and not at all if the confirmation is still to come. */
  lemma PollAfterRegister(c: Config, s: Server, a: Action, version: nat, r: Option<Reply>)
    requires c.Valid() && a.Reg? && LeaseState.Register(s.table, c, a.req, a.rid, a.sender, a.stats).Ok?
    requires PollAnswered(Next(c, s, a), a.rid, version, r)
    ensures var g := LeaseState.Register(s.table, c, a.req, a.rid, a.sender, a.stats).value;
      if a.preRegister then r.None? else AnswersPoll(g.table, g.ip, version, r)
  {
  }

  /** Clean-up takes exactly the devices whose lease is over: disconnected for as long as the lease. */
  lemma ExpiryIsExact(c: Config, s: Server, d: DeviceId)
    requires c.Valid() && ServerInv(c, s) && d in s.table.deviceMap
    ensures var e, t := s.table.deviceMap[d], Next(c, s, Expire).table;
      && (d !in t.deviceMap <==>
            !e.isConnected && e.disconnectTime.Some? && s.now >= e.disconnectTime.value + c.lease)
      && (d !in t.deviceMap && e.ip.Some? ==> e.ip.value !in t.deviceIpMap)
      && (d in t.deviceMap ==> t.deviceMap[d] == e)
  {
    var e, gone := s.table.deviceMap[d], ExpiredDevices(s.table, c.lease, s.now);
    assert d in gone <==> !e.isConnected && e.disconnectTime.Some? && s.now >= e.disconnectTime.value + c.lease;
    if d in gone && e.ip.Some? {
      assert e.ip.value in HeldBy(s.table, gone);
    }
  }

  /** A deletion takes exactly the named device, unless it is connected. */
  lemma DeletionIsExact(c: Config, s: Server, d: DeviceId, e: DeviceId)
    requires c.Valid() && d in s.table.deviceMap
    ensures var t := Next(c, s, Delete(e)).table;
      && (d !in t.deviceMap <==> d == e && !s.table.deviceMap[d].isConnected)
      && (d in t.deviceMap ==> t.deviceMap[d] == s.table.deviceMap[d])
  {
  }

  /** The version counts exactly the steps that change some device's entry. */
  lemma VersionCountsChanges(c: Config, s: Server, a: Action)
    requires c.Valid() && ServerInv(c, s) && Enabled(s, a)
    ensures var t, u := s.table, Next(c, s, a).table;
      u.dataVersion == t.dataVersion + (if u.deviceMap == t.deviceMap then 0 else 1)
  {
    var t, u := s.table, Next(c, s, a).table;
    match a
    case Reg(req, _, rid, sender, stats) =>
      if LeaseState.Register(t, c, req, rid, sender, stats).Ok? {
        AllocatePlaces(t, c, req, rid, stats);
        assert req.deviceId in t.deviceMap ==> EntryOk(t, t.deviceMap[req.deviceId]);
      }
    case Drop(rid) =>
      if rid in s.sessions && Owns(t, s.sessions[rid].deviceId, s.sessions[rid].ip, rid) {
        var d := s.sessions[rid].deviceId;
        assert Matched(s, d);
        assert d !in u.deviceMap || u.deviceMap[d].isConnected != t.deviceMap[d].isConnected;
      }
    case Expire =>
      if d :| d in ExpiredDevices(t, c.lease, s.now) {
        assert d in t.deviceMap && d !in u.deviceMap;
      }
    case Delete(d) => assert d in t.deviceMap && !Connected(t, d) ==> d !in u.deviceMap;
    case _ =>
  }

  /** A lease ends: once its length has passed since the device left, the next clean-up takes it. */
  lemma LeaseEndsIff(c: Config, s: Server, d: DeviceId, dt: nat)
    requires c.Valid() && ServerInv(c, s) && d in s.table.deviceMap && !s.table.deviceMap[d].isConnected
    ensures var since := s.table.deviceMap[d].disconnectTime;
      && since.Some?
      && (d !in Next(c, Next(c, s, Tick(dt)), Expire).table.deviceMap <==> s.now + dt >= since.value + c.lease)
  {
    NextKeepsInv(c, s, Tick(dt));
    assert EntryOk(s.table, s.table.deviceMap[d]);
    ExpiryIsExact(c, Next(c, s, Tick(dt)), d);
  }
}
