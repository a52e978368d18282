/** The control server of one network as a state machine.

A server is its lease table, its live sessions and its clock.  Sessions are named by the
random id drawn at registration; an id is never drawn twice.  Every operation of the server
on the table is one step; runs are sequences of steps. */
module Sessions {
  import opened Base
  import opened LeaseState
  import opened Loader

  datatype Status = Pending | Confirmed

  datatype Session = Session(deviceId: DeviceId, ip: Ip, sender: Sender, status: Status)

  /** `used` is the set of random ids drawn so far; loaded entries carry the id 0. */
  datatype Server = Server(table: Table, sessions: map<nat, Session>, used: set<nat>, now: nat)

  datatype Action =
    | Reg(req: RegRequest, preRegister: bool, rid: nat, sender: Sender, stats: StatsId)
    | Confirm(rid: nat, saved: bool)
    | Drop(rid: nat)
    | Expire
    | Delete(device: DeviceId)
    | Tick(dt: nat)

  /** The only assumption on the environment: random ids are fresh. */
  predicate Enabled(s: Server, a: Action) {
    a.Reg? ==> a.rid !in s.used
  }

  /** Opens the session of a granted registration; a refusal changes nothing. */
  function Registered(c: Config, s: Server, a: Action): Server
    requires c.Valid() && a.Reg?
  {
    var drawn := s.(used := s.used + {a.rid});
    match LeaseState.Register(s.table, c, a.req, a.rid, a.sender, a.stats)
    case Err(_) => drawn
    case Ok(g) =>
      var status := if a.preRegister then Pending else Confirmed;
      drawn.(table := g.table,
             sessions := s.sessions[a.rid := Session(a.req.deviceId, g.ip, a.sender, status)])
  }

  /** A pending session becomes confirmed once its record is saved. */
  function ConfirmedBy(s: Server, rid: nat, saved: bool): Server {
    if rid in s.sessions && s.sessions[rid].status == Pending && saved
    then s.(sessions := s.sessions[rid := s.sessions[rid].(status := Confirmed)])
    else s
  }

  /** The end of a session: a confirmed one goes offline, a pending one is released. */
  function Dropped(s: Server, rid: nat): Server {
    if rid !in s.sessions then s else
    var x := s.sessions[rid];
    var t := match x.status
      case Confirmed => Offline(s.table, x.deviceId, x.ip, rid, s.now)
      case Pending => ReleasePre(s.table, x.deviceId, x.ip, rid);
    s.(table := t, sessions := s.sessions - {rid})
  }

  function Next(c: Config, s: Server, a: Action): Server
    requires c.Valid()
  {
    match a
    case Reg(_, _, _, _, _) => Registered(c, s, a)
    case Confirm(rid, saved) => ConfirmedBy(s, rid, saved)
    case Drop(rid) => Dropped(s, rid)
    case Expire => s.(table := RemoveDevices(s.table, ExpiredDevices(s.table, c.lease, s.now)))
    case Delete(d) => if Connected(s.table, d) then s else s.(table := RemoveDevice(s.table, d))
    case Tick(dt) => s.(now := s.now + dt)
  }

  // ----- the invariant of the server

  /** The entry of a connected device belongs to a live session that agrees with it and whose
      channel is the one packets for the address go to; a disconnected entry to none. */
  predicate Matched(s: Server, d: DeviceId)
    requires d in s.table.deviceMap
  {
    var e := s.table.deviceMap[d];
    && e.randomId in s.used
    && (e.isConnected ==>
          && e.ip.Some? && e.ip.value in s.table.senderMap && e.randomId in s.sessions
          && s.sessions[e.randomId].deviceId == d
          && s.sessions[e.randomId].ip == e.ip.value
          && s.sessions[e.randomId].sender == s.table.senderMap[e.ip.value])
    && (!e.isConnected ==>
          && e.randomId !in s.sessions
          && e.disconnectTime.Some? && e.disconnectTime.value <= s.now)
  }

  predicate SessionsMatch(s: Server) {
    && 0 in s.used && 0 !in s.sessions
    && s.sessions.Keys <= s.used
    && forall d :: d in s.table.deviceMap ==> Matched(s, d)
  }

  predicate ServerInv(c: Config, s: Server)
    requires c.Valid()
  {
    TableInv(s.table, c) && SessionsMatch(s)
  }

  lemma StartKeepsInv(c: Config, rs: seq<Record>, now: nat)
    requires c.Valid() && DistinctDevices(rs) && GoodRecords(c, rs)
    ensures ServerInv(c, Server(Loaded(c, rs, now), map[], {0}, now))
  {
    LoadedInvIff(c, rs, now);
    LoadedEntries(c, rs, now);
  }

  lemma RegKeepsInv(c: Config, s: Server, a: Action)
    requires c.Valid() && ServerInv(c, s) && a.Reg? && Enabled(s, a)
    ensures ServerInv(c, Next(c, s, a))
  {
    var r := LeaseState.Register(s.table, c, a.req, a.rid, a.sender, a.stats);
    var s' := Next(c, s, a);
    if r.Ok? {
      var t, g, d := s.table, r.value, a.req.deviceId;
      RegisterKeepsInv(t, c, a.req, a.rid, a.sender, a.stats);
      PlacedKeepsIndex(t, g.table, c, d, g.ip, g.previous, a.rid);
      forall e | e in s'.table.deviceMap && e != d ensures Matched(s', e) {
        assert Matched(s, e) && s'.table.deviceMap[e] == t.deviceMap[e];
        if g.previous.Some? && t.deviceMap[e].ip == g.previous { OneHolder(t, c, d, e, g.previous.value); }
      }
    } else {
      forall e | e in s'.table.deviceMap ensures Matched(s', e) {
        assert Matched(s, e);
      }
    }
  }

  lemma ConfirmKeepsInv(c: Config, s: Server, rid: nat, saved: bool)
    requires c.Valid() && ServerInv(c, s)
    ensures ServerInv(c, ConfirmedBy(s, rid, saved))
  {
    var s' := ConfirmedBy(s, rid, saved);
    forall e | e in s'.table.deviceMap ensures Matched(s', e) {
      assert Matched(s, e);
    }
  }

  /** Dropping a session that owns its entry affects that device alone; any other drop does not
      touch the table at all. */
  lemma DropIsLocal(c: Config, s: Server, rid: nat)
    requires c.Valid() && ServerInv(c, s) && rid in s.sessions
    ensures var x := s.sessions[rid];
      Dropped(s, rid).table == s.table <==>
      !(x.deviceId in s.table.deviceMap && s.table.deviceMap[x.deviceId].randomId == rid)
    ensures forall e :: e != s.sessions[rid].deviceId ==>
      (e in Dropped(s, rid).table.deviceMap <==> e in s.table.deviceMap)
    ensures forall e :: e != s.sessions[rid].deviceId && e in s.table.deviceMap ==>
      Dropped(s, rid).table.deviceMap[e] == s.table.deviceMap[e]
  {
    var x := s.sessions[rid];
    if x.deviceId in s.table.deviceMap && s.table.deviceMap[x.deviceId].randomId == rid {
      assert Matched(s, x.deviceId);
      assert Owns(s.table, x.deviceId, x.ip, rid);
      assert Dropped(s, rid).table.dataVersion == s.table.dataVersion + 1;
    }
  }

  lemma DropKeepsInv(c: Config, s: Server, rid: nat)
    requires c.Valid() && ServerInv(c, s)
    ensures ServerInv(c, Dropped(s, rid))
  {
    if rid in s.sessions {
      var x, s' := s.sessions[rid], Dropped(s, rid);
      OfflineKeepsInv(s.table, c, x.deviceId, x.ip, rid, s.now);
      ReleaseIsRemoval(s.table, x.deviceId, x.ip, rid);
      RemoveDeviceKeepsInv(s.table, c, x.deviceId);
      DropIsLocal(c, s, rid);
      forall e | e in s'.table.deviceMap ensures Matched(s', e) {
        assert Matched(s, e);
        if e != x.deviceId && Owns(s.table, x.deviceId, x.ip, rid) && s.table.deviceMap[e].ip == Some(x.ip) {
          OneHolder(s.table, c, e, x.deviceId, x.ip);
        }
      }
    }
  }

  lemma ExpireKeepsInv(c: Config, s: Server)
    requires c.Valid() && ServerInv(c, s)
    ensures ServerInv(c, Next(c, s, Expire))
  {
    ExpiryKeepsInv(s.table, c, s.now);
    var s' := Next(c, s, Expire);
    forall e | e in s'.table.deviceMap ensures Matched(s', e) {
      assert Matched(s, e);
    }
  }

  lemma DeleteKeepsInv(c: Config, s: Server, d: DeviceId)
    requires c.Valid() && ServerInv(c, s)
    ensures ServerInv(c, Next(c, s, Delete(d)))
  {
    RemoveDeviceKeepsInv(s.table, c, d);
    var s' := Next(c, s, Delete(d));
    forall e | e in s'.table.deviceMap ensures Matched(s', e) {
      assert Matched(s, e);
      if e != d && d in s.table.deviceMap && s.table.deviceMap[e].ip.Some?
         && s.table.deviceMap[e].ip == s.table.deviceMap[d].ip {
        OneHolder(s.table, c, d, e, s.table.deviceMap[d].ip.value);
      }
    }
  }

  /** Every step keeps the invariant. */
  lemma NextKeepsInv(c: Config, s: Server, a: Action)
    requires c.Valid() && ServerInv(c, s) && Enabled(s, a)
    ensures ServerInv(c, Next(c, s, a))
  {
    match a
    case Reg(_, _, _, _, _) => RegKeepsInv(c, s, a);
    case Confirm(rid, saved) => ConfirmKeepsInv(c, s, rid, saved);
    case Drop(rid) => DropKeepsInv(c, s, rid);
    case Expire => ExpireKeepsInv(c, s);
    case Delete(d) => DeleteKeepsInv(c, s, d);
    case Tick(dt) =>
      forall e | e in s.table.deviceMap ensures Matched(Next(c, s, a), e) {
        assert Matched(s, e);
      }
  }
}
