/** Safety over whole runs of the control server: unique addresses, session indexes that agree,
and leases that survive whatever other devices do. */
module Leases {
  import opened Base
  import opened LeaseState
  import opened Loader
  import opened Sessions

  ghost predicate EnabledRun(c: Config, s: Server, run: seq<Action>)
    requires c.Valid()
    decreases |run|
  {
    run == [] || (Enabled(s, run[0]) && EnabledRun(c, Next(c, s, run[0]), run[1..]))
  }

  ghost function Run(c: Config, s: Server, run: seq<Action>): Server
    requires c.Valid()
    decreases |run|
  {
    if run == [] then s else Run(c, Next(c, s, run[0]), run[1..])
  }

  lemma {:induction false} RunKeepsInv(c: Config, s: Server, run: seq<Action>)
    requires c.Valid() && ServerInv(c, s) && EnabledRun(c, s, run)
    ensures ServerInv(c, Run(c, s, run))
    decreases |run|
  {
    if run != [] {
      NextKeepsInv(c, s, run[0]);
      RunKeepsInv(c, Next(c, s, run[0]), run[1..]);
    }
  }

  /** After any run from good records: addresses are usable, never shared and index back to their
      device, and both session maps have exactly the addresses of connected devices. */
  lemma ReachableIsSafe(c: Config, rs: seq<Record>, now: nat, run: seq<Action>)
    requires c.Valid() && DistinctDevices(rs) && GoodRecords(c, rs)
    requires EnabledRun(c, Server(Loaded(c, rs, now), map[], {0}, now), run)
    ensures var t := Run(c, Server(Loaded(c, rs, now), map[], {0}, now), run).table;
      && (forall d, e, ip :: Has(t, d, ip) && Has(t, e, ip) ==> d == e)
      && (forall d, ip :: Has(t, d, ip) ==> c.Usable(ip) && ip in t.deviceIpMap && t.deviceIpMap[ip] == d)
      && (forall ip :: ip in t.senderMap <==> Online(t, ip))
      && t.senderMap.Keys == t.statsMap.Keys
  {
    var s := Server(Loaded(c, rs, now), map[], {0}, now);
    StartKeepsInv(c, rs, now);
    RunKeepsInv(c, s, run);
    var t := Run(c, s, run).table;
    forall d, e, ip | Has(t, d, ip) && Has(t, e, ip) ensures d == e {
      OneHolder(t, c, d, e, ip);
    }
  }

  /** A wish for one address with no variation is granted exactly that address, and it is granted
      if and only if the device holds it already or nothing speaks against it. */
  lemma FixedWishIsExact(t: Table, c: Config, req: RegRequest, rid: nat, sender: Sender, stats: StatsId)
    requires c.Valid() && req.ip.Some? && !req.ipVariable
    ensures var r := LeaseState.Register(t, c, req, rid, sender, stats);
      && (r.Ok? <==> Has(t, req.deviceId, req.ip.value) || Objection(t, c, req.ip.value).None?)
      && (r.Ok? ==> r.value.ip == req.ip.value)
      && (r == Err(GatewayIp) ==> req.ip.value == c.Gateway())
      && (r == Err(OutsideNet) ==> !c.Contains(req.ip.value))
      && (r == Err(DuplicateIp) ==> c.Usable(req.ip.value) && req.ip.value in t.deviceIpMap)
      && r != Err(Exhausted)
  {
  }

  /** With variation allowed a wish is met if and only if it would be met without: every other
      request is served some other address, which is why servers asked in turn may differ. */
  lemma VariedWishIsMetIff(t: Table, c: Config, req: RegRequest, rid: nat, sender: Sender, stats: StatsId)
    requires c.Valid() && TableInv(t, c) && req.ip.Some? && req.ipVariable
    requires LeaseState.Register(t, c, req, rid, sender, stats).Ok?
    ensures LeaseState.Register(t, c, req, rid, sender, stats).value.ip == req.ip.value
       <==> Has(t, req.deviceId, req.ip.value) || Objection(t, c, req.ip.value).None?
  {
    AvailableIsLeastFreeHost(c, t.deviceIpMap.Keys);
  }

  // ----- leases

  /** The steps by which a device holding `ip` loses it. */
  predicate Loses(c: Config, s: Server, a: Action, d: DeviceId, ip: Ip)
    requires c.Valid() && d in s.table.deviceMap
  {
    match a
    case Reg(req, _, rid, sender, stats) =>
      req.deviceId == d && req.ip.Some? && req.ip != Some(ip)
      && LeaseState.Register(s.table, c, req, rid, sender, stats).Ok?
    case Confirm(_, _) => false
    case Drop(rid) => rid in s.sessions && s.sessions[rid].status == Pending && s.table.deviceMap[d].randomId == rid
    case Expire => Expired(s.table.deviceMap[d], c.lease, s.now)
    case Delete(e) => e == d && !s.table.deviceMap[d].isConnected
    case Tick(_) => false
  }

  lemma RegHoldsIff(c: Config, s: Server, a: Action, d: DeviceId, ip: Ip)
    requires c.Valid() && ServerInv(c, s) && a.Reg? && Enabled(s, a) && Has(s.table, d, ip)
    ensures Has(Next(c, s, a).table, d, ip) <==> !Loses(c, s, a, d, ip)
  {
    var r := LeaseState.Register(s.table, c, a.req, a.rid, a.sender, a.stats);
    if r.Ok? {
      AllocatePlaces(s.table, c, a.req, a.rid, a.stats);
    }
  }

  /** One step: the device keeps its address if and only if the step is not a losing one. */
  lemma NextHoldsIff(c: Config, s: Server, a: Action, d: DeviceId, ip: Ip)
    requires c.Valid() && ServerInv(c, s) && Enabled(s, a) && Has(s.table, d, ip)
    ensures Has(Next(c, s, a).table, d, ip) <==> !Loses(c, s, a, d, ip)
  {
    assert Matched(s, d);
    match a
    case Reg(_, _, _, _, _) => RegHoldsIff(c, s, a, d, ip);
    case Confirm(_, _) =>
    case Drop(rid) =>
      if rid in s.sessions {
        DropIsLocal(c, s, rid);
      }
    case Expire =>
      assert d in ExpiredDevices(s.table, c.lease, s.now) <==> Expired(s.table.deviceMap[d], c.lease, s.now);
    case Delete(e) =>
    case Tick(_) =>
  }

  /** The device holds `ip` in every state of the run. */
  ghost predicate HeldThroughout(c: Config, s: Server, run: seq<Action>, d: DeviceId, ip: Ip)
    requires c.Valid()
    decreases |run|
  {
    Has(s.table, d, ip) && (run == [] || HeldThroughout(c, Next(c, s, run[0]), run[1..], d, ip))
  }

  /** No step of the run is a losing one where it happens. */
  ghost predicate NeverLoses(c: Config, s: Server, run: seq<Action>, d: DeviceId, ip: Ip)
    requires c.Valid()
    decreases |run|
  {
    run == [] || (d in s.table.deviceMap && !Loses(c, s, run[0], d, ip)
                  && NeverLoses(c, Next(c, s, run[0]), run[1..], d, ip))
  }

  /** A whole run: a device keeps its address throughout if and only if no step of the run is a
      losing one. */
  lemma {:induction false} HeldThroughoutIff(c: Config, s: Server, run: seq<Action>, d: DeviceId, ip: Ip)
    requires c.Valid() && ServerInv(c, s) && EnabledRun(c, s, run) && Has(s.table, d, ip)
    ensures HeldThroughout(c, s, run, d, ip) <==> NeverLoses(c, s, run, d, ip)
    decreases |run|
  {
    if run != [] {
      var s' := Next(c, s, run[0]);
      NextKeepsInv(c, s, run[0]);
      NextHoldsIff(c, s, run[0], d, ip);
      if Has(s'.table, d, ip) {
        HeldThroughoutIff(c, s', run[1..], d, ip);
      }
    }
  }

  /** What must not happen to device `d` in state `s`: asking for another address itself, a deletion
      while it is away, and the end of an unconfirmed pre-registration that is its current session. */
  predicate Spares(s: Server, a: Action, d: DeviceId, ip: Ip)
    requires d in s.table.deviceMap
  {
    match a
    case Reg(req, _, _, _, _) => req.deviceId == d ==> req.ip.None? || req.ip == Some(ip)
    case Drop(rid) => !(rid in s.sessions && s.sessions[rid].status == Pending && s.table.deviceMap[d].randomId == rid)
    case Delete(e) => e == d ==> s.table.deviceMap[d].isConnected
    case _ => true
  }

  ghost predicate SparesThroughout(c: Config, s: Server, run: seq<Action>, d: DeviceId, ip: Ip)
    requires c.Valid()
    decreases |run|
  {
    run == [] || (d in s.table.deviceMap && Spares(s, run[0], d, ip)
                  && SparesThroughout(c, Next(c, s, run[0]), run[1..], d, ip))
  }

  /** The device holds `ip` and its traffic counter, and if it is away it left at `since` or later. */
  predicate Leased(s: Server, d: DeviceId, ip: Ip, counter: StatsId, since: nat) {
    && Has(s.table, d, ip) && s.table.deviceMap[d].stats == counter
    && var e := s.table.deviceMap[d];
      !e.isConnected ==> e.disconnectTime.Some? && since <= e.disconnectTime.value
  }

  lemma RegKeepsLease(c: Config, s: Server, a: Action, d: DeviceId, ip: Ip, counter: StatsId, since: nat)
    requires c.Valid() && ServerInv(c, s) && a.Reg? && Enabled(s, a)
    requires Leased(s, d, ip, counter, since) && Spares(s, a, d, ip)
    ensures Leased(Next(c, s, a), d, ip, counter, since)
  {
    if LeaseState.Register(s.table, c, a.req, a.rid, a.sender, a.stats).Ok? {
      AllocatePlaces(s.table, c, a.req, a.rid, a.stats);
    }
  }

  lemma DropKeepsLease(c: Config, s: Server, rid: nat, d: DeviceId, ip: Ip, counter: StatsId, since: nat)
    requires c.Valid() && ServerInv(c, s) && Leased(s, d, ip, counter, since) && since <= s.now
    requires Spares(s, Drop(rid), d, ip)
    ensures Leased(Next(c, s, Drop(rid)), d, ip, counter, since)
  {
    assert Matched(s, d);
    if rid in s.sessions {
      DropIsLocal(c, s, rid);
    }
  }

  lemma NextKeepsLease(c: Config, s: Server, a: Action, d: DeviceId, ip: Ip, counter: StatsId, since: nat)
    requires c.Valid() && ServerInv(c, s) && Enabled(s, a)
    requires Leased(s, d, ip, counter, since) && Spares(s, a, d, ip) && since <= s.now < since + c.lease
    ensures Leased(Next(c, s, a), d, ip, counter, since)
  {
    match a
    case Reg(_, _, _, _, _) => RegKeepsLease(c, s, a, d, ip, counter, since);
    case Drop(rid) => DropKeepsLease(c, s, rid, d, ip, counter, since);
    case _ => NextHoldsIff(c, s, a, d, ip);
  }

  lemma {:induction false} ClockAdvances(c: Config, s: Server, run: seq<Action>)
    requires c.Valid()
    ensures s.now <= Run(c, s, run).now
    decreases |run|
  {
    if run != [] {
      ClockAdvances(c, Next(c, s, run[0]), run[1..]);
    }
  }

  lemma {:induction false} RunKeepsLease(c: Config, s: Server, run: seq<Action>, d: DeviceId, ip: Ip,
                                         counter: StatsId, since: nat)
    requires c.Valid() && ServerInv(c, s) && EnabledRun(c, s, run) && SparesThroughout(c, s, run, d, ip)
    requires Leased(s, d, ip, counter, since) && since <= s.now && Run(c, s, run).now < since + c.lease
    ensures Leased(Run(c, s, run), d, ip, counter, since)
    decreases |run|
  {
    if run != [] {
      var s' := Next(c, s, run[0]);
      assert s.now <= s'.now <= Run(c, s, run).now by { ClockAdvances(c, s', run[1..]); }
      NextKeepsInv(c, s, run[0]);
      NextKeepsLease(c, s, run[0], d, ip, counter, since);
      RunKeepsLease(c, s', run[1..], d, ip, counter, since);
    }
  }

  /** A device that left at `since` and asks again before its lease ends, for nothing or for its
      old address, gets that address back and goes on counting its traffic where it stopped,
      whatever the other devices did in between, and whatever it did itself short of asking for
      another address, being deleted while away, or losing an unconfirmed pre-registration. */
  lemma LeaseIsStable(c: Config, s: Server, run: seq<Action>, d: DeviceId, ip: Ip, since: nat,
                      req: RegRequest, rid: nat, sender: Sender, stats: StatsId)
    requires c.Valid() && ServerInv(c, s) && EnabledRun(c, s, run) && SparesThroughout(c, s, run, d, ip)
    requires Has(s.table, d, ip) && s.table.deviceMap[d].disconnectTime == Some(since)
    requires Run(c, s, run).now < since + c.lease
    requires req.deviceId == d && (req.ip.None? || req.ip == Some(ip))
    ensures var r := LeaseState.Register(Run(c, s, run).table, c, req, rid, sender, stats);
      && r.Ok? && r.value.ip == ip
      && r.value.table.deviceMap[d].stats == s.table.deviceMap[d].stats
  {
    assert Matched(s, d) && EntryOk(s.table, s.table.deviceMap[d]);
    RunKeepsLease(c, s, run, d, ip, s.table.deviceMap[d].stats, since);
  }

  /** Only the drop of its own current session disconnects a device: no expiry, no deletion, no
      other session and no other registration does. */
  lemma OnlyOwnDropDisconnects(c: Config, s: Server, a: Action, d: DeviceId)
    requires c.Valid() && ServerInv(c, s) && Enabled(s, a) && Connected(s.table, d)
    ensures Connected(Next(c, s, a).table, d) <==> a != Drop(s.table.deviceMap[d].randomId)
  {
    assert Matched(s, d);
    match a
    case Reg(req, _, rid, sender, stats) =>
      if LeaseState.Register(s.table, c, req, rid, sender, stats).Ok? {
        AllocatePlaces(s.table, c, req, rid, stats);
      }
    case Drop(rid) =>
      if rid in s.sessions {
        DropIsLocal(c, s, rid);
      }
    case _ =>
  }

  // ----- lost addresses

  /** The index holds a key that no device holds. */
  ghost predicate Stale(t: Table, ip: Ip) {
    ip in t.deviceIpMap && Unheld(t, ip)
  }

  lemma StaleIsNeverGranted(t: Table, c: Config, req: RegRequest, rid: nat, sender: Sender, stats: StatsId, ip: Ip)
    requires c.Valid() && Indexed(t, c) && Stale(t, ip)
    requires LeaseState.Register(t, c, req, rid, sender, stats).Ok?
    ensures var g := LeaseState.Register(t, c, req, rid, sender, stats).value; g.ip != ip && Stale(g.table, ip)
  {
    AllocatePlaces(t, c, req, rid, stats);
    var g := LeaseState.Register(t, c, req, rid, sender, stats).value;
    assert g.ip in t.deviceIpMap ==> Has(t, req.deviceId, g.ip);
    forall d ensures !Has(g.table, d, ip) {
      assert !Has(t, d, ip);
    }
  }

  lemma NextKeepsStale(c: Config, s: Server, a: Action, ip: Ip)
    requires c.Valid() && ServerInv(c, s) && Enabled(s, a) && Stale(s.table, ip)
    ensures Stale(Next(c, s, a).table, ip)
  {
    match a
    case Reg(req, _, rid, sender, stats) =>
      if LeaseState.Register(s.table, c, req, rid, sender, stats).Ok? {
        StaleIsNeverGranted(s.table, c, req, rid, sender, stats, ip);
      }
    case _ =>
      var t, u := s.table, Next(c, s, a).table;
      forall d | d in t.deviceMap ensures t.deviceMap[d].ip != Some(ip) {
        assert !Has(t, d, ip);
      }
      assert forall d :: d in u.deviceMap ==> d in t.deviceMap && u.deviceMap[d].ip == t.deviceMap[d].ip;
  }

  /** A stale key is stale for ever: whatever happens, its address is never granted again. */
  lemma {:induction false} StaleForEver(c: Config, s: Server, run: seq<Action>, ip: Ip,
                                        req: RegRequest, rid: nat, sender: Sender, stats: StatsId)
    requires c.Valid() && ServerInv(c, s) && EnabledRun(c, s, run) && Stale(s.table, ip)
    ensures Stale(Run(c, s, run).table, ip)
    ensures var r := LeaseState.Register(Run(c, s, run).table, c, req, rid, sender, stats);
      r.Ok? ==> r.value.ip != ip
    decreases |run|
  {
    if run == [] {
      if LeaseState.Register(s.table, c, req, rid, sender, stats).Ok? {
        StaleIsNeverGranted(s.table, c, req, rid, sender, stats, ip);
      }
    } else {
      NextKeepsInv(c, s, run[0]);
      NextKeepsStale(c, s, run[0], ip);
      StaleForEver(c, Next(c, s, run[0]), run[1..], ip, req, rid, sender, stats);
    }
  }

  /** The one kind of step that leaves a stale key: a granted registration by which the scan serves a
      device that already has an address. */
  predicate Strands(c: Config, s: Server, a: Action)
    requires c.Valid()
  {
    && a.Reg? && LeaseState.Register(s.table, c, a.req, a.rid, a.sender, a.stats).Ok?
    && FallsThrough(s.table, c, a.req) && OldIp(s.table, a.req.deviceId).Some?
  }

  ghost predicate NeverStrands(c: Config, s: Server, run: seq<Action>)
    requires c.Valid()
    decreases |run|
  {
    run == [] || (!Strands(c, s, run[0]) && NeverStrands(c, Next(c, s, run[0]), run[1..]))
  }

  /** A table whose addresses are indexed lacks exactness only by a stale key. */
  lemma ExactIffNoneStale(t: Table, c: Config)
    requires c.Valid() && Indexed(t, c)
    ensures IndexExact(t) <==> forall ip :: !Stale(t, ip)
  {
    if ip :| ip in t.deviceIpMap && !Has(t, t.deviceIpMap[ip], ip) {
      assert Stale(t, ip);
    }
  }

  lemma NextKeepsExactIff(c: Config, s: Server, a: Action)
    requires c.Valid() && ServerInv(c, s) && Enabled(s, a) && IndexExact(s.table)
    ensures IndexExact(Next(c, s, a).table) <==> !Strands(c, s, a)
  {
    match a
    case Reg(req, _, rid, sender, stats) =>
      if LeaseState.Register(s.table, c, req, rid, sender, stats).Ok? {
        RegisterKeepsIndexExactIff(s.table, c, req, rid, sender, stats);
      }
    case _ =>
  }

  /** Over a whole run from an exact index: the index is exact afterwards if and only if no step of
      the run strands an address. */
  lemma {:induction false} RunKeepsExactIff(c: Config, s: Server, run: seq<Action>)
    requires c.Valid() && ServerInv(c, s) && EnabledRun(c, s, run) && IndexExact(s.table)
    ensures IndexExact(Run(c, s, run).table) <==> NeverStrands(c, s, run)
    decreases |run|
  {
    if run != [] {
      var s' := Next(c, s, run[0]);
      NextKeepsInv(c, s, run[0]);
      NextKeepsExactIff(c, s, run[0]);
      if IndexExact(s'.table) {
        RunKeepsExactIff(c, s', run[1..]);
      } else {
        ExactIffNoneStale(s'.table, c);
        var ip :| Stale(s'.table, ip);
        RunKeepsInv(c, s', run[1..]);
        StaleForEver(c, s', run[1..], ip, RegRequest("", None, false), 0, 0, 0);
        ExactIffNoneStale(Run(c, s', run[1..]).table, c);
      }
    }
  }
}
