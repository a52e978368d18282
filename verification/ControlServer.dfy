/** The control service and its connection handlers: the operations that drive one network's
lease table, each proved to be one step of the server state machine. */
module ControlServers {
  import opened Base
  import opened LeaseState
  import opened NetworkStates
  import opened ClientList
  import opened Sessions
  import opened RegistrationOutcomes

  datatype ServiceError = Refused(reason: RegError) | NotActive | NotPending | SaveFailed | DeviceOnline

  class ControlServer {
    const state: NetworkState
    /** The live sessions, one per connection handler, by random id. */
    var sessions: map<nat, Session>
    var now: nat
    ghost var used: set<nat>

    ghost function View(): Server
      reads this, state
    {
      Server(state.View(), sessions, used, now)
    }

    ghost predicate Valid()
      reads this, state
    {
      state.config.Valid() && ServerInv(state.config, View())
    }

    constructor (state: NetworkState, now: nat)
      ensures this.state == state && View() == Server(state.View(), map[], {0}, now)
    {
      this.state := state;
      sessions, this.now, used := map[], now, {0};
    }

    /** Registers a client under a freshly drawn id, normally or pending confirmation. */
    method Register(req: RegRequest, preRegister: bool, rid: nat, sender: Sender, stats: StatsId)
      returns (r: Result<Ip, ServiceError>)
      requires Valid() && Enabled(View(), Reg(req, preRegister, rid, sender, stats))
      modifies this, state
      ensures View() == Next(state.config, old(View()), Reg(req, preRegister, rid, sender, stats)) && Valid()
      ensures r.Ok? ==> rid in sessions
      ensures r.Ok? ==>
        var status := if preRegister then Pending else Confirmed;
        sessions[rid] == Session(req.deviceId, r.value, sender, status)
      ensures r.Err? ==> state.View() == old(state.View()) && sessions == old(sessions)
    {
      NextKeepsInv(state.config, View(), Reg(req, preRegister, rid, sender, stats));
      used := used + {rid};
      var grant := state.AllocateIpAndGetEntry(req, rid, sender, stats);
      match grant
      case Err(e) => r := Err(Refused(e));
      case Ok((ip, _)) =>
        var status := if preRegister then Pending else Confirmed;
        sessions := sessions[rid := Session(req.deviceId, ip, sender, status)];
        r := Ok(ip);
    }

    /** Second phase of a pre-registration; `saved` says whether the database took the record. */
    method HandleConfirmReg(rid: nat, saved: bool) returns (r: Result<(), ServiceError>)
      requires Valid()
      modifies this`sessions
      ensures View() == Next(state.config, old(View()), Confirm(rid, saved)) && Valid()
      ensures r.Ok? <==> saved && rid in old(sessions) && old(sessions)[rid].status == Pending
      ensures r.Err? ==> View() == old(View())
    {
      NextKeepsInv(state.config, View(), Confirm(rid, saved));
      if rid !in sessions { return Err(NotActive); }
      if sessions[rid].status != Pending { return Err(NotPending); }
      if !saved { return Err(SaveFailed); }
      sessions := sessions[rid := sessions[rid].(status := Confirmed)];
      return Ok(());
    }

    /** A connection ends and its session with it. */
    method DropSession(rid: nat)
      requires Valid()
      modifies this`sessions, state
      ensures View() == Next(state.config, old(View()), Drop(rid)) && Valid()
    {
      NextKeepsInv(state.config, View(), Drop(rid));
      if rid in sessions {
        var x := sessions[rid];
        match x.status {
          case Confirmed => state.OfflineIp(x.deviceId, x.ip, rid, now);
          case Pending => state.ReleasePreRegisteredIp(x.deviceId, x.ip, rid);
        }
        sessions := sessions - {rid};
      }
    }

    method ReleaseExpiredIps()
      requires Valid()
      modifies state
      ensures View() == Next(state.config, old(View()), Expire) && Valid()
    {
      NextKeepsInv(state.config, View(), Expire);
      var ids := state.CollectExpiredDevices(now);
      assert AsSet(ids) == ExpiredDevices(state.View(), state.config.lease, now);
      state.RemoveDevices(ids);
    }

    /** An administrator deletes a device; a connected one is refused. */
    method DeleteDevice(d: DeviceId) returns (r: Result<(), ServiceError>)
      requires Valid()
      modifies state
      ensures View() == Next(state.config, old(View()), Delete(d)) && Valid()
      ensures r == if old(Connected(state.View(), d)) then Err(DeviceOnline) else Ok(())
      ensures r.Ok? ==> d !in state.deviceMap
    {
      NextKeepsInv(state.config, View(), Delete(d));
      if d in state.deviceMap && state.deviceMap[d].isConnected {
        return Err(DeviceOnline);
      }
      var _ := state.RemoveDeviceFromMemory(d);
      return Ok(());
    }

    /** The answer to a client's poll, computed for the session's own address; only a confirmed
        session is served. */
    method HandlePingTurn(rid: nat, version: nat) returns (r: Option<Reply>)
      ensures PollAnswered(View(), rid, version, r)
    {
      if rid !in sessions || sessions[rid].status != Confirmed { return None; }
      r := state.ChangedClientSimpleList(sessions[rid].ip, version);
    }
  }
}
