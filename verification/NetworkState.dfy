/** The server's lease table as the object the server keeps and updates in place. */
module NetworkStates {
  import opened Base
  import opened LeaseState
  import opened Loader
  import opened ClientList

  function AsSet(ids: seq<DeviceId>): set<DeviceId> {
    set d | d in ids
  }

  class NetworkState {
    const config: Config
    var dataVersion: nat
    var deviceMap: map<DeviceId, DeviceEntry>
    var deviceIpMap: map<Ip, DeviceId>
    var senderMap: map<Ip, Sender>
    var statsMap: map<Ip, StatsId>

    /** The abstract value of the object. */
    function View(): Table
      reads this
    {
      Table(dataVersion, deviceMap, deviceIpMap, senderMap, statsMap)
    }

    ghost predicate Valid()
      reads this
    {
      config.Valid() && TableInv(View(), config)
    }

    constructor FromRecords(config: Config, records: seq<Record>, now: nat)
      requires config.Valid() && DistinctDevices(records)
      ensures this.config == config && View() == Loaded(config, records, now)
      ensures Valid() <==> GoodRecords(config, records)
    {
      var devices: map<DeviceId, DeviceEntry>, index: map<Ip, DeviceId> := map[], map[];
      for n := 0 to |records|
        invariant Loaded(config, records[..n], now) == Table(0, devices, index, map[], map[])
      {
        var r := records[n];
        assert records[..n + 1][..n] == records[..n];
        if r.ip.Some? && config.Usable(r.ip.value) {
          index := index[r.ip.value := r.deviceId];
        }
        devices := devices[r.deviceId := LoadedEntry(r, now, n)];
      }
      assert records[..|records|] == records;
      LoadedInvIff(config, records, now);
      this.config := config;
      dataVersion, deviceMap, deviceIpMap, senderMap, statsMap := 0, devices, index, map[], map[];
    }

    /** Scans the hosts in order; no other address below the result is free. */
    method FindAvailableIp() returns (r: Option<Ip>)
      requires config.Valid()
      ensures r == Available(config, deviceIpMap.Keys)
      ensures r.None? ==> forall j: Ip :: config.Host(j) ==> j in deviceIpMap
      ensures r.Some? ==> config.Host(r.value) && r.value !in deviceIpMap
      ensures r.Some? ==> forall j: Ip :: config.Host(j) && j < r.value ==> j in deviceIpMap
    {
      var i, end := config.network + 1, config.Broadcast();
      AvailableIsLeastFreeHost(config, deviceIpMap.Keys);
      while i < end
        invariant config.network + 1 <= i
        invariant Scan(config.network + 1, end, config.Gateway(), deviceIpMap.Keys)
               == Scan(i, end, config.Gateway(), deviceIpMap.Keys)
      {
        if i != config.Gateway() && i !in deviceIpMap {
          return Some(i);
        }
        i := i + 1;
      }
      return None;
    }

    method AddDevice(d: DeviceId, ip: Ip, rid: nat, stats: StatsId)
      modifies this`dataVersion, this`deviceMap, this`deviceIpMap
      ensures View() == LeaseState.AddDevice(old(View()), d, ip, rid, stats)
    {
      dataVersion := dataVersion + 1;
      deviceIpMap := deviceIpMap[ip := d];
      deviceMap := deviceMap[d := DeviceEntry(Some(ip), rid, true, None, dataVersion, stats)];
    }

    /** Grants an address or refuses with the table unchanged. */
    method AllocateIp(req: RegRequest, rid: nat, stats: StatsId)
      returns (r: Result<(Ip, Option<Ip>), RegError>)
      requires config.Valid()
      modifies this`dataVersion, this`deviceMap, this`deviceIpMap
      ensures match Allocate(old(View()), config, req, rid, stats)
              case Err(e) => r == Err(e) && View() == old(View())
              case Ok(g) => r == Ok((g.ip, g.previous))
                            && View() == g.table.(senderMap := senderMap, statsMap := statsMap)
    {
      var d := req.deviceId;
      var previous: Option<Ip> := None;
      if d in deviceMap {
        previous := deviceMap[d].ip;
        if req.ip.None? || previous == req.ip {
          var newIp: Option<Ip> := None;
          if previous.None? {
            newIp := FindAvailableIp();
            if newIp.None? { return Err(Exhausted); }
          }
          dataVersion := dataVersion + 1;
          var e := deviceMap[d].(isConnected := true, disconnectTime := None, randomId := rid,
                                 dataVersion := dataVersion);
          if newIp.Some? {
            deviceMap := deviceMap[d := e.(ip := newIp)];
            deviceIpMap := deviceIpMap[newIp.value := d];
            return Ok((newIp.value, None));
          }
          deviceMap := deviceMap[d := e];
          return Ok((previous.value, None));
        }
      }
      if req.ip.Some? {
        var ip := req.ip.value;
        var objection: Option<RegError> := None;
        if ip == config.Gateway() {
          objection := Some(GatewayIp);
        } else if !config.Contains(ip) {
          objection := Some(OutsideNet);
        } else if ip in deviceIpMap {
          objection := Some(DuplicateIp);
        }
        if objection.None? {
          if previous.Some? {
            deviceIpMap := deviceIpMap - {previous.value};
          }
          AddDevice(d, ip, rid, stats);
          return Ok((ip, previous));
        }
        if !req.ipVariable { return Err(objection.value); }
      }
      var free := FindAvailableIp();
      if free.None? { return Err(Exhausted); }
      AddDevice(d, free.value, rid, stats);
      return Ok((free.value, previous));
    }

    method OpenSession(d: DeviceId, ip: Ip, previous: Option<Ip>, sender: Sender)
      modifies this`senderMap, this`statsMap
      ensures View() == WithSession(old(View()), Grant(old(View()), ip, previous), d, sender)
    {
      if previous.Some? {
        senderMap := senderMap - {previous.value};
        statsMap := statsMap - {previous.value};
      }
      senderMap := senderMap[ip := sender];
      if d in deviceMap {
        statsMap := statsMap[ip := deviceMap[d].stats];
      }
    }

    /** A registration keeps the table consistent; a fixed wish is met exactly or refused. */
    method AllocateIpAndGetEntry(req: RegRequest, rid: nat, sender: Sender, stats: StatsId)
      returns (r: Result<(Ip, Option<Ip>), RegError>)
      requires config.Valid()
      modifies this
      ensures match LeaseState.Register(old(View()), config, req, rid, sender, stats)
              case Err(e) => r == Err(e) && View() == old(View())
              case Ok(g) => r == Ok((g.ip, g.previous)) && View() == g.table
      ensures old(Valid()) ==> Valid()
      ensures req.ip.Some? && !req.ipVariable && r.Ok? ==> r.value.0 == req.ip.value
    {
      ghost var before := View();
      r := AllocateIp(req, rid, stats);
      if r.Err? { return; }
      var (ip, previous) := r.value;
      OpenSession(req.deviceId, ip, previous, sender);
      if TableInv(before, config) {
        RegisterKeepsInv(before, config, req, rid, sender, stats);
      }
    }

    /** Marks the device offline if the session that ends is its current one. */
    method OfflineIp(d: DeviceId, ip: Ip, rid: nat, now: nat)
      modifies this
      ensures View() == Offline(old(View()), d, ip, rid, now)
      ensures old(Valid()) ==> Valid()
    {
      ghost var before := View();
      if d in deviceMap && deviceMap[d].randomId == rid && deviceMap[d].ip == Some(ip) {
        dataVersion := dataVersion + 1;
        deviceMap := deviceMap[d := deviceMap[d].(dataVersion := dataVersion, isConnected := false,
                                                  disconnectTime := Some(now))];
        senderMap := senderMap - {ip};
        statsMap := statsMap - {ip};
      }
      if config.Valid() && TableInv(before, config) {
        OfflineKeepsInv(before, config, d, ip, rid, now);
      }
    }

    method ReleasePreRegisteredIp(d: DeviceId, ip: Ip, rid: nat)
      modifies this
      ensures View() == ReleasePre(old(View()), d, ip, rid)
      ensures old(Valid()) ==> Valid()
    {
      ghost var before := View();
      if d in deviceMap && deviceMap[d].randomId == rid && deviceMap[d].ip == Some(ip) {
        deviceMap := deviceMap - {d};
        deviceIpMap := deviceIpMap - {ip};
        dataVersion := dataVersion + 1;
        senderMap := senderMap - {ip};
        statsMap := statsMap - {ip};
      }
      if config.Valid() && TableInv(before, config) {
        ReleaseIsRemoval(before, d, ip, rid);
        RemoveDeviceKeepsInv(before, config, d);
      }
    }

    method RemoveDeviceFromMemory(d: DeviceId) returns (r: Option<Ip>)
      modifies this
      ensures View() == RemoveDevice(old(View()), d) && r == OldIp(old(View()), d)
      ensures old(Valid()) ==> Valid()
    {
      ghost var before := View();
      r := None;
      if d in deviceMap {
        r := deviceMap[d].ip;
        deviceMap := deviceMap - {d};
        if r.Some? {
          deviceIpMap := deviceIpMap - {r.value};
          senderMap := senderMap - {r.value};
          statsMap := statsMap - {r.value};
        }
        dataVersion := dataVersion + 1;
      }
      if config.Valid() && TableInv(before, config) {
        RemoveDeviceKeepsInv(before, config, d);
      }
    }

    method CollectExpiredDevices(now: nat) returns (ids: seq<DeviceId>)
      ensures forall d :: d in ids <==> d in ExpiredDevices(View(), config.lease, now)
    {
      ids := [];
      var rest := deviceMap.Keys;
      while rest != {}
        invariant rest <= deviceMap.Keys
        invariant forall d :: d in ids <==> d in deviceMap.Keys - rest && Expired(deviceMap[d], config.lease, now)
        decreases |rest|
      {
        var d :| d in rest;
        rest := rest - {d};
        if Expired(deviceMap[d], config.lease, now) {
          ids := ids + [d];
        }
      }
    }

    /** Removes the listed devices one after the other under a single bump of the version. */
    method RemoveDevices(ids: seq<DeviceId>)
      modifies this`dataVersion, this`deviceMap, this`deviceIpMap
      ensures View() == LeaseState.RemoveDevices(old(View()), AsSet(ids))
    {
      if ids == [] {
        assert AsSet(ids) == {};
        return;
      }
      ghost var before := View();
      dataVersion := dataVersion + 1;
      for k := 0 to |ids|
        invariant dataVersion == before.dataVersion + 1
        invariant deviceMap == before.deviceMap - AsSet(ids[..k])
        invariant deviceIpMap == before.deviceIpMap - HeldBy(before, AsSet(ids[..k]))
      {
        ghost var done := AsSet(ids[..k]);
        assert AsSet(ids[..k + 1]) == done + {ids[k]} by {
          assert ids[..k + 1] == ids[..k] + [ids[k]];
        }
        var d := ids[k];
        if d in deviceMap {
          var ip := deviceMap[d].ip;
          assert HeldBy(before, done + {d}) == HeldBy(before, done) + (if ip.Some? then {ip.value} else {}) by {
            if ip.Some? { assert Has(before, d, ip.value); }
          }
          deviceMap := deviceMap - {d};
          if ip.Some? {
            deviceIpMap := deviceIpMap - {ip.value};
          }
        } else {
          assert HeldBy(before, done + {d}) == HeldBy(before, done);
        }
      }
      assert ids[..|ids|] == ids;
      assert ids[0] in AsSet(ids) && AsSet(ids) != {};
    }

    /** The answer to a poll: nothing when the versions agree, everything when the poller is ahead,
        else the devices stamped after the poller's version. */
    method ChangedClientSimpleList(excludeIp: Ip, version: nat) returns (r: Option<Reply>)
      ensures AnswersPoll(View(), excludeIp, version, r)
    {
      if version == dataVersion { return None; }
      var isAll := version > dataVersion;
      var list: seq<ClientInfo> := [];
      var rest := deviceMap.Keys;
      while rest != {}
        invariant rest <= deviceMap.Keys
        invariant forall x :: x in list <==>
          exists d :: d in deviceMap.Keys - rest && Listed(deviceMap[d], excludeIp, version, isAll, x)
        decreases |rest|
      {
        var d :| d in rest;
        rest := rest - {d};
        var e := deviceMap[d];
        ghost var before := list;
        if (isAll || e.dataVersion > version) && e.ip.Some? && e.ip != Some(excludeIp) {
          list := list + [ClientInfo(e.ip.value, e.isConnected)];
        }
        forall x ensures x in list <==> x in before || Listed(e, excludeIp, version, isAll, x) {
        }
      }
      return Some(Reply(dataVersion, list, isAll));
    }
  }
}
