/** Rebuilding the lease table from the stored device records when a network comes up. */
module Loader {
  import opened Base
  import opened LeaseState

  datatype Record = Record(deviceId: DeviceId, ip: Option<Ip>)

  function LoadedEntry(r: Record, now: nat, stats: StatsId): DeviceEntry {
    DeviceEntry(r.ip, 0, false, Some(now), 0, stats)
  }

  /** Every record becomes a disconnected entry; only a usable address gets an index key. */
  function Loaded(c: Config, rs: seq<Record>, now: nat): Table
    requires c.Valid()
  {
    if rs == [] then Table(0, map[], map[], map[], map[]) else
    var t, r := Loaded(c, rs[..|rs| - 1], now), rs[|rs| - 1];
    t.(deviceMap := t.deviceMap[r.deviceId := LoadedEntry(r, now, |rs| - 1)],
       deviceIpMap := if r.ip.Some? && c.Usable(r.ip.value) then t.deviceIpMap[r.ip.value := r.deviceId]
                      else t.deviceIpMap)
  }

  predicate DistinctDevices(rs: seq<Record>) {
    forall i, j :: 0 <= i < j < |rs| ==> rs[i].deviceId != rs[j].deviceId
  }

  predicate GoodRecords(c: Config, rs: seq<Record>)
    requires c.Valid()
  {
    && (forall i :: 0 <= i < |rs| && rs[i].ip.Some? ==> c.Usable(rs[i].ip.value))
    && (forall i, j :: 0 <= i < j < |rs| && rs[i].ip.Some? ==> rs[i].ip != rs[j].ip)
  }

  lemma {:induction false} LoadedEntries(c: Config, rs: seq<Record>, now: nat)
    requires c.Valid() && DistinctDevices(rs)
    ensures var t := Loaded(c, rs, now); t.dataVersion == 0 && t.senderMap == map[] && t.statsMap == map[]
    ensures forall i :: 0 <= i < |rs| ==> HasEntry(Loaded(c, rs, now), rs[i].deviceId, LoadedEntry(rs[i], now, i))
    ensures forall d :: d in Loaded(c, rs, now).deviceMap ==> exists i :: 0 <= i < |rs| && rs[i].deviceId == d
  {
    if rs != [] {
      var n := |rs| - 1;
      LoadedEntries(c, rs[..n], now);
      forall d | d in Loaded(c, rs, now).deviceMap ensures exists i :: 0 <= i < |rs| && rs[i].deviceId == d {
        if d != rs[n].deviceId {
          var i :| 0 <= i < n && rs[..n][i].deviceId == d;
          assert rs[i].deviceId == d;
        }
      }
      forall i | 0 <= i < n ensures HasEntry(Loaded(c, rs, now), rs[i].deviceId, LoadedEntry(rs[i], now, i)) {
        assert HasEntry(Loaded(c, rs[..n], now), rs[..n][i].deviceId, LoadedEntry(rs[..n][i], now, i));
      }
    }
  }

  predicate HasEntry(t: Table, d: DeviceId, e: DeviceEntry) {
    d in t.deviceMap && t.deviceMap[d] == e
  }

  lemma {:induction false} LoadedIndex(c: Config, rs: seq<Record>, now: nat)
    requires c.Valid() && DistinctDevices(rs)
    ensures forall ip :: ip in Loaded(c, rs, now).deviceIpMap ==>
      exists i :: 0 <= i < |rs| && rs[i] == Record(Loaded(c, rs, now).deviceIpMap[ip], Some(ip))
    ensures forall i :: 0 <= i < |rs| && rs[i].ip.Some? && c.Usable(rs[i].ip.value) ==>
      rs[i].ip.value in Loaded(c, rs, now).deviceIpMap
  {
    if rs != [] {
      var n := |rs| - 1;
      var t, u := Loaded(c, rs[..n], now), Loaded(c, rs, now);
      LoadedIndex(c, rs[..n], now);
      forall ip | ip in u.deviceIpMap
        ensures exists i :: 0 <= i < |rs| && rs[i] == Record(u.deviceIpMap[ip], Some(ip))
      {
        if Some(ip) != rs[n].ip {
          var i :| 0 <= i < n && rs[..n][i] == Record(t.deviceIpMap[ip], Some(ip));
          assert rs[i] == Record(u.deviceIpMap[ip], Some(ip));
        } else if c.Usable(ip) {
          assert rs[n] == Record(rs[n].deviceId, Some(ip));
        } else {
          var i :| 0 <= i < n && rs[..n][i] == Record(t.deviceIpMap[ip], Some(ip));
          assert rs[i] == Record(u.deviceIpMap[ip], Some(ip));
        }
      }
      forall i | 0 <= i < n && rs[i].ip.Some? && c.Usable(rs[i].ip.value)
        ensures rs[i].ip.value in u.deviceIpMap
      {
        assert rs[..n][i] == rs[i];
      }
    }
  }

  lemma LoadedOffline(c: Config, rs: seq<Record>, now: nat)
    requires c.Valid() && DistinctDevices(rs)
    ensures var t := Loaded(c, rs, now);
      SessionMapsAgree(t) && forall d :: d in t.deviceMap ==> EntryOk(t, t.deviceMap[d])
  {
    var t := Loaded(c, rs, now);
    LoadedEntries(c, rs, now);
    forall d | d in t.deviceMap ensures EntryOk(t, t.deviceMap[d]) && !t.deviceMap[d].isConnected {
      var i :| 0 <= i < |rs| && rs[i].deviceId == d;
    }
  }

  lemma GoodRecordsIndex(c: Config, rs: seq<Record>, now: nat)
    requires c.Valid() && DistinctDevices(rs) && GoodRecords(c, rs)
    ensures Indexed(Loaded(c, rs, now), c)
  {
    var t := Loaded(c, rs, now);
    LoadedEntries(c, rs, now);
    LoadedIndex(c, rs, now);
    forall d | d in t.deviceMap && t.deviceMap[d].ip.Some?
      ensures var ip := t.deviceMap[d].ip.value; c.Usable(ip) && ip in t.deviceIpMap && t.deviceIpMap[ip] == d
    {
      var i :| 0 <= i < |rs| && rs[i].deviceId == d;
      var ip := rs[i].ip.value;
      var j :| 0 <= j < |rs| && rs[j] == Record(t.deviceIpMap[ip], Some(ip));
      assert i == j;
    }
  }

  lemma IndexedRecordsGood(c: Config, rs: seq<Record>, now: nat)
    requires c.Valid() && DistinctDevices(rs) && Indexed(Loaded(c, rs, now), c)
    ensures GoodRecords(c, rs)
  {
    var t := Loaded(c, rs, now);
    LoadedEntries(c, rs, now);
    forall i | 0 <= i < |rs| && rs[i].ip.Some?
      ensures c.Usable(rs[i].ip.value)
      ensures rs[i].ip.value in t.deviceIpMap && t.deviceIpMap[rs[i].ip.value] == rs[i].deviceId
    {
      assert t.deviceMap[rs[i].deviceId].ip == rs[i].ip;
    }
  }

  /** A loaded table starts out consistent if and only if the stored addresses are usable and
      pairwise distinct; the loader itself keeps a bad address in the entry. */
  lemma LoadedInvIff(c: Config, rs: seq<Record>, now: nat)
    requires c.Valid() && DistinctDevices(rs)
    ensures TableInv(Loaded(c, rs, now), c) <==> GoodRecords(c, rs)
  {
    LoadedOffline(c, rs, now);
    if GoodRecords(c, rs) {
      GoodRecordsIndex(c, rs, now);
    } else if Indexed(Loaded(c, rs, now), c) {
      IndexedRecordsGood(c, rs, now);
    }
  }

  /** Two records with one address, and one record with the gateway's: neither table is consistent. */
  lemma BadRecordsExample()
    ensures var c := Config(0, 24, 10);
      && c.Valid() && !TableInv(Loaded(c, [Record("a", Some(2)), Record("b", Some(2))], 0), c)
      && !TableInv(Loaded(c, [Record("a", Some(1))], 0), c)
  {
    var c := Config(0, 24, 10);
    assert c.Size() == 256;
    var twice, gateway := [Record("a", Some(2)), Record("b", Some(2))], [Record("a", Some(1))];
    assert twice[0].deviceId[0] != twice[1].deviceId[0];
    assert !GoodRecords(c, twice) && !GoodRecords(c, gateway) by {
      assert twice[0].ip == twice[1].ip && gateway[0].ip.value == c.Gateway();
    }
    LoadedInvIff(c, twice, 0);
    LoadedInvIff(c, gateway, 0);
  }

  /** Exactly the recorded devices are loaded, each with its stored address, disconnected, and with a
      lease that runs from the moment of loading; only usable stored addresses are indexed. */
  lemma LoadedIsExact(c: Config, rs: seq<Record>, now: nat)
    requires c.Valid() && DistinctDevices(rs)
    ensures var t := Loaded(c, rs, now);
      && t.dataVersion == 0
      && (forall d :: d in t.deviceMap <==> exists i :: 0 <= i < |rs| && rs[i].deviceId == d)
      && (forall i :: 0 <= i < |rs| ==>
            var e := t.deviceMap[rs[i].deviceId];
            && e.ip == rs[i].ip && !e.isConnected && e.disconnectTime == Some(now)
            && e.dataVersion == 0 && e.randomId == 0)
      && (forall ip :: ip in t.deviceIpMap ==> c.Usable(ip))
  {
    LoadedEntries(c, rs, now);
    OnlyUsableIndexed(c, rs, now);
    forall i | 0 <= i < |rs| ensures HasEntry(Loaded(c, rs, now), rs[i].deviceId, LoadedEntry(rs[i], now, i)) {
    }
  }

  lemma {:induction false} OnlyUsableIndexed(c: Config, rs: seq<Record>, now: nat)
    requires c.Valid()
    ensures forall ip :: ip in Loaded(c, rs, now).deviceIpMap ==> c.Usable(ip)
  {
    if rs != [] {
      OnlyUsableIndexed(c, rs[..|rs| - 1], now);
    }
  }
}
