/** The messages of the client-list synchronisation. */
module ClientList {
  import opened Base
  import opened LeaseState

  datatype ClientInfo = ClientInfo(ip: Ip, online: bool)

  datatype Reply = Reply(dataVersion: nat, list: seq<ClientInfo>, isAll: bool)

  /** Entry `e` is announced as `x` to a poller at `version` that holds address `self`. */
  predicate Listed(e: DeviceEntry, self: Ip, version: nat, isAll: bool, x: ClientInfo) {
    && (isAll || e.dataVersion > version)
    && e.ip == Some(x.ip) && x.ip != self && e.isConnected == x.online
  }

  /** `r` is an answer of table `t` to a poll; the order of the list is left open. */
  ghost predicate AnswersPoll(t: Table, self: Ip, version: nat, r: Option<Reply>) {
    match r
    case None => version == t.dataVersion
    case Some(m) =>
      && version != t.dataVersion
      && m.dataVersion == t.dataVersion
      && m.isAll == (version > t.dataVersion)
      && forall x :: x in m.list <==> exists d :: d in t.deviceMap && Listed(t.deviceMap[d], self, version, m.isAll, x)
  }

  /** The device is live, not the poller itself, and this is its address and connection state; at this
      version the poller is ahead of the table or the entry was stamped later. */
  predicate Told(t: Table, self: Ip, version: nat, d: DeviceId, x: ClientInfo) {
    && d in t.deviceMap && t.deviceMap[d].ip == Some(x.ip) && x.ip != self
    && t.deviceMap[d].isConnected == x.online
    && (version > t.dataVersion || t.deviceMap[d].dataVersion > version)
  }

  /** What an answer says, in terms of the table: nothing at equal versions, all live devices to a poller
      ahead, else those stamped later than the version asked for; never the poller's own address. */
  lemma AnswerSaysExactly(t: Table, self: Ip, version: nat, r: Option<Reply>)
    requires AnswersPoll(t, self, version, r)
    ensures r.None? <==> version == t.dataVersion
    ensures r.Some? ==> r.value.dataVersion == t.dataVersion && (r.value.isAll <==> version > t.dataVersion)
    ensures r.Some? ==> forall x :: x in r.value.list <==> exists d :: Told(t, self, version, d, x)
  {
    if r.Some? {
      forall d, x ensures Told(t, self, version, d, x) <==>
        d in t.deviceMap && Listed(t.deviceMap[d], self, version, r.value.isAll, x)
      {
      }
    }
  }
}
