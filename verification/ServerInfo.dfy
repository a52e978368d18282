/** The client's view of all its servers: one node per server and the flat client list merged
from them. */
module ServerInfo {
  import opened Base
  import opened LeaseState
  import opened ClientList
  import opened DeltaSync

  datatype ServerNode = ServerNode(connected: bool, rtt: Option<nat>, replica: Replica)

  const EMPTY_NODE: ServerNode := ServerNode(false, None, Replica(0, map[]))

  function Node(nodes: map<nat, ServerNode>, id: nat): ServerNode {
    if id in nodes then nodes[id] else EMPTY_NODE
  }

  predicate Lists(n: ServerNode, ip: Ip) {
    ip in n.replica.clients
  }

  predicate ShowsOnline(n: ServerNode, ip: Ip) {
    Shown(n.replica.clients, ip)
  }

  predicate SomeLists(nodes: map<nat, ServerNode>, ip: Ip) {
    exists id :: id in nodes && Lists(nodes[id], ip)
  }

  predicate SomeShowsOnline(nodes: map<nat, ServerNode>, ip: Ip) {
    exists id :: id in nodes && ShowsOnline(nodes[id], ip)
  }

  predicate Mentions(list: seq<ClientInfo>, ip: Ip) {
    exists x :: x in list && x.ip == ip
  }

  predicate KeyedByIp(m: map<Ip, ClientInfo>) {
    forall ip :: ip in m ==> m[ip].ip == ip
  }

  /** Client maps are keyed by the address of their entries. */
  predicate Keyed(nodes: map<nat, ServerNode>) {
    forall id :: id in nodes ==> KeyedByIp(nodes[id].replica.clients)
  }

  predicate DistinctIps(list: seq<ClientInfo>) {
    forall i, j :: 0 <= i < j < |list| ==> list[i].ip != list[j].ip
  }

  /** The flat list holds one entry for each address any server lists, online exactly when some
      server shows it online. */
  ghost predicate IsMerge(list: seq<ClientInfo>, nodes: map<nat, ServerNode>) {
    && DistinctIps(list)
    && (forall ip :: Mentions(list, ip) <==> SomeLists(nodes, ip))
    && (forall x :: x in list ==> (x.online <==> SomeShowsOnline(nodes, x.ip)))
  }

  class ServerInfoCollection {
    var clientSimpleList: seq<ClientInfo>
    var serverNodeMap: map<nat, ServerNode>

    ghost predicate Valid()
      reads this
    {
      Keyed(serverNodeMap) && IsMerge(clientSimpleList, serverNodeMap)
    }

    constructor ()
      ensures Valid() && serverNodeMap == map[]
    {
      clientSimpleList, serverNodeMap := [], map[];
    }

    /** Starts over with one empty node per configured server. */
    method UpdateServer(ids: seq<nat>)
      modifies this
      ensures Valid()
      ensures serverNodeMap.Keys == (set id | id in ids)
      ensures forall id :: id in serverNodeMap ==>
        serverNodeMap[id] == ServerNode(false, None, Replica(0, map[])) && clientSimpleList == []
    {
      serverNodeMap, clientSimpleList := map[], [];
      for k := 0 to |ids|
        invariant clientSimpleList == []
        invariant serverNodeMap.Keys == (set id | id in ids[..k])
        invariant forall id :: id in serverNodeMap ==> serverNodeMap[id] == EMPTY_NODE
      {
        assert ids[..k + 1] == ids[..k] + [ids[k]];
        serverNodeMap := serverNodeMap[ids[k] := EMPTY_NODE];
      }
      assert ids[..|ids|] == ids;
    }

    /** Takes over an answer from one server and rebuilds the flat list. */
    method UpdateClientSimpleList(serverId: nat, self: Ip, r: Reply, sentAt: int, now: int)
      requires Valid()
      modifies this
      ensures Valid()
      ensures var node := if serverId in old(serverNodeMap) then old(serverNodeMap)[serverId]
                          else ServerNode(false, None, Replica(0, map[]));
        serverNodeMap == old(serverNodeMap)[serverId :=
          ServerNode(node.connected,
                     if now > sentAt then Some((now - sentAt) % 0x1_0000_0000) else node.rtt,
                     Apply(node.replica, self, r))]
    {
      var node := Node(serverNodeMap, serverId);
      if now > sentAt {
        node := node.(rtt := Some((now - sentAt) % 0x1_0000_0000));
      }
      serverNodeMap := serverNodeMap[serverId := node.(replica := Apply(node.replica, self, r))];
      assert KeyedByIp(serverNodeMap[serverId].replica.clients);
      var merged := Merge();
      clientSimpleList := Values(merged);
      assert forall ip :: ip in merged ==> merged[ip] in clientSimpleList;
    }

    /** One pass over every node's map. */
    method Merge() returns (m: map<Ip, ClientInfo>)
      requires Keyed(serverNodeMap)
      ensures IsMergeMap(m, serverNodeMap)
    {
      m := map[];
      var rest := serverNodeMap.Keys;
      ghost var done: map<nat, ServerNode> := map[];
      while rest != {}
        invariant rest <= serverNodeMap.Keys && done == serverNodeMap - rest
        invariant IsMergeMap(m, done)
        decreases |rest|
      {
        var id :| id in rest;
        rest := rest - {id};
        ghost var before := m;
        m := MergeClients(m, serverNodeMap[id].replica.clients);
        UnionExtendsMerge(m, before, done, id, serverNodeMap[id]);
        done := done[id := serverNodeMap[id]];
      }
      assert done == serverNodeMap;
    }

    /** The client forgets what it learnt but keeps its list of servers. */
    method Clear()
      modifies this
      ensures Valid() && clientSimpleList == [] && serverNodeMap.Keys == old(serverNodeMap.Keys)
      ensures forall id :: id in serverNodeMap ==> serverNodeMap[id] == ServerNode(false, None, Replica(0, map[]))
    {
      clientSimpleList := [];
      serverNodeMap := map id | id in serverNodeMap :: EMPTY_NODE;
      assert forall ip :: !Mentions(clientSimpleList, ip);
    }

    method SetServerConnected(serverId: nat, val: bool) returns (was: bool)
      requires Valid()
      modifies this`serverNodeMap
      ensures Valid() && was == Node(old(serverNodeMap), serverId).connected
      ensures serverNodeMap == old(serverNodeMap)[serverId := Node(old(serverNodeMap), serverId).(connected := val)]
    {
      var node := Node(serverNodeMap, serverId);
      was := node.connected;
      SameClientsSameMerge(clientSimpleList, serverNodeMap, serverId, node.(connected := val));
      serverNodeMap := serverNodeMap[serverId := node.(connected := val)];
    }

    predicate ExistsOnlineClientIp(ip: Ip)
      reads this
    {
      exists x :: x in clientSimpleList && x.ip == ip && x.online
    }

    /** The flat list answers "is this address online" as the servers' copies together do. */
    lemma OnlineIffSomeServerSaysSo(ip: Ip)
      requires Valid()
      ensures ExistsOnlineClientIp(ip) <==> SomeShowsOnline(serverNodeMap, ip)
    {
      if id :| id in serverNodeMap && ShowsOnline(serverNodeMap[id], ip) {
        assert Lists(serverNodeMap[id], ip) && Mentions(clientSimpleList, ip);
        var x :| x in clientSimpleList && x.ip == ip;
        assert x.online;
      }
    }

    /** With an accurate copy of a server's table, the flat list shows each of its connected devices
        that is settled at the copy's version. */
    lemma ConnectedDeviceIsVisible(id: nat, t: Table, self: Ip, d: DeviceId)
      requires Valid() && id in serverNodeMap && Accurate(t, self, serverNodeMap[id].replica)
      requires Settled(t, self, d, serverNodeMap[id].replica.version) && t.deviceMap[d].isConnected
      ensures ExistsOnlineClientIp(t.deviceMap[d].ip.value)
    {
      assert ShowsOnline(serverNodeMap[id], t.deviceMap[d].ip.value);
      OnlineIffSomeServerSaysSo(t.deviceMap[d].ip.value);
    }
  }

  ghost predicate IsMergeMap(m: map<Ip, ClientInfo>, nodes: map<nat, ServerNode>) {
    && KeyedByIp(m)
    && (forall ip :: ip in m <==> SomeLists(nodes, ip))
    && (forall ip :: ip in m ==> (m[ip].online <==> SomeShowsOnline(nodes, ip)))
  }

  lemma UnionExtendsMerge(m: map<Ip, ClientInfo>, before: map<Ip, ClientInfo>, nodes: map<nat, ServerNode>, id: nat,
                          n: ServerNode)
    requires IsMergeMap(before, nodes) && IsUnion(m, before, n.replica.clients) && id !in nodes
    ensures IsMergeMap(m, nodes[id := n])
  {
    OneMoreNode(nodes, id, n);
    var more := nodes[id := n];
    forall ip ensures ip in m <==> SomeLists(more, ip) {
      assert ip in m.Keys <==> ip in before.Keys || ip in n.replica.clients.Keys;
      assert SomeLists(more, ip) <==> SomeLists(nodes, ip) || Lists(n, ip);
    }
    forall ip | ip in m ensures m[ip].online <==> SomeShowsOnline(more, ip) {
      assert SomeShowsOnline(more, ip) <==> SomeShowsOnline(nodes, ip) || ShowsOnline(n, ip);
      if SomeShowsOnline(nodes, ip) { OnlineIsListed(nodes, ip); }
    }
  }

  lemma OnlineIsListed(nodes: map<nat, ServerNode>, ip: Ip)
    requires SomeShowsOnline(nodes, ip)
    ensures SomeLists(nodes, ip)
  {
    var k :| k in nodes && ShowsOnline(nodes[k], ip);
    assert Lists(nodes[k], ip);
  }

  lemma OneMoreNode(nodes: map<nat, ServerNode>, id: nat, n: ServerNode)
    requires id !in nodes
    ensures forall ip :: SomeLists(nodes[id := n], ip) <==> SomeLists(nodes, ip) || Lists(n, ip)
    ensures forall ip :: SomeShowsOnline(nodes[id := n], ip) <==> SomeShowsOnline(nodes, ip) || ShowsOnline(n, ip)
  {
    var more := nodes[id := n];
    forall ip ensures SomeLists(more, ip) <==> SomeLists(nodes, ip) || Lists(n, ip) {
      if Lists(n, ip) { assert more[id] == n; }
      if k :| k in nodes && Lists(nodes[k], ip) { assert k in more && more[k] == nodes[k]; }
    }
    forall ip ensures SomeShowsOnline(more, ip) <==> SomeShowsOnline(nodes, ip) || ShowsOnline(n, ip) {
      if ShowsOnline(n, ip) { assert more[id] == n; }
      if k :| k in nodes && ShowsOnline(nodes[k], ip) { assert k in more && more[k] == nodes[k]; }
    }
  }

  /** `m` lists what either map lists, online where either shows it online. */
  predicate IsUnion(m: map<Ip, ClientInfo>, a: map<Ip, ClientInfo>, b: map<Ip, ClientInfo>) {
    && KeyedByIp(m)
    && m.Keys == a.Keys + b.Keys
    && forall ip :: ip in m ==> (m[ip].online <==> Shown(a, ip) || Shown(b, ip))
  }

  /** The first mention of an address adds it, a later one can only turn it online. */
  function Add(m: map<Ip, ClientInfo>, x: ClientInfo): map<Ip, ClientInfo> {
    if x.ip !in m then m[x.ip := x] else if x.online then m[x.ip := m[x.ip].(online := true)] else m
  }

  lemma AddExtendsUnion(m: map<Ip, ClientInfo>, before: map<Ip, ClientInfo>, clients: map<Ip, ClientInfo>,
                        rest: set<Ip>, ip: Ip)
    requires IsUnion(m, before, clients - rest) && ip in rest && ip in clients && clients[ip].ip == ip
    ensures IsUnion(Add(m, clients[ip]), before, clients - (rest - {ip}))
  {
    assert (clients - (rest - {ip})).Keys == (clients - rest).Keys + {ip};
  }

  method MergeClients(before: map<Ip, ClientInfo>, clients: map<Ip, ClientInfo>) returns (m: map<Ip, ClientInfo>)
    requires KeyedByIp(before) && KeyedByIp(clients)
    ensures IsUnion(m, before, clients)
  {
    m := before;
    var rest := clients.Keys;
    assert clients - rest == map[];
    while rest != {}
      invariant rest <= clients.Keys && IsUnion(m, before, clients - rest)
      decreases |rest|
    {
      var ip :| ip in rest;
      AddExtendsUnion(m, before, clients, rest, ip);
      m := Add(m, clients[ip]);
      rest := rest - {ip};
    }
    assert clients - rest == clients;
  }

  lemma SameClientsSameMerge(list: seq<ClientInfo>, a: map<nat, ServerNode>, id: nat, n: ServerNode)
    requires Keyed(a) && IsMerge(list, a) && n.replica == Node(a, id).replica
    ensures Keyed(a[id := n]) && IsMerge(list, a[id := n])
  {
    var b := a[id := n];
    forall ip ensures SomeLists(a, ip) == SomeLists(b, ip) && SomeShowsOnline(a, ip) == SomeShowsOnline(b, ip) {
      if k :| k in a && Lists(a[k], ip) { assert k in b && Lists(b[k], ip); }
      if k :| k in b && Lists(b[k], ip) { assert k in a && Lists(a[k], ip); }
      if k :| k in a && ShowsOnline(a[k], ip) { assert k in b && ShowsOnline(b[k], ip); }
      if k :| k in b && ShowsOnline(b[k], ip) { assert k in a && ShowsOnline(a[k], ip); }
    }
  }

  /** The values of a map keyed by address, in some order. */
  method Values(m: map<Ip, ClientInfo>) returns (list: seq<ClientInfo>)
    requires KeyedByIp(m)
    ensures DistinctIps(list)
    ensures forall x :: x in list <==> x.ip in m && m[x.ip] == x
  {
    list := [];
    var rest := m.Keys;
    while rest != {}
      invariant rest <= m.Keys
      invariant forall x :: x in list <==> x.ip in m.Keys - rest && m[x.ip] == x
      invariant DistinctIps(list)
      decreases |rest|
    {
      var ip :| ip in rest;
      rest := rest - {ip};
      assert forall x :: x in list ==> x.ip != ip;
      list := list + [m[ip]];
    }
  }

  // ----- choosing a server

  /** The round-trip time of a connected server that shows `ip` online. */
  function Reach(nodes: map<nat, ServerNode>, ip: Ip, id: nat): Option<nat> {
    if id in nodes && nodes[id].connected && Shown(nodes[id].replica.clients, ip)
    then Some(if nodes[id].rtt.Some? then nodes[id].rtt.value else 0xFFFF_FFFF) else None
  }

  /** No listed server reaches `ip` faster than the k-th, and none before it as fast. */
  predicate FirstNearest(nodes: map<nat, ServerNode>, ids: seq<nat>, ip: Ip, k: nat) {
    && k < |ids| && Reach(nodes, ip, ids[k]).Some?
    && forall j :: 0 <= j < |ids| && Reach(nodes, ip, ids[j]).Some? ==>
         var near, other := Reach(nodes, ip, ids[k]).value, Reach(nodes, ip, ids[j]).value;
         near <= other && (j < k ==> near < other)
  }

  function FindIpToServer(nodes: map<nat, ServerNode>, ids: seq<nat>, ip: Ip): Option<nat> {
    if ids == [] then None else
    var best, last := FindIpToServer(nodes, ids[..|ids| - 1], ip), ids[|ids| - 1];
    match Reach(nodes, ip, last)
    case None => best
    case Some(rtt) =>
      if best.Some? && Reach(nodes, ip, best.value).Some? && Reach(nodes, ip, best.value).value <= rtt
      then best else Some(last)
  }

  /** The chosen server is the first nearest of the listed ones; none is chosen only if none reaches. */
  lemma {:induction false} FindIpToServerIsFirstNearest(nodes: map<nat, ServerNode>, ids: seq<nat>, ip: Ip)
    returns (k: nat)
    ensures FindIpToServer(nodes, ids, ip).None? <==> forall id :: id in ids ==> Reach(nodes, ip, id).None?
    ensures FindIpToServer(nodes, ids, ip).Some? ==>
      FirstNearest(nodes, ids, ip, k) && FindIpToServer(nodes, ids, ip).value == ids[k]
  {
    k := 0;
    if ids != [] {
      var n := |ids| - 1;
      var front := ids[..n];
      assert ids == front + [ids[n]];
      k := FindIpToServerIsFirstNearest(nodes, front, ip);
      assert forall j :: 0 <= j < n ==> ids[j] == front[j];
      if !(FindIpToServer(nodes, front, ip).Some?
           && FindIpToServer(nodes, ids, ip) == FindIpToServer(nodes, front, ip)) {
        k := n;
      }
    }
  }

  /** A listed server that is connected and shows the address online. */
  predicate Serves(nodes: map<nat, ServerNode>, ids: seq<nat>, ip: Ip, j: nat) {
    && j < |ids| && ids[j] in nodes && nodes[ids[j]].connected
    && ip in nodes[ids[j]].replica.clients && nodes[ids[j]].replica.clients[ip].online
  }

  /** In terms of the nodes: the choice falls on a listed server that is connected and shows the address
      online; no other such server has a smaller round-trip time, one not measured yet counting as the
      largest 32-bit number, and every such server listed earlier has a greater one.  None is chosen if
      and only if there is no such server. */
  lemma ChoiceIsNearest(nodes: map<nat, ServerNode>, ids: seq<nat>, ip: Ip) returns (k: nat)
    ensures FindIpToServer(nodes, ids, ip).None? <==> forall j: nat :: !Serves(nodes, ids, ip, j)
    ensures FindIpToServer(nodes, ids, ip).Some? ==>
      Serves(nodes, ids, ip, k) && FindIpToServer(nodes, ids, ip).value == ids[k]
    ensures FindIpToServer(nodes, ids, ip).Some? ==> forall j: nat :: Serves(nodes, ids, ip, j) ==>
      var near := match nodes[ids[k]].rtt case None => 0xFFFF_FFFF case Some(t) => t;
      var other := match nodes[ids[j]].rtt case None => 0xFFFF_FFFF case Some(t) => t;
      near <= other && (j < k ==> near < other)
  {
    k := FindIpToServerIsFirstNearest(nodes, ids, ip);
    forall j: nat | j < |ids| ensures Serves(nodes, ids, ip, j) <==> Reach(nodes, ip, ids[j]).Some? {
    }
    if forall j: nat :: !Serves(nodes, ids, ip, j) {
      forall id | id in ids ensures Reach(nodes, ip, id).None? {
        var j: nat :| j < |ids| && ids[j] == id;
        assert !Serves(nodes, ids, ip, j);
      }
    }
    if j: nat :| Serves(nodes, ids, ip, j) {
      assert ids[j] in ids;
    }
  }
}
