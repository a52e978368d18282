/** The federation route table: for each network and address the best routes over peer servers. */
module Federation {
  import opened Base

  type PeerId = nat
  type NetworkCode = string

  const MAX_ROUTES_PER_IP := 5
  const DEFAULT_SERVER_LATENCY_MS := 10

  datatype IpRoute = IpRoute(peer: PeerId, clientLatency: nat)

  /** Current one-way latency of each peer, as last measured. */
  type Latencies = map<PeerId, nat>

  function PeerLatency(lat: Latencies, p: PeerId): nat {
    if p in lat then lat[p] else DEFAULT_SERVER_LATENCY_MS
  }

  /** A 32-bit sum, as in a build without overflow checks. */
  function Total(lat: Latencies, r: IpRoute): nat {
    (PeerLatency(lat, r.peer) + r.clientLatency + 2) % 0x1_0000_0000
  }

  /** No sum of latencies overflows 32 bits. */
  predicate Small(lat: Latencies, list: seq<IpRoute>) {
    forall x :: x in list ==>
      (if x.peer in lat then lat[x.peer] else 10) + x.clientLatency + 2 < 0x1_0000_0000
  }

  lemma TotalIsSum(lat: Latencies, list: seq<IpRoute>)
    requires Small(lat, list)
    ensures forall x :: x in list ==>
      Total(lat, x) == (if x.peer in lat then lat[x.peer] else 10) + x.clientLatency + 2
  {
  }

  /** A total is what 32 bits hold of the sum, so a sum that overflows looks like a short way. */
  lemma TotalIsLowBits(lat: Latencies, x: IpRoute)
    ensures var sum := (if x.peer in lat then lat[x.peer] else 10) + x.clientLatency + 2;
      Total(lat, x) < 0x1_0000_0000 && Total(lat, x) <= sum && (sum - Total(lat, x)) % 0x1_0000_0000 == 0
  {
  }

  // ----- one list of routes

  predicate DistinctPeers(list: seq<IpRoute>) {
    forall i, j :: 0 <= i < j < |list| ==> list[i].peer != list[j].peer
  }

  predicate HasPeer(list: seq<IpRoute>, p: PeerId) {
    exists i :: 0 <= i < |list| && list[i].peer == p
  }

  predicate ByLatency(lat: Latencies, list: seq<IpRoute>) {
    forall i, j :: 0 <= i < j < |list| ==> Total(lat, list[i]) <= Total(lat, list[j])
  }

  /** The peer's first entry gets the new client latency, or a new entry goes to the end. */
  function Report(list: seq<IpRoute>, p: PeerId, latency: nat): seq<IpRoute> {
    if list == [] then [IpRoute(p, latency)]
    else if list[0].peer == p then [IpRoute(p, latency)] + list[1..]
    else [list[0]] + Report(list[1..], p, latency)
  }

  /** Inserts behind every route that is no slower. */
  function Place(lat: Latencies, list: seq<IpRoute>, r: IpRoute): seq<IpRoute> {
    if list == [] || Total(lat, list[|list| - 1]) <= Total(lat, r) then list + [r]
    else Place(lat, list[..|list| - 1], r) + [list[|list| - 1]]
  }

  /** A stable sort by current total latency. */
  function SortByLatency(lat: Latencies, list: seq<IpRoute>): seq<IpRoute> {
    if list == [] then []
    else Place(lat, SortByLatency(lat, list[..|list| - 1]), list[|list| - 1])
  }

  function Best(lat: Latencies, list: seq<IpRoute>): seq<IpRoute> {
    var s := SortByLatency(lat, list);
    if |s| <= MAX_ROUTES_PER_IP then s else s[..MAX_ROUTES_PER_IP]
  }

  lemma {:induction false} PlaceAdds(lat: Latencies, list: seq<IpRoute>, r: IpRoute)
    ensures multiset(Place(lat, list, r)) == multiset(list) + multiset{r}
    ensures |Place(lat, list, r)| == |list| + 1
  {
    if list != [] {
      assert list == list[..|list| - 1] + [list[|list| - 1]];
      PlaceAdds(lat, list[..|list| - 1], r);
    }
  }

  lemma {:induction false} PlaceSorts(lat: Latencies, list: seq<IpRoute>, r: IpRoute)
    requires ByLatency(lat, list)
    ensures ByLatency(lat, Place(lat, list, r))
  {
    if list == [] || Total(lat, list[|list| - 1]) <= Total(lat, r) {
    } else {
      var front, last := list[..|list| - 1], list[|list| - 1];
      PlaceSorts(lat, front, r);
      PlaceAdds(lat, front, r);
      var placed := Place(lat, front, r);
      forall i | 0 <= i < |placed| ensures Total(lat, placed[i]) <= Total(lat, last) {
        assert placed[i] in multiset(placed);
        assert placed[i] in front || placed[i] == r;
      }
    }
  }

  lemma {:induction false} SortSorts(lat: Latencies, list: seq<IpRoute>)
    ensures ByLatency(lat, SortByLatency(lat, list))
    ensures multiset(SortByLatency(lat, list)) == multiset(list)
    ensures |SortByLatency(lat, list)| == |list|
  {
    if list != [] {
      var front := list[..|list| - 1];
      assert list == front + [list[|list| - 1]];
      SortSorts(lat, front);
      PlaceAdds(lat, SortByLatency(lat, front), list[|list| - 1]);
      PlaceSorts(lat, SortByLatency(lat, front), list[|list| - 1]);
    }
  }

  predicate NoFaster(lat: Latencies, best: seq<IpRoute>, rest: multiset<IpRoute>) {
    forall x, y :: x in rest && y in best ==> Total(lat, y) <= Total(lat, x)
  }

  /** `best` is a selection of the five fastest routes of `all`, fastest first. */
  predicate IsBestFive(lat: Latencies, all: seq<IpRoute>, best: seq<IpRoute>) {
    && |best| == (if |all| <= MAX_ROUTES_PER_IP then |all| else MAX_ROUTES_PER_IP)
    && ByLatency(lat, best)
    && multiset(best) <= multiset(all)
    && NoFaster(lat, best, multiset(all) - multiset(best))
  }

  lemma FrontIsFaster(lat: Latencies, s: seq<IpRoute>, n: nat)
    requires ByLatency(lat, s) && n <= |s|
    ensures NoFaster(lat, s[..n], multiset(s[n..]))
  {
    forall x, y | x in multiset(s[n..]) && y in s[..n] ensures Total(lat, y) <= Total(lat, x) {
      var i :| 0 <= i < n && s[i] == y;
      var j :| n <= j < |s| && s[j] == x;
    }
  }

  lemma SplitMultiset(s: seq<IpRoute>, n: nat)
    requires n <= |s|
    ensures multiset(s) - multiset(s[..n]) == multiset(s[n..]) && multiset(s[..n]) <= multiset(s)
  {
    assert s == s[..n] + s[n..];
  }

  lemma BestIsBestFive(lat: Latencies, all: seq<IpRoute>)
    ensures IsBestFive(lat, all, Best(lat, all))
  {
    var s := SortByLatency(lat, all);
    SortSorts(lat, all);
    var n := if |s| <= MAX_ROUTES_PER_IP then |s| else MAX_ROUTES_PER_IP;
    assert Best(lat, all) == s[..n];
    FrontIsFaster(lat, s, n);
    SplitMultiset(s, n);
    FrontIsSorted(lat, s, n);
  }

  lemma FrontIsSorted(lat: Latencies, s: seq<IpRoute>, n: nat)
    requires ByLatency(lat, s) && n <= |s|
    ensures ByLatency(lat, s[..n])
  {
  }

  /** The best five by the sum of the peer's measured latency, 10 if there is none, the client's
      latency and 2: no route that is left out has a smaller sum than one that is kept. */
  lemma BestHasLeastSums(lat: Latencies, all: seq<IpRoute>, x: IpRoute, y: IpRoute)
    requires Small(lat, all) && x in Best(lat, all) && y in multiset(all) - multiset(Best(lat, all))
    ensures (if x.peer in lat then lat[x.peer] else 10) + x.clientLatency
         <= (if y.peer in lat then lat[y.peer] else 10) + y.clientLatency
    ensures |Best(lat, all)| == 5
  {
    var best := Best(lat, all);
    BestIsBestFive(lat, all);
    TotalIsSum(lat, all);
    assert x in multiset(best) && x in multiset(all) && y in multiset(all);
    SortSorts(lat, all);
    if |all| <= 5 {
      assert false;
    }
  }

  lemma {:induction false} ReportReplacesOne(list: seq<IpRoute>, p: PeerId, latency: nat)
    requires DistinctPeers(list)
    ensures var all := Report(list, p, latency);
      && DistinctPeers(all)
      && (forall x :: x in all <==> x == IpRoute(p, latency) || (x in list && x.peer != p))
      && |all| == (if HasPeer(list, p) then |list| else |list| + 1)
  {
    if list != [] && list[0].peer != p {
      ReportReplacesOne(list[1..], p, latency);
      assert list == [list[0]] + list[1..];
      assert HasPeer(list, p) == HasPeer(list[1..], p) by {
        if HasPeer(list, p) {
          var i :| 0 <= i < |list| && list[i].peer == p;
          assert list[1..][i - 1].peer == p;
        }
      }
      var all := Report(list[1..], p, latency);
      forall i | 0 <= i < |all| ensures all[i].peer != list[0].peer {
        assert all[i] in all;
      }
    } else if list != [] {
      assert list == [list[0]] + list[1..];
      assert list[0].peer == p;
    }
  }

  /** A selection from a list with one entry per peer has one entry per peer. */
  lemma SelectionKeepsDistinctPeers(all: seq<IpRoute>, best: seq<IpRoute>)
    requires DistinctPeers(all) && multiset(best) <= multiset(all)
    ensures DistinctPeers(best)
  {
    forall i, j | 0 <= i < j < |best| ensures best[i].peer != best[j].peer {
      if best[i].peer == best[j].peer {
        assert best[i] in multiset(all) && best[j] in multiset(all);
        assert best[i] == best[j];
        assert multiset(best)[best[i]] >= 2 by {
          assert best == best[..j] + [best[j]] + best[j + 1..];
          assert best[i] in best[..j];
        }
        OnceEach(all, best[i]);
      }
    }
  }

  lemma {:induction false} OnceEach(all: seq<IpRoute>, x: IpRoute)
    requires DistinctPeers(all)
    ensures multiset(all)[x] <= 1
  {
    if all != [] {
      var front, last := all[..|all| - 1], all[|all| - 1];
      assert all == front + [last];
      OnceEach(front, x);
    }
  }

  // ----- one network

  type IpRoutes = map<Ip, seq<IpRoute>>

  /** One reported client: an unknown address starts a list, a known one is merged, ordered and cut. */
  function AfterClient(lat: Latencies, m: IpRoutes, p: PeerId, ip: Ip, latency: nat): IpRoutes {
    m[ip := if ip in m then Best(lat, Report(m[ip], p, latency)) else [IpRoute(p, latency)]]
  }

  datatype Client = Client(ip: Ip, latency: nat)

  function AfterClients(lat: Latencies, m: IpRoutes, p: PeerId, clients: seq<Client>): IpRoutes {
    if clients == [] then m else
    var last := clients[|clients| - 1];
    AfterClient(lat, AfterClients(lat, m, p, clients[..|clients| - 1]), p, last.ip, last.latency)
  }

  function DropPeer(list: seq<IpRoute>, p: PeerId): seq<IpRoute> {
    if list == [] then []
    else (if list[0].peer == p then [] else [list[0]]) + DropPeer(list[1..], p)
  }

  /** The peer's routes to the addresses outside `listed` go, and with them every list that runs empty. */
  function Retain(m: IpRoutes, p: PeerId, listed: set<Ip>): IpRoutes {
    var rest := map ip | ip in m :: if ip in listed then m[ip] else DropPeer(m[ip], p);
    map ip | ip in rest && rest[ip] != [] :: rest[ip]
  }

  function Ips(clients: seq<Client>): set<Ip> {
    set x | x in clients :: x.ip
  }

  /** A whole answer of one peer about one network. */
  function AfterNetwork(lat: Latencies, m: IpRoutes, p: PeerId, clients: seq<Client>): IpRoutes {
    Retain(AfterClients(lat, m, p, clients), p, Ips(clients))
  }

  /** No list is empty, longer than five, or names a peer twice. */
  predicate WellKept(m: IpRoutes) {
    forall ip :: ip in m ==> 1 <= |m[ip]| <= MAX_ROUTES_PER_IP && DistinctPeers(m[ip])
  }

  lemma {:induction false} DropPeerDrops(list: seq<IpRoute>, p: PeerId)
    ensures var r := DropPeer(list, p);
      && (forall x :: x in r <==> x in list && x.peer != p)
      && |r| <= |list|
      && (DistinctPeers(list) ==> DistinctPeers(r))
  {
    if list != [] {
      DropPeerDrops(list[1..], p);
      assert list == [list[0]] + list[1..];
      var r := DropPeer(list[1..], p);
      forall i | 0 <= i < |r| ensures r[i] in list[1..] {
        assert r[i] in r;
      }
    }
  }

  lemma ClientKeepsWellKept(lat: Latencies, m: IpRoutes, p: PeerId, ip: Ip, latency: nat)
    requires WellKept(m)
    ensures WellKept(AfterClient(lat, m, p, ip, latency))
  {
    if ip in m {
      var all := Report(m[ip], p, latency);
      ReportReplacesOne(m[ip], p, latency);
      BestIsBestFive(lat, all);
      SelectionKeepsDistinctPeers(all, Best(lat, all));
    }
  }

  lemma {:induction false} ClientsKeepWellKept(lat: Latencies, m: IpRoutes, p: PeerId, clients: seq<Client>)
    requires WellKept(m)
    ensures WellKept(AfterClients(lat, m, p, clients))
  {
    if clients != [] {
      var n := |clients| - 1;
      ClientsKeepWellKept(lat, m, p, clients[..n]);
      ClientKeepsWellKept(lat, AfterClients(lat, m, p, clients[..n]), p, clients[n].ip, clients[n].latency);
    }
  }

  lemma RetainKeepsWellKept(m: IpRoutes, p: PeerId, listed: set<Ip>)
    requires WellKept(m)
    ensures WellKept(Retain(m, p, listed))
  {
    forall ip | ip in m ensures |DropPeer(m[ip], p)| <= |m[ip]| && DistinctPeers(DropPeer(m[ip], p)) {
      DropPeerDrops(m[ip], p);
    }
  }

  function Old(m: IpRoutes, ip: Ip): seq<IpRoute> {
    if ip in m then m[ip] else []
  }

  lemma RetainAt(m: IpRoutes, p: PeerId, listed: set<Ip>, ip: Ip)
    ensures var kept := if ip in listed then Old(m, ip) else DropPeer(Old(m, ip), p);
      Old(Retain(m, p, listed), ip) == kept && (ip in Retain(m, p, listed) <==> kept != [])
  {
  }

  // ----- all networks

  type Networks = map<NetworkCode, IpRoutes>

  datatype NetworkInfo = NetworkInfo(code: NetworkCode, clients: seq<Client>)

  function Routes(nets: Networks, code: NetworkCode): IpRoutes {
    if code in nets then nets[code] else map[]
  }

  function AfterAnswer(lat: Latencies, nets: Networks, p: PeerId, infos: seq<NetworkInfo>): Networks {
    if infos == [] then nets else
    var before, x := AfterAnswer(lat, nets, p, infos[..|infos| - 1]), infos[|infos| - 1];
    before[x.code := AfterNetwork(lat, Routes(before, x.code), p, x.clients)]
  }

  function Codes(infos: seq<NetworkInfo>): set<NetworkCode> {
    if infos == [] then {} else Codes(infos[..|infos| - 1]) + {infos[|infos| - 1].code}
  }

  /** The networks of an answer are those it names. */
  lemma {:induction false} CodesAreNamed(infos: seq<NetworkInfo>, code: NetworkCode)
    ensures code in Codes(infos) <==> exists x :: x in infos && x.code == code
  {
    if infos != [] {
      var front, last := infos[..|infos| - 1], infos[|infos| - 1];
      assert infos == front + [last];
      CodesAreNamed(front, code);
    }
  }

  /** Some list of the network names the peer. */
  predicate Refers(m: IpRoutes, p: PeerId) {
    exists ip :: ip in m && HasPeer(m[ip], p)
  }

  /** Every route of a peer lies in a network that the peer's loop has recorded. */
  predicate Recorded(nets: Networks, codes: map<PeerId, set<NetworkCode>>) {
    forall code, ip, i :: code in nets && ip in nets[code] && 0 <= i < |nets[code][ip]| ==>
      var p := nets[code][ip][i].peer; p in codes && code in codes[p]
  }

  lemma {:induction false} ReportPeers(list: seq<IpRoute>, p: PeerId, latency: nat)
    ensures forall x :: x in Report(list, p, latency) ==> x.peer == p || x in list
  {
    if list != [] && list[0].peer != p {
      ReportPeers(list[1..], p, latency);
    }
  }

  /** An answer of `p` brings in no other peer. */
  predicate OnlyAdds(p: PeerId, before: IpRoutes, now: IpRoutes) {
    forall ip, x :: ip in now && x in now[ip] ==> x.peer == p || (ip in before && x in before[ip])
  }

  lemma ClientOnlyAdds(lat: Latencies, m: IpRoutes, p: PeerId, ip: Ip, latency: nat)
    ensures OnlyAdds(p, m, AfterClient(lat, m, p, ip, latency))
  {
    if ip in m {
      var all := Report(m[ip], p, latency);
      ReportPeers(m[ip], p, latency);
      BestIsBestFive(lat, all);
      forall x | x in Best(lat, all) ensures x in all {
        assert x in multiset(Best(lat, all));
      }
    }
  }

  lemma OnlyAddsOnward(p: PeerId, a: IpRoutes, b: IpRoutes, c: IpRoutes)
    requires OnlyAdds(p, a, b) && OnlyAdds(p, b, c)
    ensures OnlyAdds(p, a, c)
  {
  }

  lemma {:induction false} ClientsOnlyAdd(lat: Latencies, m: IpRoutes, p: PeerId, clients: seq<Client>)
    ensures OnlyAdds(p, m, AfterClients(lat, m, p, clients))
  {
    if clients != [] {
      var n := |clients| - 1;
      ClientsOnlyAdd(lat, m, p, clients[..n]);
      var u := AfterClients(lat, m, p, clients[..n]);
      ClientOnlyAdds(lat, u, p, clients[n].ip, clients[n].latency);
      OnlyAddsOnward(p, m, u, AfterClients(lat, m, p, clients));
    }
  }

  lemma RetainOnlyAdds(m: IpRoutes, p: PeerId, listed: set<Ip>)
    ensures OnlyAdds(p, m, Retain(m, p, listed))
  {
    forall ip | ip in m ensures forall x :: x in DropPeer(m[ip], p) ==> x in m[ip] {
      DropPeerDrops(m[ip], p);
    }
  }

  lemma NetworkOnlyAdds(lat: Latencies, m: IpRoutes, p: PeerId, clients: seq<Client>)
    ensures OnlyAdds(p, m, AfterNetwork(lat, m, p, clients))
  {
    var u := AfterClients(lat, m, p, clients);
    ClientsOnlyAdd(lat, m, p, clients);
    RetainOnlyAdds(u, p, Ips(clients));
    OnlyAddsOnward(p, m, u, Retain(u, p, Ips(clients)));
  }

  lemma NetworkKeepsWellKept(lat: Latencies, m: IpRoutes, p: PeerId, clients: seq<Client>)
    requires WellKept(m)
    ensures WellKept(AfterNetwork(lat, m, p, clients))
  {
    ClientsKeepWellKept(lat, m, p, clients);
    RetainKeepsWellKept(AfterClients(lat, m, p, clients), p, Ips(clients));
  }

  /** The routes of `p` leave one network. */
  function Cleaned(m: IpRoutes, p: PeerId): IpRoutes {
    Retain(m, p, {})
  }

  lemma CleanedRefers(m: IpRoutes, p: PeerId)
    ensures !Refers(Cleaned(m, p), p) && OnlyAdds(p, m, Cleaned(m, p))
  {
    forall ip | ip in m
      ensures !HasPeer(DropPeer(m[ip], p), p) && forall x :: x in DropPeer(m[ip], p) ==> x in m[ip]
    {
      DropPeerDrops(m[ip], p);
      var r := DropPeer(m[ip], p);
      forall i | 0 <= i < |r| ensures r[i].peer != p {
        assert r[i] in r;
      }
    }
  }

  /** The clean-up of a network takes the peer's routes and no others, and keeps their order. */
  lemma CleanedIsExact(m: IpRoutes, p: PeerId, ip: Ip)
    ensures forall x :: x in Old(Cleaned(m, p), ip) <==> x in Old(m, ip) && x.peer != p
    ensures forall lat :: ByLatency(lat, Old(m, ip)) ==> ByLatency(lat, Old(Cleaned(m, p), ip))
    ensures ip in Cleaned(m, p) <==> Old(Cleaned(m, p), ip) != []
  {
    RetainAt(m, p, {}, ip);
    DropPeerDrops(Old(m, ip), p);
    forall lat | ByLatency(lat, Old(m, ip)) ensures ByLatency(lat, DropPeer(Old(m, ip), p)) {
      DropPeerKeepsOrder(lat, Old(m, ip), p);
    }
  }

  lemma {:induction false} DropPeerKeepsOrder(lat: Latencies, list: seq<IpRoute>, p: PeerId)
    requires ByLatency(lat, list)
    ensures ByLatency(lat, DropPeer(list, p))
  {
    if list != [] {
      var rest := DropPeer(list[1..], p);
      DropPeerKeepsOrder(lat, list[1..], p);
      DropPeerDrops(list[1..], p);
      forall i | 0 <= i < |rest| ensures Total(lat, list[0]) <= Total(lat, rest[i]) {
        assert rest[i] in list[1..];
        var j :| 0 <= j < |list[1..]| && list[1..][j] == rest[i];
        assert list[j + 1] == rest[i];
      }
    }
  }

  lemma RecordedAfter(nets: Networks, codes: map<PeerId, set<NetworkCode>>, p: PeerId, code: NetworkCode, m: IpRoutes)
    requires Recorded(nets, codes) && p in codes && OnlyAdds(p, Routes(nets, code), m)
    ensures Recorded(nets[code := m], codes[p := codes[p] + {code}])
  {
    forall ip, i | ip in m && 0 <= i < |m[ip]| && m[ip][i].peer != p
      ensures m[ip][i].peer in codes && code in codes[m[ip][i].peer]
    {
      assert m[ip][i] in m[ip];
      var j :| 0 <= j < |nets[code][ip]| && nets[code][ip][j] == m[ip][i];
    }
  }

  class PeerServerManager {
    var latencies: Latencies
    var connected: set<PeerId>
    var ipToRoutes: Networks
    /** The networks recorded by each running communication loop. */
    var networkCodes: map<PeerId, set<NetworkCode>>

    ghost predicate Valid()
      reads this
    {
      && (forall code :: code in ipToRoutes ==> WellKept(ipToRoutes[code]))
      && Recorded(ipToRoutes, networkCodes)
    }

    constructor ()
      ensures Valid() && ipToRoutes == map[]
    {
      latencies, connected, ipToRoutes, networkCodes := map[], {}, map[], map[];
    }

    method StartPeer(p: PeerId)
      requires Valid() && p !in networkCodes
      modifies this
      ensures Valid() && ipToRoutes == old(ipToRoutes)
      ensures networkCodes == old(networkCodes)[p := {}] && connected == old(connected) + {p}
    {
      networkCodes := networkCodes[p := {}];
      connected := connected + {p};
    }

    method UpdateLatency(p: PeerId, latency: nat)
      requires Valid()
      modifies this`latencies
      ensures Valid() && latencies == old(latencies)[p := latency]
    {
      latencies := latencies[p := latency];
    }

    /** Takes over one peer's answer, network by network and client by client. */
    method HandleClientInfoResponse(p: PeerId, infos: seq<NetworkInfo>)
      requires Valid() && p in networkCodes
      modifies this`ipToRoutes, this`networkCodes
      ensures Valid()
      ensures ipToRoutes == AfterAnswer(latencies, old(ipToRoutes), p, infos)
      ensures networkCodes == old(networkCodes)[p := old(networkCodes)[p] + Codes(infos)]
    {
      ghost var codes0 := networkCodes;
      for n := 0 to |infos|
        invariant Valid() && p in networkCodes
        invariant ipToRoutes == AfterAnswer(latencies, old(ipToRoutes), p, infos[..n])
        invariant networkCodes == codes0[p := networkCodes[p]] && networkCodes[p] == codes0[p] + Codes(infos[..n])
      {
        assert infos[..n + 1][..n] == infos[..n] && infos[..n + 1] == infos[..n] + [infos[n]];
        var code, clients := infos[n].code, infos[n].clients;
        HandleNetwork(p, code, clients);
      }
      assert infos[..|infos|] == infos;
    }

    /** Records the network, takes over its listed clients and retires what is no longer listed. */
    method HandleNetwork(p: PeerId, code: NetworkCode, clients: seq<Client>)
      requires Valid() && p in networkCodes
      modifies this`ipToRoutes, this`networkCodes
      ensures Valid()
      ensures ipToRoutes == old(ipToRoutes)[code := AfterNetwork(latencies, Routes(old(ipToRoutes), code), p, clients)]
      ensures networkCodes == old(networkCodes)[p := old(networkCodes)[p] + {code}]
    {
      var before := Routes(ipToRoutes, code);
      NetworkKeepsWellKept(latencies, before, p, clients);
      NetworkOnlyAdds(latencies, before, p, clients);
      RecordedAfter(ipToRoutes, networkCodes, p, code, AfterNetwork(latencies, before, p, clients));
      networkCodes := networkCodes[p := networkCodes[p] + {code}];
      var ipMap := MergeClients(before, p, clients);
      ipMap := Retain(ipMap, p, Ips(clients));
      ipToRoutes := ipToRoutes[code := ipMap];
    }

    method MergeClients(m: IpRoutes, p: PeerId, clients: seq<Client>) returns (r: IpRoutes)
      ensures r == AfterClients(latencies, m, p, clients)
    {
      r := m;
      for k := 0 to |clients|
        invariant r == AfterClients(latencies, m, p, clients[..k])
      {
        assert clients[..k + 1][..k] == clients[..k];
        var x := clients[k];
        if x.ip in r {
          r := r[x.ip := Best(latencies, Report(r[x.ip], p, x.latency))];
        } else {
          r := r[x.ip := [IpRoute(p, x.latency)]];
        }
      }
      assert clients[..|clients|] == clients;
    }

    /** The end of a peer's loop: afterwards no network refers to the peer. */
    method EndPeer(p: PeerId)
      requires Valid() && p in networkCodes
      modifies this
      ensures Valid() && connected == old(connected) - {p} && networkCodes == old(networkCodes) - {p}
      ensures forall code :: code in ipToRoutes ==> !Refers(ipToRoutes[code], p)
      ensures forall code, ip ::
        WithoutPeer(Old(Routes(old(ipToRoutes), code), ip), Old(Routes(ipToRoutes, code), ip), p)
      ensures ipToRoutes == map code | code in old(ipToRoutes) ::
        if code in old(networkCodes)[p] then Cleaned(old(ipToRoutes)[code], p) else old(ipToRoutes)[code]
    {
      connected := connected - {p};
      CleanupRoutes(p, networkCodes[p]);
      assert Recorded(old(ipToRoutes), old(networkCodes));
      CleanupIsComplete(old(ipToRoutes), ipToRoutes, networkCodes, p);
      CleanupTakesOnly(old(ipToRoutes), ipToRoutes, networkCodes, p);
      networkCodes := networkCodes - {p};
    }

    method CleanupRoutes(p: PeerId, codes: set<NetworkCode>)
      modifies this`ipToRoutes
      ensures ipToRoutes == map code | code in old(ipToRoutes) ::
        if code in codes then Cleaned(old(ipToRoutes)[code], p) else old(ipToRoutes)[code]
    {
      ghost var before := ipToRoutes;
      var rest := codes;
      while rest != {}
        invariant rest <= codes
        invariant ipToRoutes == map code | code in before ::
          if code in codes - rest then Cleaned(before[code], p) else before[code]
        decreases |rest|
      {
        var code :| code in rest;
        rest := rest - {code};
        if code in ipToRoutes {
          ipToRoutes := ipToRoutes[code := Cleaned(ipToRoutes[code], p)];
        }
      }
    }

    /** The connected peer of least total latency, the first such one in the list, with what the
        server itself measured to a device of its own at the address. */
    method FindBestRoute(code: NetworkCode, ip: Ip, local: Option<nat>) returns (r: Option<(PeerId, nat, Option<nat>)>)
      ensures var list := Old(Routes(ipToRoutes, code), ip);
        && (r.None? <==> forall x :: x in list ==> x.peer !in connected)
        && (r.Some? ==> exists k: nat :: FirstBest(latencies, connected, list, k)
                                         && r.value == (list[k].peer, Total(latencies, list[k]), local))
      ensures r.Some? && Small(latencies, Old(Routes(ipToRoutes, code), ip)) ==>
        var list := Old(Routes(ipToRoutes, code), ip);
        && r.value.0 in connected
        && (exists x :: x in list && x.peer == r.value.0 && r.value.1 ==
              (if x.peer in latencies then latencies[x.peer] else 10) + x.clientLatency + 2)
        && (forall x :: x in list && x.peer in connected ==>
              r.value.1 <= (if x.peer in latencies then latencies[x.peer] else 10) + x.clientLatency + 2)
    {
      if code !in ipToRoutes || ip !in ipToRoutes[code] { return None; }
      var list := ipToRoutes[code][ip];
      var best: Option<(PeerId, nat)> := None;
      ghost var at := 0;
      for i := 0 to |list|
        invariant best.None? <==> forall j :: 0 <= j < i ==> list[j].peer !in connected
        invariant best.Some? ==> at < i && best.value == (list[at].peer, Total(latencies, list[at]))
        invariant best.Some? ==> FirstBest(latencies, connected, list[..i], at)
      {
        assert list[..i + 1] == list[..i] + [list[i]];
        if list[i].peer in connected {
          var total := Total(latencies, list[i]);
          if best.None? || total < best.value.1 {
            best := Some((list[i].peer, total));
            at := i;
          }
        }
      }
      assert list[..|list|] == list;
      if best.None? { return None; }
      if Small(latencies, list) { TotalIsSum(latencies, list); }
      return Some((best.value.0, best.value.1, local));
    }
  }

  /** The k-th route is over a connected peer; no such route is faster and none before it as fast. */
  predicate FirstBest(lat: Latencies, connected: set<PeerId>, list: seq<IpRoute>, k: nat) {
    && k < |list| && list[k].peer in connected
    && forall j :: 0 <= j < |list| && list[j].peer in connected ==>
         Total(lat, list[k]) <= Total(lat, list[j]) && (j < k ==> Total(lat, list[k]) < Total(lat, list[j]))
  }

  /** The routes to one address without those over the peer. */
  ghost predicate WithoutPeer(before: seq<IpRoute>, after: seq<IpRoute>, p: PeerId) {
    forall x :: x in after <==> x in before && x.peer != p
  }

  lemma CleanupTakesOnly(nets: Networks, nets': Networks, codes: map<PeerId, set<NetworkCode>>, p: PeerId)
    requires Recorded(nets, codes) && p in codes
    requires nets' == map code | code in nets :: if code in codes[p] then Cleaned(nets[code], p) else nets[code]
    ensures forall code, ip :: WithoutPeer(Old(Routes(nets, code), ip), Old(Routes(nets', code), ip), p)
  {
    forall code, ip ensures WithoutPeer(Old(Routes(nets, code), ip), Old(Routes(nets', code), ip), p) {
      var list := Old(Routes(nets, code), ip);
      if code in nets && code in codes[p] {
        CleanedIsExact(nets[code], p, ip);
      } else {
        forall x | x in list ensures x.peer != p {
          var i :| 0 <= i < |list| && list[i] == x;
          assert nets[code][ip][i] == x;
        }
      }
    }
  }

  lemma CleanupIsComplete(nets: Networks, nets': Networks, codes: map<PeerId, set<NetworkCode>>, p: PeerId)
    requires Recorded(nets, codes) && p in codes
    requires forall code :: code in nets ==> WellKept(nets[code])
    requires nets' == map code | code in nets :: if code in codes[p] then Cleaned(nets[code], p) else nets[code]
    ensures forall code :: code in nets' ==> !Refers(nets'[code], p) && WellKept(nets'[code])
    ensures Recorded(nets', codes - {p})
  {
    forall code | code in nets
      ensures !Refers(nets'[code], p) && WellKept(nets'[code]) && OnlyAdds(p, nets[code], nets'[code])
    {
      CleanedRefers(nets[code], p);
      RetainKeepsWellKept(nets[code], p, {});
    }
    forall code, ip, i | code in nets' && ip in nets'[code] && 0 <= i < |nets'[code][ip]|
      ensures var q := nets'[code][ip][i].peer; q in codes - {p} && code in (codes - {p})[q]
    {
      assert nets'[code][ip][i] in nets'[code][ip];
      assert HasPeer(nets'[code][ip], nets'[code][ip][i].peer);
      var j :| 0 <= j < |nets[code][ip]| && nets[code][ip][j] == nets'[code][ip][i];
    }
  }
}
