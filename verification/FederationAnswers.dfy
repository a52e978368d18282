/** What a peer's answer about one network leaves of each address's routes. */
module FederationAnswers {
  import opened Base
  import opened Federation

  /** The latencies an answer gives for one address, in order; it may give several. */
  function ReportsFor(clients: seq<Client>, ip: Ip): (ls: seq<nat>)
    ensures ls == [] <==> forall x :: x in clients ==> x.ip != ip
  {
    if clients == [] then [] else
    var front, last := clients[..|clients| - 1], clients[|clients| - 1];
    assert clients == front + [last];
    ReportsFor(front, ip) + (if last.ip == ip then [last.latency] else [])
  }

  /** One list after a peer's reports. */
  function AfterReports(lat: Latencies, list: seq<IpRoute>, p: PeerId, ls: seq<nat>): seq<IpRoute> {
    if ls == [] then list else
    Best(lat, Report(AfterReports(lat, list, p, ls[..|ls| - 1]), p, ls[|ls| - 1]))
  }

  lemma OneClient(lat: Latencies, m: IpRoutes, p: PeerId, c: Client, ip: Ip)
    ensures Old(AfterClient(lat, m, p, c.ip, c.latency), ip) ==
      if c.ip == ip then Best(lat, Report(Old(m, ip), p, c.latency)) else Old(m, ip)
  {
    assert SortByLatency(lat, [IpRoute(p, c.latency)]) == [IpRoute(p, c.latency)];
  }

  lemma OneReport(lat: Latencies, list: seq<IpRoute>, p: PeerId, front: seq<nat>, last: nat)
    ensures AfterReports(lat, list, p, front + [last]) == Best(lat, Report(AfterReports(lat, list, p, front), p, last))
  {
    assert (front + [last])[..|front|] == front;
  }

  /** Each address goes its own way. */
  lemma {:induction false} ClientsReachTheirIp(lat: Latencies, m: IpRoutes, p: PeerId, clients: seq<Client>, ip: Ip)
    ensures Old(AfterClients(lat, m, p, clients), ip) == AfterReports(lat, Old(m, ip), p, ReportsFor(clients, ip))
  {
    if clients != [] {
      var front, last := clients[..|clients| - 1], clients[|clients| - 1];
      ClientsReachTheirIp(lat, m, p, front, ip);
      var u, ls := AfterClients(lat, m, p, front), ReportsFor(front, ip);
      OneClient(lat, u, p, last, ip);
      assert AfterClients(lat, m, p, clients) == AfterClient(lat, u, p, last.ip, last.latency);
      if last.ip == ip {
        assert ReportsFor(clients, ip) == ls + [last.latency];
        OneReport(lat, Old(m, ip), p, ls, last.latency);
      } else {
        assert ReportsFor(clients, ip) == ls;
      }
    }
  }

  // ----- a list that names the peer once

  predicate NoPeer(others: multiset<IpRoute>, p: PeerId) {
    forall x :: x in others ==> x.peer != p
  }

  /** The list holds the given routes of others and one of the peer's. */
  predicate With(list: seq<IpRoute>, others: multiset<IpRoute>, p: PeerId, latency: nat) {
    multiset(list) == others + multiset{IpRoute(p, latency)} && NoPeer(others, p)
  }

  lemma {:induction false} ReportReplaces(list: seq<IpRoute>, others: multiset<IpRoute>, p: PeerId, first: nat,
                                          latency: nat)
    requires With(list, others, p, first)
    ensures With(Report(list, p, latency), others, p, latency)
  {
    WithHead(list, others, p, first);
    if list[0].peer == p {
      Cons(IpRoute(p, latency), list[1..]);
    } else {
      ReportReplaces(list[1..], others - multiset{list[0]}, p, first, latency);
      Cons(list[0], Report(list[1..], p, latency));
    }
  }

  lemma WithHead(list: seq<IpRoute>, others: multiset<IpRoute>, p: PeerId, first: nat)
    requires With(list, others, p, first)
    ensures list != []
    ensures list[0].peer == p ==> multiset(list[1..]) == others
    ensures list[0].peer != p ==> list[0] in others && With(list[1..], others - multiset{list[0]}, p, first)
  {
    assert IpRoute(p, first) in multiset(list);
    assert list == [list[0]] + list[1..];
    assert list[0] in multiset(list);
    assert multiset(list[1..]) == multiset(list) - multiset{list[0]};
  }

  lemma {:induction false} FirstReport(list: seq<IpRoute>, p: PeerId, latency: nat)
    requires DistinctPeers(list)
    ensures With(Report(list, p, latency), multiset(DropPeer(list, p)), p, latency)
  {
    if list != [] {
      var x, rest := list[0], list[1..];
      assert list == [x] + rest;
      if x.peer == p {
        Nothing(rest, p);
        Cons(IpRoute(p, latency), rest);
      } else {
        FirstReport(rest, p, latency);
        WithOneMore(x, Report(rest, p, latency), multiset(DropPeer(rest, p)), p, latency);
        Cons(x, DropPeer(rest, p));
      }
    }
  }

  lemma WithOneMore(x: IpRoute, list: seq<IpRoute>, others: multiset<IpRoute>, p: PeerId, latency: nat)
    requires x.peer != p && With(list, others, p, latency)
    ensures With([x] + list, multiset{x} + others, p, latency)
  {
    Cons(x, list);
  }

  lemma Cons(x: IpRoute, rest: seq<IpRoute>)
    ensures multiset([x] + rest) == multiset{x} + multiset(rest)
  {
  }

  lemma {:induction false} Nothing(list: seq<IpRoute>, p: PeerId)
    requires !HasPeer(list, p)
    ensures DropPeer(list, p) == list
    ensures forall latency: nat :: Report(list, p, latency) == list + [IpRoute(p, latency)]
  {
    if list != [] {
      assert !HasPeer(list[1..], p) by {
        if i :| 0 <= i < |list[1..]| && list[1..][i].peer == p {
          assert list[i + 1].peer == p;
        }
      }
      Nothing(list[1..], p);
      assert list[0].peer != p;
    }
  }

  /** A list that names the peer and has at most five routes never loses one. */
  lemma NeverCut(lat: Latencies, list: seq<IpRoute>, others: multiset<IpRoute>, p: PeerId, first: nat, latency: nat)
    requires With(list, others, p, first) && |list| <= MAX_ROUTES_PER_IP
    ensures var s := Best(lat, Report(list, p, latency));
      With(s, others, p, latency) && |s| == |list|
  {
    var all := Report(list, p, latency);
    ReportReplaces(list, others, p, first, latency);
    assert |all| == |multiset(all)| == |multiset(list)|;
    SortSorts(lat, all);
  }

  // ----- a full list that does not name the peer

  predicate Slowest(lat: Latencies, list: seq<IpRoute>, z: IpRoute) {
    z in list && forall x :: x in list ==> Total(lat, x) <= Total(lat, z)
  }

  predicate SlowerThanAll(lat: Latencies, list: seq<IpRoute>, r: IpRoute) {
    forall x :: x in list ==> Total(lat, x) <= Total(lat, r)
  }

  lemma LastIsSlowest(lat: Latencies, list: seq<IpRoute>, front: seq<IpRoute>, z: IpRoute)
    requires SortByLatency(lat, list) == front + [z]
    ensures Slowest(lat, list, z) && multiset(front) == multiset(list) - multiset{z}
  {
    var sorted := front + [z];
    SortSorts(lat, list);
    assert z in multiset(sorted);
    forall x | x in list ensures Total(lat, x) <= Total(lat, z) {
      assert x in multiset(sorted);
      var i :| 0 <= i < |sorted| && sorted[i] == x;
      assert sorted[|sorted| - 1] == z;
    }
    assert multiset(sorted) == multiset(front) + multiset{z};
  }

  lemma BestOfSix(lat: Latencies, list: seq<IpRoute>, r: IpRoute, front: seq<IpRoute>, z: IpRoute)
    requires |front| == MAX_ROUTES_PER_IP - 1 && SortByLatency(lat, list) == front + [z]
    ensures Best(lat, list + [r]) == if Total(lat, z) <= Total(lat, r) then front + [z] else Place(lat, front, r)
  {
    var all, sorted := list + [r], front + [z];
    assert all[..|all| - 1] == list && all[|all| - 1] == r;
    assert SortByLatency(lat, all) == Place(lat, sorted, r);
    assert sorted[..|sorted| - 1] == front && sorted[|sorted| - 1] == z;
    PlaceAdds(lat, front, r);
    if Total(lat, z) <= Total(lat, r) {
      assert Place(lat, sorted, r) == sorted + [r];
    } else {
      assert Place(lat, sorted, r) == Place(lat, front, r) + [z];
    }
  }

  /** Of six routes the cut drops the last if it is no faster than any other, else a slowest other. */
  lemma CutDropsOne(lat: Latencies, list: seq<IpRoute>, r: IpRoute) returns (z: IpRoute)
    requires |list| == MAX_ROUTES_PER_IP
    ensures Slowest(lat, list, z)
    ensures multiset(Best(lat, list + [r])) ==
      if SlowerThanAll(lat, list, r) then multiset(list) else multiset(list) - multiset{z} + multiset{r}
  {
    var sorted := SortByLatency(lat, list);
    SortSorts(lat, list);
    var front := sorted[..|sorted| - 1];
    z := sorted[|sorted| - 1];
    assert sorted == front + [z];
    LastIsSlowest(lat, list, front, z);
    BestOfSix(lat, list, r, front, z);
    PlaceAdds(lat, front, r);
    assert SlowerThanAll(lat, list, r) <==> Total(lat, z) <= Total(lat, r);
  }

  /** A slowest of the other five has made way for the peer. */
  predicate Displaced(lat: Latencies, list: seq<IpRoute>, s: seq<IpRoute>, p: PeerId, latency: nat, z: IpRoute) {
    Slowest(lat, list, z) && With(s, multiset(list) - multiset{z}, p, latency)
  }

  /** Every one of the reports was no faster than any of the five. */
  predicate AllSlow(lat: Latencies, list: seq<IpRoute>, p: PeerId, ls: seq<nat>) {
    forall j :: 0 <= j < |ls| ==> SlowerThanAll(lat, list, IpRoute(p, ls[j]))
  }

  /** A slowest of the others has made way for the peer. */
  ghost predicate MadeWay(lat: Latencies, list: seq<IpRoute>, s: seq<IpRoute>, p: PeerId, latency: nat) {
    exists z :: Displaced(lat, list, s, p, latency, z)
  }

  /** What has become of a full list that did not name the peer. */
  ghost predicate Outcome(lat: Latencies, list: seq<IpRoute>, s: seq<IpRoute>, p: PeerId, ls: seq<nat>) {
    if AllSlow(lat, list, p, ls) then multiset(s) == multiset(list)
    else MadeWay(lat, list, s, p, ls[|ls| - 1])
  }

  lemma SameRoutes(lat: Latencies, list: seq<IpRoute>, s: seq<IpRoute>)
    requires multiset(s) == multiset(list)
    ensures |s| == |list|
    ensures forall p :: HasPeer(s, p) <==> HasPeer(list, p)
    ensures forall r :: SlowerThanAll(lat, s, r) <==> SlowerThanAll(lat, list, r)
    ensures forall z :: Slowest(lat, s, z) <==> Slowest(lat, list, z)
  {
    assert |s| == |multiset(s)| && |list| == |multiset(list)|;
    assert forall x :: x in s <==> x in multiset(s);
    assert forall x :: x in list <==> x in multiset(list);
    forall p ensures HasPeer(s, p) <==> exists x :: x in multiset(s) && x.peer == p {
      PeerAmong(s, p);
    }
    forall p ensures HasPeer(list, p) <==> exists x :: x in multiset(s) && x.peer == p {
      PeerAmong(list, p);
    }
  }

  lemma PeerAmong(s: seq<IpRoute>, p: PeerId)
    ensures HasPeer(s, p) <==> exists x :: x in multiset(s) && x.peer == p
  {
    if i :| 0 <= i < |s| && s[i].peer == p {
      assert s[i] in multiset(s);
    }
    if x :| x in multiset(s) && x.peer == p {
      var i :| 0 <= i < |s| && s[i] == x;
    }
  }

  /** One report to a list that still holds all its routes. */
  lemma OutcomeOfOne(lat: Latencies, list: seq<IpRoute>, s: seq<IpRoute>, p: PeerId, latency: nat)
    requires |list| == MAX_ROUTES_PER_IP && !HasPeer(list, p) && multiset(s) == multiset(list)
    ensures var t := Best(lat, Report(s, p, latency));
      if SlowerThanAll(lat, list, IpRoute(p, latency)) then multiset(t) == multiset(list)
      else MadeWay(lat, list, t, p, latency)
  {
    var r := IpRoute(p, latency);
    SameRoutes(lat, list, s);
    Nothing(s, p);
    var z := CutDropsOne(lat, s, r);
    if !SlowerThanAll(lat, list, r) {
      PeerAmong(list, p);
      assert Displaced(lat, list, Best(lat, s + [r]), p, latency, z);
    }
  }

  lemma AllSlowSplits(lat: Latencies, list: seq<IpRoute>, p: PeerId, front: seq<nat>, last: nat)
    ensures AllSlow(lat, list, p, front + [last]) <==>
      AllSlow(lat, list, p, front) && SlowerThanAll(lat, list, IpRoute(p, last))
  {
    var ls := front + [last];
    assert forall j :: 0 <= j < |front| ==> ls[j] == front[j];
    assert ls[|front|] == last;
  }

  lemma {:induction false} FullListOutcome(lat: Latencies, list: seq<IpRoute>, p: PeerId, ls: seq<nat>)
    requires |list| == MAX_ROUTES_PER_IP && !HasPeer(list, p)
    ensures Outcome(lat, list, AfterReports(lat, list, p, ls), p, ls)
  {
    if ls != [] {
      var front, last := ls[..|ls| - 1], ls[|ls| - 1];
      assert ls == front + [last];
      var s := AfterReports(lat, list, p, front);
      FullListOutcome(lat, list, p, front);
      AllSlowSplits(lat, list, p, front, last);
      if AllSlow(lat, list, p, front) {
        OutcomeOfOne(lat, list, s, p, last);
      } else {
        MadeWayStays(lat, list, s, p, front[|front| - 1], last);
      }
    }
  }

  lemma MadeWayStays(lat: Latencies, list: seq<IpRoute>, s: seq<IpRoute>, p: PeerId, first: nat, latency: nat)
    requires |list| == MAX_ROUTES_PER_IP && MadeWay(lat, list, s, p, first)
    ensures MadeWay(lat, list, Best(lat, Report(s, p, latency)), p, latency)
  {
    var z :| Displaced(lat, list, s, p, first, z);
    DisplacedStays(lat, list, s, p, first, latency, z);
  }

  lemma DisplacedStays(lat: Latencies, list: seq<IpRoute>, s: seq<IpRoute>, p: PeerId, first: nat, latency: nat,
                       z: IpRoute)
    requires |list| == MAX_ROUTES_PER_IP && Displaced(lat, list, s, p, first, z)
    ensures Displaced(lat, list, Best(lat, Report(s, p, latency)), p, latency, z)
  {
    var others := multiset(list) - multiset{z};
    assert |s| == |multiset(s)| == MAX_ROUTES_PER_IP;
    NeverCut(lat, s, others, p, first, latency);
  }

  // ----- the answer as a whole

  /** No route is lost for good: the list had room for the peer or named it already, or the peer ends
      no slower than some other route, or it never was faster than any before. */
  predicate NothingLost(lat: Latencies, list: seq<IpRoute>, p: PeerId, ls: seq<nat>)
    requires ls != []
  {
    || |list| < MAX_ROUTES_PER_IP
    || HasPeer(list, p)
    || !(forall x :: x in list ==> Total(lat, x) < Total(lat, IpRoute(p, ls[|ls| - 1])))
    || AllSlow(lat, list, p, ls[..|ls| - 1])
  }

  /** After any reports the list is the best five of what there was with the peer at its last latency
      if and only if nothing was lost on the way. */
  lemma ReportsAreBestIff(lat: Latencies, list: seq<IpRoute>, p: PeerId, ls: seq<nat>)
    requires DistinctPeers(list) && |list| <= MAX_ROUTES_PER_IP && ls != []
    ensures AfterReports(lat, list, p, ls) != []
    ensures IsBestFive(lat, Report(list, p, ls[|ls| - 1]), AfterReports(lat, list, p, ls))
      <==> NothingLost(lat, list, p, ls)
  {
    ReportReplacesOne(list, p, ls[|ls| - 1]);
    if |list| < MAX_ROUTES_PER_IP || HasPeer(list, p) {
      RoomForAll(lat, list, p, ls);
    } else {
      FullListBestIff(lat, list, p, ls);
    }
  }

  lemma RoomForAll(lat: Latencies, list: seq<IpRoute>, p: PeerId, ls: seq<nat>)
    requires DistinctPeers(list) && |list| <= MAX_ROUTES_PER_IP && ls != []
    requires |list| < MAX_ROUTES_PER_IP || HasPeer(list, p)
    ensures AfterReports(lat, list, p, ls) != []
    ensures IsBestFive(lat, Report(list, p, ls[|ls| - 1]), AfterReports(lat, list, p, ls))
  {
    var last, s := ls[|ls| - 1], AfterReports(lat, list, p, ls);
    FirstReport(list, p, last);
    RoomForOutcome(lat, list, p, ls);
    SortSorts(lat, Report(AfterReports(lat, list, p, ls[..|ls| - 1]), p, last));
    WholeIsBest(lat, Report(list, p, last), s);
  }

  lemma WholeIsBest(lat: Latencies, all: seq<IpRoute>, s: seq<IpRoute>)
    requires multiset(s) == multiset(all) && |s| <= MAX_ROUTES_PER_IP && ByLatency(lat, s)
    ensures IsBestFive(lat, all, s)
  {
    assert |s| == |multiset(s)| && |all| == |multiset(all)|;
    assert multiset(all) - multiset(s) == multiset{};
  }

  lemma {:induction false} RoomForOutcome(lat: Latencies, list: seq<IpRoute>, p: PeerId, ls: seq<nat>)
    requires DistinctPeers(list) && |list| <= MAX_ROUTES_PER_IP && ls != []
    requires |list| < MAX_ROUTES_PER_IP || HasPeer(list, p)
    ensures With(AfterReports(lat, list, p, ls), multiset(DropPeer(list, p)), p, ls[|ls| - 1])
    ensures 1 <= |AfterReports(lat, list, p, ls)| <= MAX_ROUTES_PER_IP
  {
    var front, last := ls[..|ls| - 1], ls[|ls| - 1];
    if front == [] {
      FirstReportFits(lat, list, p, last);
    } else {
      RoomForOutcome(lat, list, p, front);
      NeverCut(lat, AfterReports(lat, list, p, front), multiset(DropPeer(list, p)), p, front[|front| - 1], last);
    }
  }

  lemma FirstReportFits(lat: Latencies, list: seq<IpRoute>, p: PeerId, latency: nat)
    requires DistinctPeers(list) && |list| <= MAX_ROUTES_PER_IP
    requires |list| < MAX_ROUTES_PER_IP || HasPeer(list, p)
    ensures var s := Best(lat, Report(list, p, latency));
      With(s, multiset(DropPeer(list, p)), p, latency) && 1 <= |s| <= MAX_ROUTES_PER_IP
  {
    FirstReport(list, p, latency);
    ReportReplacesOne(list, p, latency);
    SortSorts(lat, Report(list, p, latency));
  }

  lemma FullListBestIff(lat: Latencies, list: seq<IpRoute>, p: PeerId, ls: seq<nat>)
    requires |list| == MAX_ROUTES_PER_IP && !HasPeer(list, p) && ls != []
    ensures AfterReports(lat, list, p, ls) != []
    ensures IsBestFive(lat, Report(list, p, ls[|ls| - 1]), AfterReports(lat, list, p, ls))
      <==> NothingLost(lat, list, p, ls)
  {
    var front, last := ls[..|ls| - 1], ls[|ls| - 1];
    var s := AfterReports(lat, list, p, front);
    FullListOutcome(lat, list, p, front);
    Nothing(list, p);
    BestIsBestFive(lat, Report(s, p, last));
    if AllSlow(lat, list, p, front) {
      SameRoutes(lat, list, s);
      Nothing(s, p);
      assert multiset(s + [IpRoute(p, last)]) == multiset(list + [IpRoute(p, last)]);
    } else {
      MadeWayStays(lat, list, s, p, front[|front| - 1], last);
      MadeWayBestIff(lat, list, Best(lat, Report(s, p, last)), IpRoute(p, last));
    }
  }

  lemma MadeWayBestIff(lat: Latencies, list: seq<IpRoute>, s: seq<IpRoute>, r: IpRoute)
    requires |list| == MAX_ROUTES_PER_IP && MadeWay(lat, list, s, r.peer, r.clientLatency) && ByLatency(lat, s)
    ensures s != []
    ensures IsBestFive(lat, list + [r], s) <==> !(forall x :: x in list ==> Total(lat, x) < Total(lat, r))
  {
    var z :| Displaced(lat, list, s, r.peer, r.clientLatency, z);
    var all := list + [r];
    assert multiset(all) == multiset(list) + multiset{r};
    assert z in multiset(list);
    assert |s| == |multiset(s)| == MAX_ROUTES_PER_IP;
    assert multiset(all) - multiset(s) == multiset{z};
    NoneFasterThan(lat, list, s, r, z);
  }

  lemma NoneFasterThan(lat: Latencies, list: seq<IpRoute>, s: seq<IpRoute>, r: IpRoute, z: IpRoute)
    requires Displaced(lat, list, s, r.peer, r.clientLatency, z)
    ensures NoFaster(lat, s, multiset{z}) <==> Total(lat, r) <= Total(lat, z)
  {
    forall y | y in s ensures y == r || Total(lat, y) <= Total(lat, z) {
      assert y in multiset(s);
      assert y == r || y in multiset(list);
    }
    assert r in multiset(s);
    assert r in s;
    assert z in multiset{z};
  }

  /** What one answer does, exactly.  The lists stay non-empty, at most five, one entry per peer.  A
      listed address ends with the best five of its old routes with the peer's own replaced or added,
      if and only if nothing was lost between two reports of the same address; any other address
      loses the peer's routes and nothing else. */
  lemma AnswerIsExact(lat: Latencies, m: IpRoutes, p: PeerId, clients: seq<Client>, ip: Ip)
    requires WellKept(m)
    ensures var u, ls := AfterNetwork(lat, m, p, clients), ReportsFor(clients, ip);
      && WellKept(u)
      && (ls != [] ==> ip in u)
      && (ls != [] ==>
            (IsBestFive(lat, Report(Old(m, ip), p, ls[|ls| - 1]), u[ip]) <==> NothingLost(lat, Old(m, ip), p, ls)))
      && (ls == [] ==>
            Old(u, ip) == DropPeer(Old(m, ip), p) && (ip in u <==> DropPeer(Old(m, ip), p) != []))
  {
    var u, ls := AfterClients(lat, m, p, clients), ReportsFor(clients, ip);
    NetworkKeepsWellKept(lat, m, p, clients);
    ClientsReachTheirIp(lat, m, p, clients, ip);
    RetainAt(u, p, Ips(clients), ip);
    if ls != [] {
      ReportsAreBestIff(lat, Old(m, ip), p, ls);
      var x :| x in clients && x.ip == ip;
      assert ip in Ips(clients);
    }
  }

  /** An answer that names an address once loses nothing. */
  lemma SingleReportIsHarmless(lat: Latencies, list: seq<IpRoute>, p: PeerId, latency: nat)
    ensures NothingLost(lat, list, p, [latency])
  {
    assert [latency][..0] == [];
  }

  const CROWDED := [IpRoute(1, 1), IpRoute(2, 1), IpRoute(3, 1), IpRoute(4, 1), IpRoute(5, 50)]

  /** A full list whose slowest route is displaced by a first report and not restored by a second,
      slower one. */
  lemma RepeatedReportExample()
    ensures !NothingLost(map[], CROWDED, 6, [10, 90])
  {
    CrowdedIsFull();
    assert [10, 90][..1][0] == 10;
    assert CROWDED[4] in CROWDED;
    assert !SlowerThanAll(map[], CROWDED, IpRoute(6, 10));
    assert !AllSlow(map[], CROWDED, 6, [10, 90][..1]);
  }

  lemma CrowdedIsFull()
    ensures |CROWDED| == MAX_ROUTES_PER_IP && DistinctPeers(CROWDED) && !HasPeer(CROWDED, 6)
    ensures forall x :: x in CROWDED ==> Total(map[], x) < Total(map[], IpRoute(6, 90))
  {
  }

  /** An answer that names an address twice loses the route of another peer. */
  lemma RepeatedAddressExample()
    ensures var m := map[9 := CROWDED];
      var u := AfterNetwork(map[], m, 6, [Client(9, 10), Client(9, 90)]);
      WellKept(m) && 9 in u && !IsBestFive(map[], Report(CROWDED, 6, 90), u[9])
  {
    var clients := [Client(9, 10), Client(9, 90)];
    RepeatedReportExample();
    CrowdedIsFull();
    assert clients[..1] == [Client(9, 10)] && clients[..1][..0] == [];
    assert ReportsFor(clients[..1], 9) == [10];
    assert ReportsFor(clients, 9) == [10, 90];
    AnswerIsExact(map[], map[9 := CROWDED], 6, clients, 9);
  }
}
