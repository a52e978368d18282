/** Delta replication of the client list from one server to one client.

The client polls with the version it last applied; the server answers with what changed since.
Polls and answers travel in order, and any of them may be lost.  Between two of these steps the
server may make any step of its own. */
module DeltaSync {
  import opened Base
  import opened LeaseState
  import opened ClientList
  import opened Sessions

  // ----- the client's copy

  /** The client's node for one server: the version applied last and the clients it lists. */
  datatype Replica = Replica(version: nat, clients: map<Ip, ClientInfo>)

  predicate Shown(clients: map<Ip, ClientInfo>, ip: Ip) {
    ip in clients && clients[ip].online
  }

  /** The list as a map by address, without the client's own; a later entry wins. */
  function Collect(list: seq<ClientInfo>, self: Ip): (m: map<Ip, ClientInfo>)
    ensures forall ip :: ip in m <==> ip != self && exists x :: x in list && x.ip == ip
    ensures forall ip :: ip in m ==> m[ip] in list && m[ip].ip == ip
  {
    if list == [] then map[] else
    var x, m := list[|list| - 1], Collect(list[..|list| - 1], self);
    assert list == list[..|list| - 1] + [x];
    if x.ip == self then m else m[x.ip := x]
  }

  /** Of several entries for one address the last counts. */
  lemma {:induction false} LastEntryCounts(list: seq<ClientInfo>, self: Ip, i: nat)
    requires i < |list| && list[i].ip != self
    requires forall j :: i < j < |list| ==> list[j].ip != list[i].ip
    ensures list[i].ip in Collect(list, self) && Collect(list, self)[list[i].ip] == list[i]
  {
    if i < |list| - 1 {
      LastEntryCounts(list[..|list| - 1], self, i);
    }
  }

  function Apply(p: Replica, self: Ip, r: Reply): Replica {
    var m := Collect(r.list, self);
    Replica(r.dataVersion, if r.isAll then m else p.clients + m)
  }

  // ----- the system

  /** An answer on its way; `base` is the version it was asked for, which the wire does not carry. */
  datatype Message = Message(base: nat, reply: Reply)

  datatype System = System(server: Server, replica: Replica, polls: seq<nat>, answers: seq<Message>)

  datatype Event =
    | ServerStep(action: Action)
    | Poll
    | Answer(r: Option<Reply>, sent: bool)
    | Deliver
    | LosePoll(k: nat)
    | LoseAnswer(k: nat)
    | Reconnect
    | Clear

  function Without<T>(s: seq<T>, k: nat): (r: seq<T>)
    ensures forall x :: x in r ==> x in s
  {
    if k < |s| then s[..k] + s[k + 1..] else s
  }

  ghost predicate Possible(y: System, self: Ip, e: Event) {
    match e
    case ServerStep(a) => Enabled(y.server, a)
    case Answer(r, _) => y.polls != [] && AnswersPoll(y.server.table, self, y.polls[0], r)
    case Deliver => y.answers != []
    case _ => true
  }

  /** One event.  The server takes the first poll; its answer joins the channel unless the channel
      is full.  A reconnection empties both channels and keeps the replica; stopping the network
      clears the replica too. */
  ghost function Step(c: Config, self: Ip, y: System, e: Event): System
    requires c.Valid() && Possible(y, self, e)
  {
    match e
    case ServerStep(a) => y.(server := Next(c, y.server, a))
    case Poll => y.(polls := y.polls + [y.replica.version])
    case Answer(r, sent) =>
      var y' := y.(polls := y.polls[1..]);
      if r.Some? && sent then y'.(answers := y.answers + [Message(y.polls[0], r.value)]) else y'
    case Deliver => y.(replica := Apply(y.replica, self, y.answers[0].reply), answers := y.answers[1..])
    case LosePoll(k) => y.(polls := Without(y.polls, k))
    case LoseAnswer(k) => y.(answers := Without(y.answers, k))
    case Reconnect => y.(polls := [], answers := [])
    case Clear => y.(polls := [], answers := [], replica := Replica(0, map[]))
  }

  /** Any poll and any answer under way may be lost, it alone and with nothing else changed. */
  lemma AnyMessageMayBeLost(c: Config, self: Ip, y: System, k: nat)
    requires c.Valid()
    ensures k < |y.polls| ==> Step(c, self, y, LosePoll(k)) == y.(polls := y.polls[..k] + y.polls[k + 1..])
    ensures k < |y.answers| ==> Step(c, self, y, LoseAnswer(k)) == y.(answers := y.answers[..k] + y.answers[k + 1..])
  {
  }

  // ----- the invariant

  /** A live device other than the client itself, stamped no later than `version`. */
  predicate Settled(t: Table, self: Ip, d: DeviceId, version: nat) {
    && d in t.deviceMap && t.deviceMap[d].ip.Some? && t.deviceMap[d].ip != Some(self)
    && t.deviceMap[d].dataVersion <= version
  }

  /** The copy shows every device settled at its version exactly as the server has it. */
  ghost predicate Accurate(t: Table, self: Ip, p: Replica) {
    forall d :: Settled(t, self, d, p.version) ==>
      Shown(p.clients, t.deviceMap[d].ip.value) == t.deviceMap[d].isConnected
  }

  /** What the answer says about a device still unchanged since the answer was computed is true,
      and it says something about each such device changed after `base`, a full one about each. */
  ghost predicate Truthful(t: Table, self: Ip, m: Message) {
    var r := m.reply;
    && r.dataVersion <= t.dataVersion
    && (forall d, x :: Settled(t, self, d, r.dataVersion) && x in r.list && t.deviceMap[d].ip == Some(x.ip)
          ==> x.online == t.deviceMap[d].isConnected)
    && (forall d :: Settled(t, self, d, r.dataVersion) && (r.isAll || t.deviceMap[d].dataVersion > m.base)
          ==> ClientInfo(t.deviceMap[d].ip.value, t.deviceMap[d].isConnected) in r.list)
  }

  predicate InOrder(answers: seq<Message>) {
    forall i, j :: 0 <= i < j < |answers| ==> answers[i].reply.dataVersion <= answers[j].reply.dataVersion
  }

  ghost predicate SyncInv(c: Config, self: Ip, y: System)
    requires c.Valid()
  {
    var t := y.server.table;
    && ServerInv(c, y.server)
    && y.replica.version <= t.dataVersion
    && Accurate(t, self, y.replica)
    && (forall v :: v in y.polls ==> v <= y.replica.version)
    && InOrder(y.answers)
    && (forall m :: m in y.answers ==>
          Truthful(t, self, m) && m.base <= y.replica.version <= m.reply.dataVersion)
  }

  lemma StartIsInSync(c: Config, self: Ip, s: Server)
    requires c.Valid() && ServerInv(c, s)
    ensures SyncInv(c, self, System(s, Replica(0, map[]), [], []))
  {
    forall d | Settled(s.table, self, d, 0) ensures !s.table.deviceMap[d].isConnected {
      assert EntryOk(s.table, s.table.deviceMap[d]);
    }
  }

  /** Every change the server makes to an entry gets a stamp above the previous version. */
  lemma ChangesAreStamped(c: Config, s: Server, a: Action)
    requires c.Valid() && ServerInv(c, s) && Enabled(s, a)
    ensures var t, u := s.table, Next(c, s, a).table;
      && t.dataVersion <= u.dataVersion
      && forall d :: d in u.deviceMap ==>
           u.deviceMap[d].dataVersion > t.dataVersion || (d in t.deviceMap && u.deviceMap[d] == t.deviceMap[d])
  {
    match a
    case Reg(req, _, rid, sender, stats) =>
      if LeaseState.Register(s.table, c, req, rid, sender, stats).Ok? {
        AllocatePlaces(s.table, c, req, rid, stats);
      }
    case _ =>
  }

  lemma ServerStepKeepsSync(c: Config, self: Ip, y: System, a: Action)
    requires c.Valid() && SyncInv(c, self, y) && Enabled(y.server, a)
    ensures SyncInv(c, self, y.(server := Next(c, y.server, a)))
  {
    NextKeepsInv(c, y.server, a);
    ChangesAreStamped(c, y.server, a);
    var t, u := y.server.table, Next(c, y.server, a).table;
    forall d, v: nat | Settled(u, self, d, v) && v <= t.dataVersion
      ensures Settled(t, self, d, v) && u.deviceMap[d] == t.deviceMap[d]
    {
    }
    forall m | m in y.answers ensures Truthful(u, self, m) {
      assert Truthful(t, self, m);
    }
  }

  lemma AnswerIsTruthful(c: Config, self: Ip, t: Table, version: nat, r: Reply)
    requires c.Valid() && TableInv(t, c) && AnswersPoll(t, self, version, Some(r))
    ensures Truthful(t, self, Message(version, r))
  {
    forall d, x | Settled(t, self, d, r.dataVersion) && x in r.list && t.deviceMap[d].ip == Some(x.ip)
      ensures x.online == t.deviceMap[d].isConnected
    {
      var e :| e in t.deviceMap && Listed(t.deviceMap[e], self, version, r.isAll, x);
      OneHolder(t, c, d, e, x.ip);
    }
    forall d | Settled(t, self, d, r.dataVersion) && (r.isAll || t.deviceMap[d].dataVersion > version)
      ensures ClientInfo(t.deviceMap[d].ip.value, t.deviceMap[d].isConnected) in r.list
    {
      var e := t.deviceMap[d];
      assert Listed(e, self, version, r.isAll, ClientInfo(e.ip.value, e.isConnected));
    }
  }

  /** A truthful full answer makes any copy accurate; a delta keeps an accurate copy accurate that
      has at least the version asked for. */
  lemma DeliveryKeepsAccuracy(t: Table, self: Ip, p: Replica, m: Message)
    requires Truthful(t, self, m)
    requires m.reply.isAll || (Accurate(t, self, p) && m.base <= p.version)
    ensures Accurate(t, self, Apply(p, self, m.reply))
  {
    var q := Apply(p, self, m.reply);
    forall d | Settled(t, self, d, q.version)
      ensures Shown(q.clients, t.deviceMap[d].ip.value) == t.deviceMap[d].isConnected
    {
      var ip, delta := t.deviceMap[d].ip.value, Collect(m.reply.list, self);
      if ip in delta {
        assert delta[ip] in m.reply.list;
      } else {
        assert ClientInfo(ip, t.deviceMap[d].isConnected) !in m.reply.list;
        assert Settled(t, self, d, p.version);
      }
    }
  }

  lemma AnswerKeepsSync(c: Config, self: Ip, y: System, r: Option<Reply>, sent: bool)
    requires c.Valid() && SyncInv(c, self, y) && Possible(y, self, Answer(r, sent))
    ensures SyncInv(c, self, Step(c, self, y, Answer(r, sent)))
  {
    assert y.polls[0] in y.polls && forall v :: v in y.polls[1..] ==> v in y.polls;
    if r.Some? && sent {
      AnswerIsTruthful(c, self, y.server.table, y.polls[0], r.value);
    }
  }

  lemma DeliverKeepsSync(c: Config, self: Ip, y: System)
    requires c.Valid() && SyncInv(c, self, y) && y.answers != []
    ensures SyncInv(c, self, Step(c, self, y, Deliver))
  {
    assert y.answers[0] in y.answers && forall m :: m in y.answers[1..] ==> m in y.answers;
    DeliveryKeepsAccuracy(y.server.table, self, y.replica, y.answers[0]);
    forall m | m in y.answers[1..] ensures y.answers[0].reply.dataVersion <= m.reply.dataVersion {
      var j :| 0 <= j < |y.answers[1..]| && y.answers[1..][j] == m;
      assert y.answers[j + 1] == m;
    }
  }

  /** Every event keeps the copy accurate. */
  lemma StepKeepsSync(c: Config, self: Ip, y: System, e: Event)
    requires c.Valid() && SyncInv(c, self, y) && Possible(y, self, e)
    ensures SyncInv(c, self, Step(c, self, y, e))
  {
    match e
    case ServerStep(a) => ServerStepKeepsSync(c, self, y, a);
    case Answer(r, sent) => AnswerKeepsSync(c, self, y, r, sent);
    case Deliver => DeliverKeepsSync(c, self, y);
    case Clear => StartIsInSync(c, self, y.server);
    case Poll => assert forall v :: v in y.polls + [y.replica.version] ==> v in y.polls || v == y.replica.version;
    case _ =>
  }

  // ----- whole runs

  ghost predicate PossibleRun(c: Config, self: Ip, y: System, run: seq<Event>)
    requires c.Valid()
    decreases |run|
  {
    run == [] || (Possible(y, self, run[0]) && PossibleRun(c, self, Step(c, self, y, run[0]), run[1..]))
  }

  ghost function After(c: Config, self: Ip, y: System, run: seq<Event>): System
    requires c.Valid() && PossibleRun(c, self, y, run)
    decreases |run|
  {
    if run == [] then y else After(c, self, Step(c, self, y, run[0]), run[1..])
  }

  lemma {:induction false} RunKeepsSync(c: Config, self: Ip, y: System, run: seq<Event>)
    requires c.Valid() && SyncInv(c, self, y) && PossibleRun(c, self, y, run)
    ensures SyncInv(c, self, After(c, self, y, run))
    decreases |run|
  {
    if run != [] {
      StepKeepsSync(c, self, y, run[0]);
      RunKeepsSync(c, self, Step(c, self, y, run[0]), run[1..]);
    }
  }

  /** Soundness: after any run of polls, answers, losses, reconnections and server steps, the client
      shows each live device stamped no later than the version it applied last as online exactly
      when that device is connected; an address it does not list counts as offline. */
  lemma DeltaSyncIsSound(c: Config, self: Ip, s: Server, run: seq<Event>, d: DeviceId)
    requires c.Valid() && ServerInv(c, s)
    requires PossibleRun(c, self, System(s, Replica(0, map[]), [], []), run)
    ensures var y := After(c, self, System(s, Replica(0, map[]), [], []), run);
      Settled(y.server.table, self, d, y.replica.version) ==>
        Shown(y.replica.clients, y.server.table.deviceMap[d].ip.value) == y.server.table.deviceMap[d].isConnected
  {
    StartIsInSync(c, self, s);
    RunKeepsSync(c, self, System(s, Replica(0, map[]), [], []), run);
  }

  /** Catching up: one poll that is answered and delivered with nothing in between makes the copy
      accurate for every live device, whatever was lost before. */
  lemma OneRoundCatchesUp(c: Config, self: Ip, y: System, r: Option<Reply>, d: DeviceId)
    requires c.Valid() && SyncInv(c, self, y) && y.polls == [] && y.answers == []
    requires AnswersPoll(y.server.table, self, y.replica.version, r)
    requires d in y.server.table.deviceMap && y.server.table.deviceMap[d].ip.Some?
    requires y.server.table.deviceMap[d].ip != Some(self)
    ensures var p := if r.Some? then Apply(y.replica, self, r.value) else y.replica;
      && p.version == y.server.table.dataVersion
      && Shown(p.clients, y.server.table.deviceMap[d].ip.value) == y.server.table.deviceMap[d].isConnected
  {
    var t := y.server.table;
    assert EntryOk(t, t.deviceMap[d]);
    assert Settled(t, self, d, t.dataVersion);
    if r.Some? {
      AnswerIsTruthful(c, self, t, y.replica.version, r.value);
      DeliveryKeepsAccuracy(t, self, y.replica, Message(y.replica.version, r.value));
    }
  }

  /** A client that is up to date polls from the server's own version and is answered nothing. */
  lemma UpToDatePollIsSilent(c: Config, self: Ip, y: System, r: Option<Reply>, sent: bool)
    requires c.Valid() && y.polls == [] && y.replica.version == y.server.table.dataVersion
    requires Possible(Step(c, self, y, Poll), self, Answer(r, sent))
    ensures r.None?
  {
    assert Step(c, self, y, Poll).polls[0] == y.replica.version;
  }

  // ----- across a restart of the server

  /** The copy after the answer to its poll; no answer leaves it alone. */
  function Answered(p: Replica, self: Ip, r: Option<Reply>): Replica {
    if r.Some? then Apply(p, self, r.value) else p
  }

  /** A poll from version `v` is sure to be repaired by its answer, whatever the copy contains, if and
      only if the poller is ahead of the server or no live device is stamped as early as `v`: the
      server announces such a device to nobody at `v`, and answers nothing at all at equal versions. */
  lemma AnswerRepairsEveryCopyIff(c: Config, self: Ip, t: Table, v: nat, r: Option<Reply>)
    requires c.Valid() && TableInv(t, c) && AnswersPoll(t, self, v, r)
    ensures (forall p: Replica :: p.version == v ==> Accurate(t, self, Answered(p, self, r)))
       <==> v > t.dataVersion || forall d :: !Settled(t, self, d, v)
  {
    if v > t.dataVersion || forall d :: !Settled(t, self, d, v) {
      forall p: Replica | p.version == v ensures Accurate(t, self, Answered(p, self, r)) {
        if r.Some? {
          AnswerIsTruthful(c, self, t, v, r.value);
          DeliveryKeepsAccuracy(t, self, p, Message(v, r.value));
        }
      }
    } else {
      var d :| Settled(t, self, d, v);
      var ip := t.deviceMap[d].ip.value;
      var p := Replica(v, map[ip := ClientInfo(ip, !t.deviceMap[d].isConnected)]);
      if r.Some? {
        DeltaSkips(c, self, t, p, r.value, d);
      }
      assert !Accurate(t, self, Answered(p, self, r)) by {
        assert Settled(t, self, d, Answered(p, self, r).version);
      }
    }
  }

  /** A delta says nothing about a device stamped no later than the version asked for. */
  lemma DeltaSkips(c: Config, self: Ip, t: Table, p: Replica, r: Reply, d: DeviceId)
    requires c.Valid() && TableInv(t, c) && p.version <= t.dataVersion
    requires AnswersPoll(t, self, p.version, Some(r)) && Settled(t, self, d, p.version)
    ensures var ip := t.deviceMap[d].ip.value;
      Settled(t, self, d, r.dataVersion) && Shown(Apply(p, self, r).clients, ip) == Shown(p.clients, ip)
  {
    var m, ip := Collect(r.list, self), t.deviceMap[d].ip.value;
    forall x | x in r.list ensures x.ip != ip {
      var e :| e in t.deviceMap && Listed(t.deviceMap[e], self, p.version, r.isAll, x);
      assert t.deviceIpMap[ip] == d && t.deviceIpMap[x.ip] == e;
    }
  }

  /** "a" at version 1 with a session of the given status, then "b" at version 2. */
  function TwoDevices(status: Status): Server {
    Server(
      Table(2,
            map["a" := DeviceEntry(Some(2), 1, true, None, 1, 1), "b" := DeviceEntry(Some(9), 2, true, None, 2, 2)],
            map[2 := "a", 9 := "b"], map[2 := 1, 9 := 2], map[2 := 1, 9 := 2]),
      map[1 := Session("a", 2, 1, status), 2 := Session("b", 9, 2, Confirmed)], {0, 1, 2}, 0)
  }

  lemma TwoDevicesTable(t: Table, c: Config)
    requires t == TwoDevices(Confirmed).table && c == Config(0, 24, 10)
    ensures c.Valid() && TableInv(t, c)
  {
    assert c.Size() == 256;
    forall ip: Ip ensures ip == 2 || ip == 9 <==> Online(t, ip) {
      assert t.deviceMap["a"].isConnected && t.deviceMap["b"].isConnected;
    }
  }

  lemma TwoDevicesSessions(s: Server, status: Status)
    requires s == TwoDevices(status)
    ensures SessionsMatch(s)
  {
    assert Matched(s, "a") && Matched(s, "b");
  }

  lemma TwoDevicesAreConsistent(status: Status)
    ensures Config(0, 24, 10).Valid() && ServerInv(Config(0, 24, 10), TwoDevices(status))
  {
    TwoDevicesTable(TwoDevices(status).table, Config(0, 24, 10));
    TwoDevicesSessions(TwoDevices(status), status);
  }

  /** So a client that kept its version over a restart can stay wrong.  The restarted server has let
      in "a" at version 1 and then the client itself, "b", at version 2.  The client still asks from
      version 1 of the former lifetime and is told nothing of "a". */
  lemma RestartExample(s: Server)
    requires s == TwoDevices(Confirmed)
    ensures Config(0, 24, 10).Valid() && ServerInv(Config(0, 24, 10), s)
    ensures 2 in s.sessions && s.sessions[2] == Session("b", 9, 2, Confirmed)
    ensures var p, r := Replica(1, map[]), Reply(2, [], false);
      && AnswersPoll(s.table, 9, p.version, Some(r)) && p.version < s.table.dataVersion
      && !Accurate(s.table, 9, Apply(p, 9, r))
  {
    TwoDevicesAreConsistent(Confirmed);
    var t, p, r := s.table, Replica(1, map[]), Reply(2, [], false);
    assert t.deviceMap["a"].dataVersion == 1 && t.deviceMap["b"].ip == Some(9);
    assert AnswersPoll(t, 9, p.version, Some(r));
    assert Settled(t, 9, "a", 2) && !Shown(Apply(p, 9, r).clients, 2);
  }
}
