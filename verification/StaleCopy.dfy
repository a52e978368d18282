/** What the client's copy shows for an address that nobody holds any more.  The server announces
no removal, so an address once shown online stays so. */
module StaleCopies {
  import opened Base
  import opened LeaseState
  import opened ClientList
  import opened Sessions
  import opened DeltaSync

  predicate Mentions(r: Reply, ip: Ip) {
    r.isAll || exists x :: x in r.list && x.ip == ip
  }

  /** No answer under way says anything of the address. */
  predicate Unmentioned(answers: seq<Message>, ip: Ip) {
    forall m :: m in answers ==> !Mentions(m.reply, ip)
  }

  /** One answer leaves an address that nobody holds shown online if and only if it was so before and
      the poller was not ahead of the server. */
  lemma UnheldAnswerIff(self: Ip, t: Table, p: Replica, r: Option<Reply>, ip: Ip)
    requires AnswersPoll(t, self, p.version, r) && Unheld(t, ip)
    ensures Shown(Answered(p, self, r).clients, ip) <==> Shown(p.clients, ip) && p.version <= t.dataVersion
  {
    if r.Some? {
      UnheldIsUnlisted(self, t, p.version, r.value, ip);
    }
  }

  lemma UnheldIsUnlisted(self: Ip, t: Table, version: nat, r: Reply, ip: Ip)
    requires AnswersPoll(t, self, version, Some(r)) && Unheld(t, ip)
    ensures forall x :: x in r.list ==> x.ip != ip
  {
    forall x | x in r.list ensures x.ip != ip {
      var d :| d in t.deviceMap && Listed(t.deviceMap[d], self, version, r.isAll, x);
      assert !Has(t, d, ip);
    }
  }

  /** The address is held by nobody in any state of the run. */
  ghost predicate UnheldThroughout(c: Config, self: Ip, y: System, run: seq<Event>, ip: Ip)
    requires c.Valid() && PossibleRun(c, self, y, run)
    decreases |run|
  {
    Unheld(y.server.table, ip)
    && (run == [] || UnheldThroughout(c, self, Step(c, self, y, run[0]), run[1..], ip))
  }

  lemma StepKeepsUnheld(c: Config, self: Ip, y: System, e: Event, ip: Ip)
    requires c.Valid() && SyncInv(c, self, y) && Possible(y, self, e)
    requires Unheld(y.server.table, ip) && Unmentioned(y.answers, ip)
    ensures var z := Step(c, self, y, e);
      && Unmentioned(z.answers, ip)
      && (Shown(z.replica.clients, ip) <==> Shown(y.replica.clients, ip) && e != Clear)
  {
    match e
    case Answer(r, sent) =>
      if r.Some? && sent {
        assert y.polls[0] in y.polls;
        UnheldIsUnlisted(self, y.server.table, y.polls[0], r.value, ip);
      }
    case Deliver =>
      assert y.answers[0] in y.answers;
      assert !Mentions(y.answers[0].reply, ip);
    case _ =>
  }

  /** Over any run in which nobody comes to hold the address it is shown online at the end if and only
      if it was so at the start and the client did not stop its network in between, however often it
      polled or reconnected. */
  lemma {:induction false} UnheldRunIff(c: Config, self: Ip, y: System, run: seq<Event>, ip: Ip)
    requires c.Valid() && SyncInv(c, self, y) && PossibleRun(c, self, y, run)
    requires UnheldThroughout(c, self, y, run, ip) && Unmentioned(y.answers, ip)
    ensures Shown(After(c, self, y, run).replica.clients, ip) <==> Shown(y.replica.clients, ip) && Clear !in run
    decreases |run|
  {
    if run != [] {
      StepKeepsSync(c, self, y, run[0]);
      StepKeepsUnheld(c, self, y, run[0], ip);
      assert run == [run[0]] + run[1..];
      UnheldRunIff(c, self, Step(c, self, y, run[0]), run[1..], ip);
    }
  }

  lemma OneMoreStep(c: Config, self: Ip, y: System, e: Event, z: System, rest: seq<Event>)
    requires c.Valid() && Possible(y, self, e) && z == Step(c, self, y, e) && PossibleRun(c, self, z, rest)
    ensures PossibleRun(c, self, y, [e] + rest)
    ensures After(c, self, y, [e] + rest) == After(c, self, z, rest)
  {
    assert ([e] + rest)[1..] == rest;
  }

  lemma FourSteps(c: Config, self: Ip, y: seq<System>, e: seq<Event>)
    requires c.Valid() && |y| == 5 && |e| == 4
    requires forall k :: 0 <= k < 4 ==> Possible(y[k], self, e[k]) && Step(c, self, y[k], e[k]) == y[k + 1]
    ensures PossibleRun(c, self, y[0], e) && After(c, self, y[0], e) == y[4]
  {
    assert e[3..] == [e[3]] + [] && e[2..] == [e[2]] + e[3..] && e[1..] == [e[1]] + e[2..] && e == [e[0]] + e[1..];
    OneMoreStep(c, self, y[3], e[3], y[4], []);
    OneMoreStep(c, self, y[2], e[2], y[3], e[3..]);
    OneMoreStep(c, self, y[1], e[1], y[2], e[2..]);
    OneMoreStep(c, self, y[0], e[0], y[1], e[1..]);
  }

  /** The server announces a connected device, which is then dropped. */
  lemma AnnouncedThenDropped(c: Config, s: Server, reply: Reply, y0: System)
    requires c.Valid() && reply == Reply(2, [ClientInfo(2, true)], false) && AnswersPoll(s.table, 9, 0, Some(reply))
    requires y0 == System(s, Replica(0, map[]), [], [])
    ensures var run := [Poll, Answer(Some(reply), true), Deliver, ServerStep(Drop(1))];
      && PossibleRun(c, 9, y0, run)
      && After(c, 9, y0, run) == System(Dropped(s, 1), Replica(2, map[2 := ClientInfo(2, true)]), [], [])
  {
    var y1, y2 := y0.(polls := [0]), y0.(answers := [Message(0, reply)]);
    var y3 := y0.(replica := Replica(2, map[2 := ClientInfo(2, true)]));
    var y4 := y3.(server := Dropped(s, 1));
    assert reply.list[..0] == [];
    assert Collect(reply.list, 9) == map[2 := ClientInfo(2, true)];
    FourSteps(c, 9, [y0, y1, y2, y3, y4], [Poll, Answer(Some(reply), true), Deliver, ServerStep(Drop(1))]);
  }

  /** How such an address comes to be shown: "b" polls while "a" is pre-registered, and the session of
      "a" ends unconfirmed. */
  lemma ReleasedExample(c: Config, s: Server)
    requires c == Config(0, 24, 10) && s == TwoDevices(Pending)
    ensures var y, reply := System(s, Replica(0, map[]), [], []), Reply(2, [ClientInfo(2, true)], false);
      var run := [Poll, Answer(Some(reply), true), Deliver, ServerStep(Drop(1))];
      && c.Valid() && ServerInv(c, s) && PossibleRun(c, 9, y, run)
      && var z := After(c, 9, y, run);
        Unheld(z.server.table, 2) && Unmentioned(z.answers, 2) && Shown(z.replica.clients, 2)
  {
    var reply := Reply(2, [ClientInfo(2, true)], false);
    TwoDevicesAreConsistent(Pending);
    PendingIsAnnounced(s.table, reply);
    AnnouncedThenDropped(c, s, reply, System(s, Replica(0, map[]), [], []));
    AIsReleased(s);
  }

  lemma PendingIsAnnounced(t: Table, reply: Reply)
    requires t == TwoDevices(Pending).table && reply == Reply(2, [ClientInfo(2, true)], false)
    ensures AnswersPoll(t, 9, 0, Some(reply))
  {
    assert t.deviceMap["a"].ip == Some(2) && t.deviceMap["b"].ip == Some(9);
    assert Listed(t.deviceMap["a"], 9, 0, false, ClientInfo(2, true));
  }

  lemma AIsReleased(s: Server)
    requires s == TwoDevices(Pending)
    ensures Unheld(Dropped(s, 1).table, 2)
  {
    assert Owns(s.table, "a", 2, 1);
    assert s.table.deviceMap["b"].ip == Some(9);
  }
}
