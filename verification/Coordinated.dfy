/** Registration of one client with several servers in two phases.

The client pre-registers with the first server, then with the others for the address it got,
then confirms everywhere.  Requests to different servers interleave freely, replies and whole
connections may be lost at any time, and every server serves other devices in between. */
module Coordinated {
  import opened Base
  import opened LeaseState
  import opened Sessions

  /** What the client knows of one server. */
  datatype Knowledge = Idle | Failed | Granted | Acknowledged | ConfirmFailed

  /** `session` names the session the server opened for this attempt, if any, even if its reply was
      lost; `open` says that its connection still stands, `saved` that the server confirmed it. */
  datatype Link = Link(known: Knowledge, session: Option<nat>, ip: Ip, open: bool, saved: bool)

  /** An attempt is given up before or after the first confirmation was sent. */
  datatype Phase = First | Others | Confirming | Done | GaveUp(confirming: bool)

  datatype Attempt = Attempt(servers: seq<Server>, links: seq<Link>, phase: Phase)

  /** The client's device and the address its user fixed, if any; the address is variable exactly
      when the user fixed none. */
  datatype Client = Client(device: DeviceId, wish: Option<Ip>)

  datatype Event =
    | Environment(k: nat, action: Action)
    | PreRegister(k: nat, rid: nat, sender: Sender, stats: StatsId, delivered: bool)
    | NoConnection(k: nat)
    | Advance
    | SendConfirm(k: nat, store: bool, delivered: bool)
    | Hangup(k: nat)

  /** The request to the k-th server: the first is asked for the user's wish, the others for the
      address the first one gave. */
  function Request(w: Client, x: Attempt, k: nat): RegRequest
    requires |x.links| > 0
  {
    RegRequest(w.device, if k == 0 then w.wish else Some(x.links[0].ip), w.wish.None?)
  }

  predicate Shape(cs: seq<Config>, x: Attempt) {
    0 < |cs| == |x.servers| == |x.links| && forall k :: 0 <= k < |cs| ==> cs[k].Valid()
  }

  /** Steps of a server that do not act for this client. */
  predicate Foreign(w: Client, l: Link, a: Action) {
    && (a.Reg? ==> a.req.deviceId != w.device)
    && (a.Drop? || a.Confirm? ==> l.session != Some(a.rid))
  }

  predicate Possible(cs: seq<Config>, w: Client, x: Attempt, e: Event)
    requires Shape(cs, x)
  {
    match e
    case Environment(k, a) => k < |cs| && Enabled(x.servers[k], a) && Foreign(w, x.links[k], a)
    case PreRegister(k, rid, sender, stats, _) =>
      && k < |cs| && x.links[k].known == Idle && rid !in x.servers[k].used
      && (if k == 0 then x.phase == First else x.phase == Others)
    case NoConnection(k) =>
      k < |cs| && x.links[k].known == Idle && (if k == 0 then x.phase == First else x.phase == Others)
    case Advance => AnswersIn(x)
    case SendConfirm(k, _, _) => k < |cs| && x.phase == Confirming && x.links[k].known == Granted
    case Hangup(k) => k < |cs|
  }

  /** The answers the client waits for in its phase have all arrived or failed. */
  predicate AnswersIn(x: Attempt)
    requires |x.links| > 0
  {
    match x.phase
    case First => x.links[0].known != Idle
    case Others => forall k :: 0 <= k < |x.links| ==> x.links[k].known != Idle
    case Confirming => forall k :: 0 <= k < |x.links| ==> Answered(x.links[k].known)
    case _ => false
  }

  predicate Answered(known: Knowledge) {
    known == Acknowledged || known == ConfirmFailed
  }

  /** The client has received this server's grant. */
  predicate GrantArrived(known: Knowledge) {
    known == Granted || Answered(known)
  }

  function NextPhase(x: Attempt): Phase
    requires |x.links| > 0
  {
    match x.phase
    case First => if x.links[0].known == Granted then Others else GaveUp(false)
    case Others =>
      if forall k :: 0 <= k < |x.links| ==> x.links[k].known == Granted then Confirming else GaveUp(false)
    case Confirming =>
      if forall k :: 0 <= k < |x.links| ==> x.links[k].known == Acknowledged then Done else GaveUp(true)
    case _ => x.phase
  }

  function At(x: Attempt, k: nat, s: Server, l: Link): Attempt
    requires k < |x.servers| && k < |x.links|
  {
    x.(servers := x.servers[k := s], links := x.links[k := l])
  }

  /** The link after the server handled the pre-registration. */
  function LinkAfterReg(s: Server, rid: nat, delivered: bool): Link {
    if rid in s.sessions
    then Link(if delivered then Granted else Failed, Some(rid), s.sessions[rid].ip, true, false)
    else Link(Failed, None, 0, false, false)
  }

  function Step(cs: seq<Config>, w: Client, x: Attempt, e: Event): (y: Attempt)
    requires Shape(cs, x) && Possible(cs, w, x, e)
    ensures Shape(cs, y)
  {
    match e
    case Environment(k, a) => At(x, k, Next(cs[k], x.servers[k], a), x.links[k])
    case PreRegister(k, rid, sender, stats, delivered) =>
      var s := Next(cs[k], x.servers[k], Reg(Request(w, x, k), true, rid, sender, stats));
      At(x, k, s, LinkAfterReg(s, rid, delivered))
    case NoConnection(k) => At(x, k, x.servers[k], x.links[k].(known := Failed))
    case Advance => x.(phase := NextPhase(x))
    case SendConfirm(k, store, delivered) =>
      var l := x.links[k];
      if l.open && l.session.Some? then
        At(x, k, Next(cs[k], x.servers[k], Confirm(l.session.value, store)),
           l.(saved := store, known := if store && delivered then Acknowledged else ConfirmFailed))
      else At(x, k, x.servers[k], l.(known := ConfirmFailed))
    case Hangup(k) =>
      var l := x.links[k];
      if l.open && l.session.Some?
      then At(x, k, Next(cs[k], x.servers[k], Drop(l.session.value)), l.(open := false))
      else x
  }

  // ----- the invariant

  /** Nothing of the device is left: no entry, no index key for the address, no live session. */
  predicate Gone(s: Server, d: DeviceId, rid: nat, ip: Ip) {
    && d !in s.table.deviceMap
    && !(ip in s.table.deviceIpMap && s.table.deviceIpMap[ip] == d)
    && rid !in s.sessions
  }

  /** The device is connected under this session, which is confirmed exactly if `saved`. */
  predicate Held(s: Server, d: DeviceId, rid: nat, ip: Ip, saved: bool) {
    && Owns(s.table, d, ip, rid) && s.table.deviceMap[d].isConnected
    && rid in s.sessions && s.sessions[rid].deviceId == d && s.sessions[rid].ip == ip
    && s.sessions[rid].status == (if saved then Sessions.Confirmed else Pending)
  }

  predicate LinkOk(s: Server, w: Client, l: Link) {
    match l.session
    case None => !l.open && !l.saved && (l.known == Idle || l.known == Failed)
    case Some(rid) =>
      && rid in s.used && l.known != Idle
      && (w.wish.Some? ==> l.ip == w.wish.value)
      && (l.known == Acknowledged ==> l.saved)
      && (l.saved ==> Answered(l.known))
      && (l.open ==> Held(s, w.device, rid, l.ip, l.saved))
      && (!l.open && !l.saved ==> Gone(s, w.device, rid, l.ip))
  }

  /** No confirmation has been sent. */
  predicate Unconfirmed(p: Phase) {
    p == First || p == Others || p == GaveUp(false)
  }

  /** Some server's part of the attempt ended this way. */
  predicate SomeKnown(x: Attempt, known: Knowledge) {
    exists k :: 0 <= k < |x.links| && x.links[k].known == known
  }

  predicate NoneAnswered(x: Attempt) {
    forall k :: 0 <= k < |x.links| ==> !Answered(x.links[k].known)
  }

  predicate AllGranted(x: Attempt) {
    forall k :: 0 <= k < |x.links| ==> x.links[k].session.Some? && GrantArrived(x.links[k].known)
  }

  predicate PhaseOk(x: Attempt)
    requires |x.links| > 0
  {
    match x.phase
    case First => NoneAnswered(x) && forall k :: 0 < k < |x.links| ==> x.links[k].known == Idle
    case Others => NoneAnswered(x) && x.links[0].known == Granted
    case Confirming => AllGranted(x)
    case Done => AllGranted(x) && forall k :: 0 <= k < |x.links| ==> x.links[k].known == Acknowledged
    case GaveUp(confirming) => if confirming then AllGranted(x) && SomeKnown(x, ConfirmFailed) else SomeKnown(x, Failed)
  }

  predicate AttemptInv(cs: seq<Config>, w: Client, x: Attempt) {
    && Shape(cs, x)
    && (forall k :: 0 <= k < |cs| ==> ServerInv(cs[k], x.servers[k]))
    && (forall k :: 0 <= k < |cs| ==> LinkOk(x.servers[k], w, x.links[k]))
    && PhaseOk(x)
    && (Unconfirmed(x.phase) ==> forall k :: 0 <= k < |cs| ==> !x.links[k].saved)
  }

  /** A step for others keeps what this client holds and brings nothing of it back. */
  lemma ForeignKeepsLink(c: Config, s: Server, w: Client, l: Link, a: Action)
    requires c.Valid() && ServerInv(c, s) && Enabled(s, a) && Foreign(w, l, a) && LinkOk(s, w, l)
    ensures LinkOk(Next(c, s, a), w, l)
  {
    match a
    case Reg(req, _, rid, sender, stats) =>
      if LeaseState.Register(s.table, c, req, rid, sender, stats).Ok? {
        ForeignRegister(s.table, c, req, rid, sender, stats, w.device);
      }
    case Confirm(_, _) =>
    case Drop(rid) =>
      if rid in s.sessions {
        DropIsLocal(c, s, rid);
      }
    case _ =>
  }

  lemma ForeignRegister(t: Table, c: Config, req: RegRequest, rid: nat, sender: Sender, stats: StatsId, d: DeviceId)
    requires c.Valid() && Indexed(t, c) && req.deviceId != d
    requires LeaseState.Register(t, c, req, rid, sender, stats).Ok?
    ensures var u := LeaseState.Register(t, c, req, rid, sender, stats).value.table;
      && (d in u.deviceMap <==> d in t.deviceMap)
      && (d in t.deviceMap ==> u.deviceMap[d] == t.deviceMap[d])
      && forall j :: j in u.deviceIpMap && u.deviceIpMap[j] == d ==> j in t.deviceIpMap && t.deviceIpMap[j] == d
  {
    AllocatePlaces(t, c, req, rid, stats);
  }

  lemma PreRegisterOpensLink(c: Config, s: Server, w: Client, req: RegRequest, rid: nat, sender: Sender,
                             stats: StatsId, delivered: bool)
    requires c.Valid() && ServerInv(c, s) && rid !in s.used
    requires req.deviceId == w.device && req.ipVariable == w.wish.None?
    requires w.wish.Some? ==> req.ip == w.wish
    ensures var s' := Next(c, s, Reg(req, true, rid, sender, stats));
      ServerInv(c, s') && LinkOk(s', w, LinkAfterReg(s', rid, delivered))
  {
    NextKeepsInv(c, s, Reg(req, true, rid, sender, stats));
    if LeaseState.Register(s.table, c, req, rid, sender, stats).Ok? {
      AllocatePlaces(s.table, c, req, rid, stats);
    }
  }

  lemma ConfirmKeepsLink(c: Config, s: Server, w: Client, l: Link, store: bool, delivered: bool)
    requires c.Valid() && ServerInv(c, s) && LinkOk(s, w, l) && l.known == Granted && l.open && l.session.Some?
    ensures var s' := Next(c, s, Confirm(l.session.value, store));
      && ServerInv(c, s')
      && LinkOk(s', w, l.(saved := store, known := if store && delivered then Acknowledged else ConfirmFailed))
  {
    NextKeepsInv(c, s, Confirm(l.session.value, store));
  }

  lemma HangupClosesLink(c: Config, s: Server, w: Client, l: Link)
    requires c.Valid() && ServerInv(c, s) && LinkOk(s, w, l) && l.open && l.session.Some?
    ensures var s' := Next(c, s, Drop(l.session.value)); ServerInv(c, s') && LinkOk(s', w, l.(open := false))
  {
    NextKeepsInv(c, s, Drop(l.session.value));
  }

  /** Replacing one server and its link by good ones keeps the invariant if the phase allows it. */
  lemma AtKeepsInv(cs: seq<Config>, w: Client, x: Attempt, k: nat, s: Server, l: Link)
    requires AttemptInv(cs, w, x) && k < |cs|
    requires ServerInv(cs[k], s) && LinkOk(s, w, l)
    requires PhaseOk(At(x, k, s, l)) && (Unconfirmed(x.phase) ==> !l.saved)
    ensures AttemptInv(cs, w, At(x, k, s, l))
  {
  }

  /** The phase looks only at what the client knows. */
  lemma SameKnowledgeKeepsPhase(x: Attempt, k: nat, s: Server, l: Link)
    requires 0 < |x.links| == |x.servers| && k < |x.links| && PhaseOk(x)
    requires l.known == x.links[k].known && l.session == x.links[k].session
    ensures PhaseOk(At(x, k, s, l))
  {
    var y := At(x, k, s, l);
    assert forall j :: 0 <= j < |x.links| ==>
      y.links[j].known == x.links[j].known && y.links[j].session == x.links[j].session;
    forall known | SomeKnown(x, known) ensures SomeKnown(y, known) {
      var j :| 0 <= j < |x.links| && x.links[j].known == known;
      assert y.links[j].known == known;
    }
  }

  lemma EnvironmentKeepsInv(cs: seq<Config>, w: Client, x: Attempt, k: nat, a: Action)
    requires AttemptInv(cs, w, x) && Possible(cs, w, x, Environment(k, a))
    ensures AttemptInv(cs, w, Step(cs, w, x, Environment(k, a)))
  {
    NextKeepsInv(cs[k], x.servers[k], a);
    ForeignKeepsLink(cs[k], x.servers[k], w, x.links[k], a);
    SameKnowledgeKeepsPhase(x, k, Next(cs[k], x.servers[k], a), x.links[k]);
    AtKeepsInv(cs, w, x, k, Next(cs[k], x.servers[k], a), x.links[k]);
  }

  lemma PreRegisterKeepsInv(cs: seq<Config>, w: Client, x: Attempt, k: nat, rid: nat, sender: Sender,
                            stats: StatsId, delivered: bool)
    requires AttemptInv(cs, w, x) && Possible(cs, w, x, PreRegister(k, rid, sender, stats, delivered))
    ensures AttemptInv(cs, w, Step(cs, w, x, PreRegister(k, rid, sender, stats, delivered)))
  {
    PreRegisterOpensLink(cs[k], x.servers[k], w, Request(w, x, k), rid, sender, stats, delivered);
    var s := Next(cs[k], x.servers[k], Reg(Request(w, x, k), true, rid, sender, stats));
    IdleAnsweredKeepsInv(cs, w, x, k, s, LinkAfterReg(s, rid, delivered));
  }

  /** The first answer to a pre-registration is a grant or a failure. */
  lemma IdleAnsweredKeepsInv(cs: seq<Config>, w: Client, x: Attempt, k: nat, s: Server, l: Link)
    requires AttemptInv(cs, w, x) && k < |cs| && x.links[k].known == Idle
    requires if k == 0 then x.phase == First else x.phase == Others
    requires ServerInv(cs[k], s) && LinkOk(s, w, l) && !l.saved && (l.known == Granted || l.known == Failed)
    ensures AttemptInv(cs, w, At(x, k, s, l))
  {
    AtKeepsInv(cs, w, x, k, s, l);
  }

  lemma SendConfirmKeepsInv(cs: seq<Config>, w: Client, x: Attempt, k: nat, store: bool, delivered: bool)
    requires AttemptInv(cs, w, x) && Possible(cs, w, x, SendConfirm(k, store, delivered))
    ensures AttemptInv(cs, w, Step(cs, w, x, SendConfirm(k, store, delivered)))
  {
    var l, s := x.links[k], x.servers[k];
    if l.open && l.session.Some? {
      ConfirmSentKeepsInv(cs, w, x, k, store, delivered);
    } else {
      AtKeepsInv(cs, w, x, k, s, l.(known := ConfirmFailed));
    }
  }

  lemma ConfirmSentKeepsInv(cs: seq<Config>, w: Client, x: Attempt, k: nat, store: bool, delivered: bool)
    requires AttemptInv(cs, w, x) && Possible(cs, w, x, SendConfirm(k, store, delivered))
    requires x.links[k].open && x.links[k].session.Some?
    ensures AttemptInv(cs, w, Step(cs, w, x, SendConfirm(k, store, delivered)))
  {
    var l, s := x.links[k], x.servers[k];
    ConfirmKeepsLink(cs[k], s, w, l, store, delivered);
    AnsweredKeepsInv(cs, w, x, k, Next(cs[k], s, Confirm(l.session.value, store)),
                     l.(saved := store, known := if store && delivered then Acknowledged else ConfirmFailed));
  }

  lemma AnsweredKeepsInv(cs: seq<Config>, w: Client, x: Attempt, k: nat, s: Server, l: Link)
    requires AttemptInv(cs, w, x) && k < |cs| && x.phase == Confirming
    requires ServerInv(cs[k], s) && LinkOk(s, w, l) && l.session.Some? && Answered(l.known)
    ensures AttemptInv(cs, w, At(x, k, s, l))
  {
    AtKeepsInv(cs, w, x, k, s, l);
  }

  lemma HangupKeepsInv(cs: seq<Config>, w: Client, x: Attempt, k: nat)
    requires AttemptInv(cs, w, x) && Possible(cs, w, x, Hangup(k))
    ensures AttemptInv(cs, w, Step(cs, w, x, Hangup(k)))
  {
    var l := x.links[k];
    if l.open && l.session.Some? {
      HangupClosesLink(cs[k], x.servers[k], w, l);
      SameKnowledgeKeepsPhase(x, k, Next(cs[k], x.servers[k], Drop(l.session.value)), l.(open := false));
      AtKeepsInv(cs, w, x, k, Next(cs[k], x.servers[k], Drop(l.session.value)), l.(open := false));
    }
  }

  lemma AdvanceKeepsPhase(cs: seq<Config>, w: Client, x: Attempt)
    requires AttemptInv(cs, w, x) && AnswersIn(x)
    ensures PhaseOk(x.(phase := NextPhase(x)))
  {
    var y := x.(phase := NextPhase(x));
    match x.phase
    case First =>
      if x.links[0].known != Granted { assert y.links[0].known == Failed; }
    case Others =>
      if y.phase == GaveUp(false) {
        var k :| 0 <= k < |x.links| && x.links[k].known != Granted;
        assert y.links[k].known == Failed;
      } else {
        forall k | 0 <= k < |x.links| ensures x.links[k].session.Some? { assert LinkOk(x.servers[k], w, x.links[k]); }
      }
    case Confirming =>
      if y.phase == GaveUp(true) {
        var k :| 0 <= k < |x.links| && x.links[k].known != Acknowledged;
        assert y.links[k].known == ConfirmFailed;
      }
    case _ =>
  }

  lemma StepKeepsInv(cs: seq<Config>, w: Client, x: Attempt, e: Event)
    requires AttemptInv(cs, w, x) && Possible(cs, w, x, e)
    ensures AttemptInv(cs, w, Step(cs, w, x, e))
  {
    match e
    case Environment(k, a) => EnvironmentKeepsInv(cs, w, x, k, a);
    case PreRegister(k, rid, sender, stats, delivered) =>
      PreRegisterKeepsInv(cs, w, x, k, rid, sender, stats, delivered);
    case NoConnection(k) => AtKeepsInv(cs, w, x, k, x.servers[k], x.links[k].(known := Failed));
    case Advance => AdvanceKeepsPhase(cs, w, x);
    case SendConfirm(k, store, delivered) => SendConfirmKeepsInv(cs, w, x, k, store, delivered);
    case Hangup(k) => HangupKeepsInv(cs, w, x, k);
  }

  // ----- whole attempts

  predicate PossibleRun(cs: seq<Config>, w: Client, x: Attempt, run: seq<Event>)
    requires Shape(cs, x)
    decreases |run|
  {
    run == [] || (Possible(cs, w, x, run[0]) && PossibleRun(cs, w, Step(cs, w, x, run[0]), run[1..]))
  }

  function After(cs: seq<Config>, w: Client, x: Attempt, run: seq<Event>): (y: Attempt)
    requires Shape(cs, x) && PossibleRun(cs, w, x, run)
    ensures Shape(cs, y)
    decreases |run|
  {
    if run == [] then x else After(cs, w, Step(cs, w, x, run[0]), run[1..])
  }

  lemma {:induction false} RunKeepsInv(cs: seq<Config>, w: Client, x: Attempt, run: seq<Event>)
    requires AttemptInv(cs, w, x) && PossibleRun(cs, w, x, run)
    ensures AttemptInv(cs, w, After(cs, w, x, run))
    decreases |run|
  {
    if run != [] {
      StepKeepsInv(cs, w, x, run[0]);
      RunKeepsInv(cs, w, Step(cs, w, x, run[0]), run[1..]);
    }
  }

  /** Any set of consistent servers, nothing tried yet. */
  predicate Fresh(cs: seq<Config>, x: Attempt) {
    && Shape(cs, x) && x.phase == First
    && (forall k :: 0 <= k < |cs| ==> ServerInv(cs[k], x.servers[k]))
    && (forall k :: 0 <= k < |cs| ==> x.links[k] == Link(Idle, None, 0, false, false))
  }

  /** Two phases: when a confirmation can be sent, the client has every server's grant, with an address
      fixed by the user every grant is for that address, and wherever the connection still stands the
      device is connected there under this session, confirmed exactly where that was stored. */
  lemma ConfirmOnlyAfterAllGrants(cs: seq<Config>, w: Client, x: Attempt, run: seq<Event>, k: nat, store: bool,
                                  delivered: bool, j: nat)
    requires Fresh(cs, x) && PossibleRun(cs, w, x, run) && j < |cs|
    requires Possible(cs, w, After(cs, w, x, run), SendConfirm(k, store, delivered))
    ensures var l := After(cs, w, x, run).links[j];
      && l.session.Some? && GrantArrived(l.known) && (w.wish.Some? ==> l.ip == w.wish.value)
      && (l.open ==> Held(After(cs, w, x, run).servers[j], w.device, l.session.value, l.ip, l.saved))
  {
    RunKeepsInv(cs, w, x, run);
  }

  /** Success: every server confirmed a session for the fixed address, and wherever the connection
      still stands the device is connected under that confirmed session. */
  lemma SuccessIsEverywhere(cs: seq<Config>, w: Client, x: Attempt, run: seq<Event>, k: nat)
    requires Fresh(cs, x) && PossibleRun(cs, w, x, run) && k < |cs| && w.wish.Some?
    requires After(cs, w, x, run).phase == Done
    ensures var s, l := After(cs, w, x, run).servers[k], After(cs, w, x, run).links[k];
      && l.session.Some? && l.saved && l.ip == w.wish.value
      && (l.open ==> Held(s, w.device, l.session.value, w.wish.value, true))
  {
    RunKeepsInv(cs, w, x, run);
  }

  /** The three ways an attempt ends, told by what the client knows of its servers. */
  predicate EndsRightly(y: Attempt) {
    y.phase == Done || y.phase.GaveUp? ==>
      && (y.phase == Done <==> forall k :: 0 <= k < |y.links| ==> y.links[k].known == Acknowledged)
      && (y.phase == GaveUp(false) <==> exists k :: 0 <= k < |y.links| && y.links[k].known == Failed)
      && (y.phase == GaveUp(true) <==> (forall k :: 0 <= k < |y.links| ==> y.links[k].known != Failed)
                                       && exists k :: 0 <= k < |y.links| && y.links[k].known == ConfirmFailed)
  }

  lemma PhaseEndsRightly(y: Attempt)
    requires |y.links| > 0 && PhaseOk(y)
    ensures EndsRightly(y)
  {
  }

  /** How an attempt ends: it succeeds if and only if every server acknowledged the confirmation, it is
      given up before confirming if and only if some server failed to grant, and while confirming if
      and only if all granted and some confirmation failed. */
  lemma AttemptEndsIff(cs: seq<Config>, w: Client, x: Attempt, run: seq<Event>)
    requires Fresh(cs, x) && PossibleRun(cs, w, x, run)
    ensures EndsRightly(After(cs, w, x, run))
  {
    RunKeepsInv(cs, w, x, run);
    PhaseEndsRightly(After(cs, w, x, run));
  }

  /** A failed attempt cleans up after itself: wherever no confirmation was stored, the end of the
      connection leaves no session, no entry of the device and no index key for its address; and
      an attempt that has not reached the confirming phase has stored no confirmation anywhere. */
  lemma UnconfirmedLeavesNothing(cs: seq<Config>, w: Client, x: Attempt, run: seq<Event>, k: nat)
    requires Fresh(cs, x) && PossibleRun(cs, w, x, run) && k < |cs|
    ensures var y := After(cs, w, x, run);
      var s, l := y.servers[k], y.links[k];
      && (l.session.Some? && !l.open && !l.saved ==>
            Gone(s, w.device, l.session.value, l.ip)
            && (l.ip in s.table.senderMap ==> exists e :: e != w.device && Has(s.table, e, l.ip)))
      && (Unconfirmed(y.phase) ==> !l.saved)
  {
    RunKeepsInv(cs, w, x, run);
    var s, l := After(cs, w, x, run).servers[k], After(cs, w, x, run).links[k];
    if l.session.Some? && !l.open && !l.saved && l.ip in s.table.senderMap {
      var e :| e in s.table.deviceMap && s.table.deviceMap[e].isConnected && s.table.deviceMap[e].ip == Some(l.ip);
      assert e != w.device && Has(s.table, e, l.ip);
    }
  }
}
