/** An attempt at which all goes well succeeds. */
module CoordinatedProgress {
  import opened Base
  import opened LeaseState
  import opened Sessions
  import opened Coordinated

  /** The server would grant the pre-registration under this fresh id. */
  predicate Grants(c: Config, s: Server, req: RegRequest, rid: nat)
    requires c.Valid()
  {
    rid !in s.used && LeaseState.Register(s.table, c, req, rid, 0, 0).Ok?
  }

  /** The client has this grant and the connection it came by. */
  predicate InHand(l: Link) {
    l.known == Granted && l.open && l.session.Some?
  }

  lemma OneMoreStep(cs: seq<Config>, w: Client, x: Attempt, e: Event, y: Attempt, rest: seq<Event>)
    requires Shape(cs, x) && Possible(cs, w, x, e) && y == Step(cs, w, x, e) && PossibleRun(cs, w, y, rest)
    ensures PossibleRun(cs, w, x, [e] + rest) && After(cs, w, x, [e] + rest) == After(cs, w, y, rest)
  {
    assert ([e] + rest)[1..] == rest;
  }

  /** The confirmations from the k-th server on, then success. */
  lemma ConfirmRest(cs: seq<Config>, w: Client, x: Attempt, k: nat) returns (run: seq<Event>)
    requires Shape(cs, x) && x.phase == Confirming && k <= |cs|
    requires forall j :: 0 <= j < k ==> x.links[j].known == Acknowledged
    requires forall j :: k <= j < |cs| ==> InHand(x.links[j])
    ensures PossibleRun(cs, w, x, run) && After(cs, w, x, run).phase == Done
    decreases |cs| - k
  {
    if k == |cs| {
      var y := x.(phase := Done);
      OneMoreStep(cs, w, x, Advance, y, []);
      return [Advance];
    }
    var e := SendConfirm(k, true, true);
    var y := Step(cs, w, x, e);
    var rest := ConfirmRest(cs, w, y, k + 1);
    OneMoreStep(cs, w, x, e, y, rest);
    run := [e] + rest;
  }

  /** The pre-registrations from the k-th server on, then the confirmations. */
  lemma PreRegisterRest(cs: seq<Config>, w: Client, x: Attempt, k: nat, rids: seq<nat>) returns (run: seq<Event>)
    requires Shape(cs, x) && x.phase == Others && 1 <= k <= |cs| == |rids|
    requires forall j :: 0 <= j < k ==> InHand(x.links[j])
    requires forall j :: k <= j < |cs| ==>
      x.links[j].known == Idle && Grants(cs[j], x.servers[j], Request(w, x, j), rids[j])
    ensures PossibleRun(cs, w, x, run) && After(cs, w, x, run).phase == Done
    decreases |cs| - k
  {
    if k == |cs| {
      var y := x.(phase := Confirming);
      var rest := ConfirmRest(cs, w, y, 0);
      OneMoreStep(cs, w, x, Advance, y, rest);
      return [Advance] + rest;
    }
    var e := PreRegister(k, rids[k], 0, 0, true);
    var y := Step(cs, w, x, e);
    assert InHand(y.links[k]);
    assert forall j :: k < j < |cs| ==> Request(w, y, j) == Request(w, x, j);
    var rest := PreRegisterRest(cs, w, y, k + 1, rids);
    OneMoreStep(cs, w, x, e, y, rest);
    run := [e] + rest;
  }

  /** The first server's grant for the user's wish, and every other server's for the address it gave. */
  predicate Willing(cs: seq<Config>, w: Client, x: Attempt, rids: seq<nat>)
    requires Shape(cs, x) && |rids| == |cs|
  {
    var first := RegRequest(w.device, w.wish, w.wish.None?);
    && Grants(cs[0], x.servers[0], first, rids[0])
    && var ip := LeaseState.Register(x.servers[0].table, cs[0], first, rids[0], 0, 0).value.ip;
      forall j :: 1 <= j < |cs| ==>
        Grants(cs[j], x.servers[j], RegRequest(w.device, Some(ip), w.wish.None?), rids[j])
  }

  /** If every server grants its part, an attempt whose replies all arrive and whose confirmations are
      all stored runs to success. */
  lemma WillingServersSucceed(cs: seq<Config>, w: Client, x: Attempt, rids: seq<nat>) returns (run: seq<Event>)
    requires Fresh(cs, x) && |rids| == |cs| && Willing(cs, w, x, rids)
    ensures PossibleRun(cs, w, x, run) && After(cs, w, x, run).phase == Done
  {
    var e := PreRegister(0, rids[0], 0, 0, true);
    var y := Step(cs, w, x, e);
    var z := y.(phase := Others);
    assert InHand(y.links[0]);
    var rest := PreRegisterRest(cs, w, z, 1, rids);
    OneMoreStep(cs, w, y, Advance, z, rest);
    OneMoreStep(cs, w, x, e, y, [Advance] + rest);
    run := [e] + ([Advance] + rest);
  }

  /** A failure that dooms the attempt: a server that did not grant, or that did not confirm. */
  predicate Doomed(x: Attempt, k: nat, confirming: bool) {
    && k < |x.links|
    && (if confirming then x.links[k].known == ConfirmFailed && x.phase in {Confirming, GaveUp(true)}
        else x.links[k].known == Failed && x.phase in {First, Others, GaveUp(false)})
  }

  lemma DoomedStays(cs: seq<Config>, w: Client, x: Attempt, e: Event, k: nat, confirming: bool)
    requires Shape(cs, x) && Possible(cs, w, x, e) && Doomed(x, k, confirming)
    ensures Doomed(Step(cs, w, x, e), k, confirming)
  {
  }

  lemma {:induction false} DoomedRun(cs: seq<Config>, w: Client, x: Attempt, run: seq<Event>, k: nat, confirming: bool)
    requires Shape(cs, x) && PossibleRun(cs, w, x, run) && Doomed(x, k, confirming)
    ensures Doomed(After(cs, w, x, run), k, confirming)
    decreases |run|
  {
    if run != [] {
      DoomedStays(cs, w, x, run[0], k, confirming);
      DoomedRun(cs, w, Step(cs, w, x, run[0]), run[1..], k, confirming);
    }
  }

  /** The server is not reached, refuses, or its reply is lost. */
  predicate DoesNotGrant(cs: seq<Config>, w: Client, x: Attempt, e: Event, k: nat)
    requires Shape(cs, x) && k < |cs|
  {
    match e
    case NoConnection(j) => j == k
    case PreRegister(j, rid, sender, stats, delivered) =>
      j == k && !(delivered && LeaseState.Register(x.servers[k].table, cs[k], Request(w, x, k), rid, sender, stats).Ok?)
    case _ => false
  }

  /** One server that does not grant, for whatever reason, keeps the attempt from confirming anywhere. */
  lemma OneRefusalStopsAll(cs: seq<Config>, w: Client, x: Attempt, e: Event, k: nat, run: seq<Event>)
    requires Shape(cs, x) && k < |cs| && Possible(cs, w, x, e) && DoesNotGrant(cs, w, x, e, k)
    requires x.servers[k].sessions.Keys <= x.servers[k].used
    requires PossibleRun(cs, w, Step(cs, w, x, e), run)
    ensures After(cs, w, Step(cs, w, x, e), run).phase in {First, Others, GaveUp(false)}
  {
    DoomedRun(cs, w, Step(cs, w, x, e), run, k, false);
  }

  /** A confirmation that is not stored or not answered, or whose connection is gone, keeps the attempt
      from succeeding. */
  lemma OneLostConfirmationFails(cs: seq<Config>, w: Client, x: Attempt, k: nat, store: bool, delivered: bool,
                                 run: seq<Event>)
    requires Shape(cs, x) && Possible(cs, w, x, SendConfirm(k, store, delivered))
    requires !store || !delivered || !x.links[k].open
    requires PossibleRun(cs, w, Step(cs, w, x, SendConfirm(k, store, delivered)), run)
    ensures After(cs, w, Step(cs, w, x, SendConfirm(k, store, delivered)), run).phase in {Confirming, GaveUp(true)}
  {
    DoomedRun(cs, w, Step(cs, w, x, SendConfirm(k, store, delivered)), run, k, true);
  }

  /** The link is hung up: nothing of the device is left where no confirmation was stored, and a
      disconnected device with its address where one was. */
  predicate HungUp(w: Client, l: Link, s: Server) {
    l.session.Some? ==>
      && (!l.saved ==> Gone(s, w.device, l.session.value, l.ip))
      && (l.open && l.saved ==>
            Has(s.table, w.device, l.ip) && !Connected(s.table, w.device) && l.session.value !in s.sessions)
  }

  /** Hanging up at any point of an attempt cleans up there. */
  lemma HangupEndsSession(cs: seq<Config>, w: Client, x: Attempt, run: seq<Event>, k: nat)
    requires Fresh(cs, x) && PossibleRun(cs, w, x, run) && k < |cs|
    ensures var y := After(cs, w, x, run); HungUp(w, y.links[k], Step(cs, w, y, Hangup(k)).servers[k])
  {
    RunKeepsInv(cs, w, x, run);
    HangupHangsUp(cs, w, After(cs, w, x, run), k);
  }

  lemma HangupHangsUp(cs: seq<Config>, w: Client, y: Attempt, k: nat)
    requires AttemptInv(cs, w, y) && k < |cs|
    ensures HungUp(w, y.links[k], Step(cs, w, y, Hangup(k)).servers[k])
  {
    if y.links[k].session.Some? { HangupLeaves(cs[k], y.servers[k], w, y.links[k]); }
  }

  lemma HangupLeaves(c: Config, s: Server, w: Client, l: Link)
    requires c.Valid() && ServerInv(c, s) && LinkOk(s, w, l) && l.session.Some?
    ensures HungUp(w, l, if l.open then Next(c, s, Drop(l.session.value)) else s)
  {
    if l.open { HangupClosesLink(c, s, w, l); }
  }

  /** Meanwhile every server goes on serving others as it would without the attempt. */
  lemma OthersAreServed(cs: seq<Config>, w: Client, x: Attempt, k: nat, a: Action)
    requires Shape(cs, x) && Possible(cs, w, x, Environment(k, a))
    ensures var y := Step(cs, w, x, Environment(k, a));
      && y.servers[k] == Next(cs[k], x.servers[k], a)
      && (forall j :: 0 <= j < |cs| && j != k ==> y.servers[j] == x.servers[j])
      && y.links == x.links && y.phase == x.phase
  {
  }
}
