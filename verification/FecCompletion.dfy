/** Any k of n packets complete a group, given a well-formed sender: one group of `k` original and
`m` redundancy packets, received in any order, with losses and duplicates. */
module FecCompletion {
  import opened Base
  import opened FecGroups

  predicate GoodCode(k: nat, m: nat) {
    1 <= k <= MAX_NUM && 1 <= m <= MAX_NUM
  }

  /** The packets a sender emits for the group. */
  predicate Emitted(k: nat, m: nat, p: FecPacket) {
    match p.parity
    case None => p.index < k
    case Some(q) => q == Parity(k, m) && k <= p.index < k + m
  }

  /** A successful reconstruction: the full row, with every original shard readable. */
  predicate Successful(k: nat, m: nat, full: Option<seq<Shard>>) {
    && full.Some? && |full.value| == k + m
    && forall i :: 0 <= i < k ==> Rebuilt(full.value[i]).Some?
  }

  predicate HasParity(k: nat, arrived: set<nat>) {
    exists i :: i in arrived && i >= k
  }

  /** A redundancy packet and at least k distinct packets have arrived. */
  predicate Complete(k: nat, arrived: set<nat>) {
    HasParity(k, arrived) && |arrived| >= k
  }

  function Originals(k: nat, arrived: set<nat>): set<nat> {
    set i | i in arrived && i < k
  }

  function FilledSet(slots: seq<Option<Shard>>): set<nat> {
    set i | 0 <= i < |slots| && slots[i].Some?
  }

  lemma {:induction false} CountFilledIsSize(slots: seq<Option<Shard>>)
    ensures CountFilled(slots) == |FilledSet(slots)|
  {
    if slots != [] {
      var n := |slots| - 1;
      CountFilledIsSize(slots[..n]);
      assert FilledSet(slots) == FilledSet(slots[..n]) + (if slots[n].Some? then {n} else {});
    }
  }

  function Below(k: nat): (r: set<nat>)
    ensures |r| == k && forall i :: i in r <==> 0 <= i < k
  {
    if k == 0 then {} else Below(k - 1) + {k - 1}
  }

  /** With a redundancy packet among them, the originals are fewer than the arrived packets; there
      are k of them only if all came. */
  lemma OriginalsSize(k: nat, arrived: set<nat>)
    ensures |Originals(k, arrived)| <= k && |Originals(k, arrived)| <= |arrived|
    ensures HasParity(k, arrived) ==> |Originals(k, arrived)| < |arrived|
    ensures |Originals(k, arrived)| == k ==> Originals(k, arrived) == Below(k)
  {
    var os := Originals(k, arrived);
    SubsetSize(os, arrived);
    SubsetSize(os, Below(k));
    if i :| i in arrived && i >= k {
      SubsetSize(os + {i}, arrived);
    }
  }

  /** The group's state while it waits, in terms of what has arrived. */
  ghost predicate Waiting(g: Group, k: nat, m: nat, arrived: set<nat>) {
    var known := HasParity(k, arrived);
    && g.data == (if known then k else 0)
    && g.parity == (if known then m else 0)
    && (if known then |g.slots| == k + m else |g.slots| <= k)
    && (forall i: nat :: g.Filled(i) <==> i in arrived)
    && g.originals == |Originals(k, arrived)|
  }

  /** The state of the group and what was handed out, in terms of what has arrived. */
  ghost predicate Tracks(g: Group, k: nat, m: nat, arrived: set<nat>, outs: seq<nat>) {
    && (forall i :: i in arrived ==> i < k + m)
    && (if Complete(k, arrived) then g.IsDone() && g.data == k && forall i: nat :: i in outs <==> i < k
        else Waiting(g, k, m, arrived) && forall i: nat :: i in outs <==> i in arrived && i < k)
  }

  lemma WaitingIsNotDone(g: Group, k: nat, m: nat, arrived: set<nat>)
    requires Waiting(g, k, m, arrived) && !Complete(k, arrived)
    ensures !g.IsDone()
  {
    OriginalsSize(k, arrived);
  }

  lemma OneMore(k: nat, arrived: set<nat>, i: nat)
    requires i !in arrived
    ensures |arrived + {i}| == |arrived| + 1
    ensures HasParity(k, arrived + {i}) <==> HasParity(k, arrived) || i >= k
    ensures |Originals(k, arrived + {i})| == |Originals(k, arrived)| + (if i < k then 1 else 0)
  {
    var more := arrived + {i};
    assert Originals(k, more) == Originals(k, arrived) + (if i < k then {i} else {});
    if i >= k { assert i in more; }
    if j :| j in arrived && j >= k { assert j in more; }
  }

  /** Storing a new packet moves the waiting state on by that packet. */
  lemma StoredWaits(g: Group, k: nat, m: nat, arrived: set<nat>, p: FecPacket, shard: Shard, now: nat)
    requires GoodCode(k, m) && Emitted(k, m, p) && p.index !in arrived
    requires Waiting(g, k, m, arrived) && forall i :: i in arrived ==> i < k + m
    ensures !Refused(g, p) && Waiting(Stored(g, p, shard, now), k, m, arrived + {p.index})
  {
    OneMore(k, arrived, p.index);
    StoredFills(g, p, shard, now);
  }

  lemma FilledCount(h: Group, k: nat, m: nat, arrived: set<nat>)
    requires Waiting(h, k, m, arrived)
    ensures CountFilled(h.slots) == |arrived|
  {
    forall i: nat ensures i in FilledSet(h.slots) <==> i in arrived {
      assert h.Filled(i) <==> i in FilledSet(h.slots);
    }
    assert FilledSet(h.slots) == arrived;
    CountFilledIsSize(h.slots);
  }

  /** All originals came: the group closes without reconstruction. */
  lemma AllOriginalsFinish(h: Group, k: nat, m: nat, arrived: set<nat>, p: FecPacket, full: Option<seq<Shard>>)
    requires GoodCode(k, m) && Waiting(h, k, m, arrived) && HasParity(k, arrived) && h.originals == k
    ensures Finish(h, Direct(p), full) == (Done(h), Ok(Direct(p))) && Done(h).IsDone()
    ensures forall i: nat :: i < k ==> i in arrived
  {
    OriginalsSize(k, arrived);
    forall i: nat | i < k ensures i in arrived {
      assert i in Below(k) && i in Originals(k, arrived);
    }
  }

  /** Some originals are missing: reconstruction hands them out and closes the group. */
  lemma MissingOriginalsFinish(h: Group, k: nat, m: nat, arrived: set<nat>, p: FecPacket, full: Option<seq<Shard>>)
    requires GoodCode(k, m) && Successful(k, m, full)
    requires Waiting(h, k, m, arrived) && Complete(k, arrived) && h.originals != k
    ensures var (h', r) := Finish(h, Direct(p), full);
      h' == Done(h) && h'.IsDone() && r.Ok? && Indices(r.value) == Missing(h, k) + Indices(Direct(p))
  {
    FilledCount(h, k, m, arrived);
    var missing := Missing(h, k);
    RebuiltAllIff(full.value, missing);
    RebuiltIndices(full.value, missing);
    var ds := RebuiltAll(full.value, missing).value;
    assert Indices(ds + Direct(p)) == Indices(ds) + Indices(Direct(p));
  }

  /** In a complete state the group closes and hands out every original not handed out before. */
  lemma CompleteFinishes(h: Group, k: nat, m: nat, arrived: set<nat>, p: FecPacket, full: Option<seq<Shard>>)
    requires GoodCode(k, m) && Emitted(k, m, p) && p.index in arrived && Successful(k, m, full)
    requires Waiting(h, k, m, arrived) && Complete(k, arrived)
    ensures var (h', r) := Finish(h, Direct(p), full);
      && h'.IsDone() && h'.data == k && r.Ok?
      && forall i: nat :: i in Indices(r.value) <==> i < k && (i !in arrived || i == p.index)
  {
    assert Indices(Direct(p)) == if p.parity.None? then [p.index] else [];
    if h.originals == k {
      AllOriginalsFinish(h, k, m, arrived, p, full);
    } else {
      MissingOriginalsFinish(h, k, m, arrived, p, full);
    }
  }

  /** In an incomplete state nothing but the packet itself is handed out. */
  lemma IncompleteWaits(h: Group, k: nat, m: nat, arrived: set<nat>, p: FecPacket, full: Option<seq<Shard>>)
    requires GoodCode(k, m) && Waiting(h, k, m, arrived) && !Complete(k, arrived)
    requires forall i :: i in arrived ==> i < k + m
    ensures Finish(h, Direct(p), full) == (h, Ok([] + Direct(p)))
  {
    WaitingIsNotDone(h, k, m, arrived);
    if HasParity(k, arrived) {
      FilledCount(h, k, m, arrived);
    }
  }

  lemma ReceiveTracks(g: Group, k: nat, m: nat, arrived: set<nat>, outs: seq<nat>, a: Arrival)
    requires GoodCode(k, m) && Emitted(k, m, a.packet) && Successful(k, m, a.full)
    requires Tracks(g, k, m, arrived, outs)
    ensures Tracks(Receive(g, a.packet, a.shard, a.now, a.full).0, k, m, arrived + {a.packet.index},
                   outs + Out(g, a.packet, a.shard, a.now, a.full))
  {
    var p, more := a.packet, arrived + {a.packet.index};
    if p.index in arrived {
      assert more == arrived;
    } else if Complete(k, arrived) {
      OneMore(k, arrived, p.index);
    } else {
      NewcomerTracks(g, k, m, arrived, outs, a);
    }
  }

  /** A packet that is new to a waiting group. */
  lemma NewcomerTracks(g: Group, k: nat, m: nat, arrived: set<nat>, outs: seq<nat>, a: Arrival)
    requires GoodCode(k, m) && Emitted(k, m, a.packet) && Successful(k, m, a.full)
    requires Tracks(g, k, m, arrived, outs) && a.packet.index !in arrived && !Complete(k, arrived)
    ensures Tracks(Receive(g, a.packet, a.shard, a.now, a.full).0, k, m, arrived + {a.packet.index},
                   outs + Out(g, a.packet, a.shard, a.now, a.full))
  {
    var p, more := a.packet, arrived + {a.packet.index};
    WaitingIsNotDone(g, k, m, arrived);
    StoredWaits(g, k, m, arrived, p, a.shard, a.now);
    var h := Stored(g, p, a.shard, a.now);
    assert Indices(Direct(p)) == if p.parity.None? then [p.index] else [];
    if Complete(k, more) {
      CompleteFinishes(h, k, m, more, p, a.full);
    } else {
      IncompleteWaits(h, k, m, more, p, a.full);
      assert [] + Direct(p) == Direct(p);
    }
  }

  function Arrived(arrivals: seq<Arrival>): set<nat> {
    set a | a in arrivals :: a.packet.index
  }

  lemma {:induction false} RunTracks(k: nat, m: nat, now: nat, arrivals: seq<Arrival>)
    requires GoodCode(k, m)
    requires forall a :: a in arrivals ==> Emitted(k, m, a.packet) && Successful(k, m, a.full)
    ensures Tracks(Run(Fresh(now), arrivals).0, k, m, Arrived(arrivals), Run(Fresh(now), arrivals).1)
  {
    if arrivals == [] {
      assert Arrived(arrivals) == {} && Originals(k, {}) == {};
    } else {
      var front, a := arrivals[..|arrivals| - 1], arrivals[|arrivals| - 1];
      assert arrivals == front + [a];
      RunTracks(k, m, now, front);
      var (g, outs) := Run(Fresh(now), front);
      ReceiveTracks(g, k, m, Arrived(front), outs, a);
      assert Arrived(arrivals) == Arrived(front) + {a.packet.index};
    }
  }

  /** The group is done exactly when a redundancy packet and at least k distinct packets have
      arrived, in whatever order and however often; then each original was handed out exactly once,
      and until then exactly the arrived ones were. */
  lemma AnyKOfNComplete(k: nat, m: nat, now: nat, arrivals: seq<Arrival>)
    requires GoodCode(k, m)
    requires forall a :: a in arrivals ==> Emitted(k, m, a.packet) && Successful(k, m, a.full)
    ensures var (g, outs) := Run(Fresh(now), arrivals);
      && (g.IsDone() <==> Complete(k, Arrived(arrivals)))
      && Distinct(outs)
      && (g.IsDone() ==> |outs| == k && forall i: nat :: i in outs <==> i < k)
      && (!g.IsDone() ==> forall i: nat :: i in outs <==> i < k && i in Arrived(arrivals))
  {
    var (g, outs) := Run(Fresh(now), arrivals);
    RunTracks(k, m, now, arrivals);
    NoIndexTwice(now, arrivals);
    if Complete(k, Arrived(arrivals)) {
      DistinctLength(outs, k);
    } else {
      WaitingIsNotDone(g, k, m, Arrived(arrivals));
    }
  }

  function AsSet(s: seq<nat>): set<nat> {
    set i | i in s
  }

  lemma {:induction false} DistinctSize(s: seq<nat>)
    requires Distinct(s)
    ensures |AsSet(s)| == |s|
  {
    if s != [] {
      var front, last := s[..|s| - 1], s[|s| - 1];
      assert s == front + [last];
      DistinctSize(front);
      assert AsSet(s) == AsSet(front) + {last};
    }
  }

  lemma DistinctLength(s: seq<nat>, k: nat)
    requires Distinct(s) && forall i: nat :: i in s <==> i < k
    ensures |s| == k
  {
    DistinctSize(s);
    assert AsSet(s) == Below(k);
  }
}
