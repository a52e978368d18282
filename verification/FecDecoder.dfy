/** The receiver's groups, kept by sender and group number and updated packet by packet. */
module FecDecoders {
  import opened Base
  import opened FecGroups

  type Key = (Ip, nat)

  const GROUP_TIMEOUT_MS := 3000
  const CLEANUP_INTERVAL_MS := 1000
  const MAX_GROUPS := 1000

  /** The form in which a packet is stored for reconstruction. */
  function ShardOf(p: FecPacket, typeByte: bv8, flags: bv8): Shard {
    if p.parity.Some? then p.payload else BatchData(typeByte, flags, p.payload)
  }

  predicate Timely(g: Group, now: int) {
    now - g.lastUpdate < GROUP_TIMEOUT_MS
  }

  function TimelyGroups(groups: map<Key, Group>, now: int): map<Key, Group> {
    map k | k in groups && Timely(groups[k], now) :: groups[k]
  }

  /** `after` keeps the timely groups of `before`, at most the allowed number, the latest ones. */
  predicate CleanedUp(before: map<Key, Group>, after: map<Key, Group>, now: int) {
    var timely := TimelyGroups(before, now);
    && (forall k :: k in after ==> k in timely && after[k] == timely[k])
    && |after| == (if |timely| <= MAX_GROUPS then |timely| else MAX_GROUPS)
    && (forall k, j :: k in timely && k !in after && j in after ==> timely[k].lastUpdate <= after[j].lastUpdate)
  }

  /** The packet brings the group a new shard. */
  predicate Accepted(g: Group, p: FecPacket) {
    !g.IsDone() && !g.Filled(p.index) && !Refused(g, p)
  }

  /** A packet that brings a new shard marks its group as refreshed at that time, whatever comes of it. */
  lemma AcceptedRefreshes(g: Group, p: FecPacket, shard: Shard, now: nat, full: Option<seq<Shard>>)
    requires Accepted(g, p)
    ensures FecGroups.Receive(g, p, shard, now, full).0.lastUpdate == now
  {
  }

  /** A packet that brings nothing new leaves its group as it was. */
  lemma DuplicateLeavesAlone(g: Group, p: FecPacket, shard: Shard, now: nat, full: Option<seq<Shard>>)
    requires !Accepted(g, p)
    ensures FecGroups.Receive(g, p, shard, now, full).0 == g
  {
  }

  /** A group that was opened but not filled yet is given the same three seconds. */
  lemma FreshIsTimely(now: nat, later: nat)
    ensures Timely(Fresh(now), later) <==> later < now + 3000
  {
  }

  /** After a packet that brought a new shard its group survives every clean-up less than three seconds
      later, unless a thousand groups refreshed no earlier are kept in its stead; a clean-up three
      seconds later or more drops it if nothing came in between. */
  lemma AcceptedSurvives(before: map<Key, Group>, after: map<Key, Group>, k: Key, g: Group, p: FecPacket,
                         shard: Shard, now: nat, full: Option<seq<Shard>>, later: nat)
    requires Accepted(g, p) && k in before && before[k] == FecGroups.Receive(g, p, shard, now, full).0
    requires CleanedUp(before, after, later)
    ensures later < now + 3000 ==>
      || (k in after && after[k] == before[k])
      || (|after| == 1000 && forall j :: j in after ==> after[j].lastUpdate >= now)
    ensures later >= now + 3000 ==> k !in after
    ensures |before| <= 1000 ==> (k in after <==> later < now + 3000)
  {
    AcceptedRefreshes(g, p, shard, now, full);
    var timely := TimelyGroups(before, later);
    if later < now + 3000 && k !in after {
      assert k in timely;
      if |timely| <= MAX_GROUPS {
        SubsetSize(after.Keys, timely.Keys);
        assert false;
      }
    }
    SubsetSize(timely.Keys, before.Keys);
  }

  class FecDecoder {
    var groups: map<Key, Group>
    var lastCleanup: nat

    function GroupAt(k: Key, now: nat): Group
      reads this
    {
      if k in groups then groups[k] else Fresh(now)
    }

    constructor (now: nat)
      ensures groups == map[]
    {
      groups, lastCleanup := map[], now;
    }

    /** Receives one packet.  An index above the limit is refused before the group is looked up; any
        other packet acts on its own group as `FecGroups.Receive` does, and other groups are untouched
        unless a new shard came more than a second after the last clean-up. */
    method Receive(src: Ip, groupId: nat, p: FecPacket, typeByte: bv8, flags: bv8, now: nat, full: Option<seq<Shard>>)
      returns (r: Result<seq<Delivery>, FecError>)
      modifies this
      ensures p.index > MAX_NUM ==> r == Err(IndexOverflow) && groups == old(groups) && lastCleanup == old(lastCleanup)
      ensures p.index <= MAX_NUM ==>
        var before := if (src, groupId) in old(groups) then old(groups)[(src, groupId)] else Fresh(now);
        var shard := if p.parity.Some? then p.payload else BatchData(typeByte, flags, p.payload);
        var (g, out) := FecGroups.Receive(before, p, shard, now, full);
        && r == out
        && if Accepted(before, p) && r.Ok? && now - old(lastCleanup) > CLEANUP_INTERVAL_MS
           then CleanedUp(old(groups)[(src, groupId) := g], groups, now) && lastCleanup == now
           else groups == old(groups)[(src, groupId) := g] && lastCleanup == old(lastCleanup)
    {
      if p.index > MAX_NUM { return Err(IndexOverflow); }
      var key := (src, groupId);
      var g, stored := GroupAt(key, now), false;
      g, r, stored := ReceiveStep(g, p, ShardOf(p, typeByte, flags), now, full);
      groups := groups[key := g];
      if stored && r.Ok? && now - lastCleanup > CLEANUP_INTERVAL_MS {
        CleanupOldGroups(now);
        lastCleanup := now;
      }
    }

    /** Drops what is too old, then the oldest of the rest while there are too many. */
    method CleanupOldGroups(now: nat)
      modifies this`groups
      ensures CleanedUp(old(groups), groups, now)
    {
      var timely := TimelyGroups(groups, now);
      groups := timely;
      while |groups| > MAX_GROUPS
        invariant forall k :: k in groups ==> k in timely && groups[k] == timely[k]
        invariant |groups| <= |timely| && (|timely| <= MAX_GROUPS ==> groups == timely)
        invariant |timely| > MAX_GROUPS ==> |groups| >= MAX_GROUPS
        invariant forall k, j :: k in timely && k !in groups && j in groups ==>
          timely[k].lastUpdate <= groups[j].lastUpdate
      {
        var oldest := Oldest();
        var rest := groups - {oldest};
        assert groups == rest[oldest := groups[oldest]];
        groups := rest;
      }
    }

    method Oldest() returns (oldest: Key)
      requires |groups| > 0
      ensures oldest in groups && forall k :: k in groups ==> groups[oldest].lastUpdate <= groups[k].lastUpdate
    {
      var rest := groups.Keys;
      assert rest != {};
      oldest :| oldest in rest;
      while rest != {}
        invariant rest <= groups.Keys && oldest in groups
        invariant forall k :: k in groups && k !in rest ==> groups[oldest].lastUpdate <= groups[k].lastUpdate
        decreases |rest|
      {
        var k :| k in rest;
        rest := rest - {k};
        if groups[k].lastUpdate < groups[oldest].lastUpdate {
          oldest := k;
        }
      }
    }
  }

  /** The work on one group; `stored` tells a new shard from a duplicate. */
  method ReceiveStep(g0: Group, p: FecPacket, shard: Shard, now: nat, full: Option<seq<Shard>>)
    returns (g: Group, r: Result<seq<Delivery>, FecError>, stored: bool)
    ensures (g, r) == FecGroups.Receive(g0, p, shard, now, full)
    ensures stored <==> Accepted(g0, p)
  {
    g, r, stored := g0, Ok([]), false;
    if g.IsDone() || g.Filled(p.index) { return; }
    match p.parity {
      case Some(q) =>
        var objection := Objection(g, p.index, q);
        if objection.Some? {
          r := Err(objection.value);
          return;
        }
        g := g.(data := q.data, parity := q.parity, slots := Resized(g.slots, q.data + q.parity));
      case None =>
        g := g.(slots := Resized(g.slots, p.index + 1), originals := g.originals + 1);
    }
    g := g.(slots := g.slots[p.index := Some(shard)], lastUpdate := now);
    stored := true;
    if g.IsDone() {
      g, r := Done(g), Ok(Direct(p));
    } else {
      g, r := TryDecodeStep(g, full);
      if r.Ok? {
        r := Ok(r.value + Direct(p));
      }
    }
  }

  method TryDecodeStep(g: Group, full: Option<seq<Shard>>) returns (g': Group, r: Result<seq<Delivery>, FecError>)
    ensures (g', r) == TryDecode(g, full)
  {
    if g.data == 0 || g.originals == g.data { return g, Ok([]); }
    var received := 0;
    for i := 0 to |g.slots|
      invariant received == CountFilled(g.slots[..i])
    {
      assert g.slots[..i + 1][..i] == g.slots[..i];
      if g.slots[i].Some? { received := received + 1; }
    }
    assert g.slots[..|g.slots|] == g.slots;
    if received < g.data { return g, Ok([]); }
    g', r := DecodeStep(g, full);
  }

  method DecodeStep(g: Group, full: Option<seq<Shard>>) returns (g': Group, r: Result<seq<Delivery>, FecError>)
    ensures (g', r) == DecodeWithRs(g, full)
  {
    if |g.slots| != g.data + g.parity { return g, Err(WrongLength); }
    if g.data == 0 || g.parity == 0 || full.None? || |full.value| != |g.slots| { return g, Err(DecodeFailed); }
    var result := RebuildMissing(g, full.value);
    match result {
      case None =>
        return g.(slots := seq(|g.slots|, i requires 0 <= i < |full.value| => Some(full.value[i]))), Err(BadShard);
      case Some(ds) => return Done(g), Ok(ds);
    }
  }

  /** Rebuilds the missing originals one by one; the first unreadable shard stops it. */
  method RebuildMissing(g: Group, full: seq<Shard>) returns (r: Option<seq<Delivery>>)
    requires g.data <= |full|
    ensures r == RebuiltAll(full, Missing(g, g.data))
  {
    var result: seq<Delivery> := [];
    for i := 0 to g.data
      invariant RebuiltAll(full, Missing(g, i)) == Some(result)
    {
      RebuildNext(g, full, i);
      if !g.Filled(i) {
        var rebuilt := Rebuilt(full[i]);
        if rebuilt.None? {
          MissingStaysUnreadable(g, full, i + 1, g.data);
          return None;
        }
        result := result + [Delivery(i, Some((full[i][0], full[i][1])), rebuilt.value)];
      }
    }
    return Some(result);
  }

  /** Rebuilding the missing originals below i + 1 from rebuilding those below i. */
  lemma RebuildNext(g: Group, full: seq<Shard>, i: nat)
    ensures var front, next := RebuiltAll(full, Missing(g, i)), RebuiltAll(full, Missing(g, i + 1));
      next == if g.Filled(i) then front
              else if front.None? || i >= |full| || Rebuilt(full[i]).None? then None
              else Some(front.value + [Restored(i, full[i])])
  {
    var missing := Missing(g, i);
    if g.Filled(i) {
      assert Missing(g, i + 1) == missing;
    } else {
      assert (missing + [i])[..|missing|] == missing;
    }
  }

  lemma {:induction false} MissingStaysUnreadable(g: Group, full: seq<Shard>, i: nat, n: nat)
    requires i <= n && RebuiltAll(full, Missing(g, i)).None?
    ensures RebuiltAll(full, Missing(g, n)).None?
    decreases n - i
  {
    if i < n {
      RebuildNext(g, full, i);
      MissingStaysUnreadable(g, full, i + 1, n);
    }
  }
}
