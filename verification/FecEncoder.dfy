/** The sender's batches: each destination's stream is cut into groups of at most ten packets, by
count or by a timeout, and every finished group gets its redundancy packets. */
module FecEncoders {
  import opened Base
  import opened FecGroups
  import opened FecCompletion

  const BATCH_SIZE := 10
  const BATCH_TIMEOUT_MS := 20

  datatype BatchState = BatchState(groupId: nat, batch: seq<Shard>, deadline: nat)

  /** What happened to one destination so far: the packets in order, the finished batches, and the
      (group, index) label each packet was sent under. */
  datatype History = History(packets: seq<Shard>, batches: seq<seq<Shard>>, labels: seq<(nat, nat)>)

  const NO_HISTORY := History([], [], [])

  function Flatten(batches: seq<seq<Shard>>): seq<Shard> {
    if batches == [] then [] else Flatten(batches[..|batches| - 1]) + batches[|batches| - 1]
  }

  /** Labels grow: by index within a group, and from group to group. */
  predicate Before(a: (nat, nat), b: (nat, nat)) {
    a.0 < b.0 || (a.0 == b.0 && a.1 < b.1)
  }

  /** The label names the place of the packet in the batches or in the batch being filled. */
  predicate Places(s: BatchState, h: History, mark: (nat, nat), packet: Shard) {
    if mark.0 < |h.batches| then mark.1 < |h.batches[mark.0]| && h.batches[mark.0][mark.1] == packet
    else mark.0 == s.groupId && mark.1 < |s.batch| && s.batch[mark.1] == packet
  }

  /** A stored packet as `BatchData` writes it: its length bytes tell how much follows. */
  predicate WellFormed(x: Shard) {
    |x| >= 4 && Announced(x) == |x| - 4
  }

  lemma BatchDataIsWellFormed(typeByte: bv8, flags: bv8, payload: Shard)
    requires |payload| <= 0xFFFF
    ensures var x := BatchData(typeByte, flags, payload);
      WellFormed(x) && x[4..] == payload
  {
    var b := LengthBytes(|payload| % 0x1_0000);
    ThreeParts([typeByte, flags], b, payload);
  }

  /** Every place in a batch carries its label. */
  predicate Covered(s: BatchState, h: History) {
    && (forall n: nat, i: nat :: n < |h.batches| && i < |h.batches[n]| ==> (n, i) in h.labels)
    && (forall i: nat :: i < |s.batch| ==> (s.groupId, i) in h.labels)
  }

  /** Finished batches of one to ten packets, then the current one, are all packets in order. */
  predicate InBatches(s: BatchState, h: History) {
    && s.groupId == |h.batches| && |s.batch| <= BATCH_SIZE
    && Flatten(h.batches) + s.batch == h.packets
    && (forall b :: b in h.batches ==> 1 <= |b| <= BATCH_SIZE)
    && (forall x :: x in h.packets ==> WellFormed(x))
  }

  /** Labels never repeat and find their packets; the n-th batch is group n. */
  predicate Labelled(s: BatchState, h: History) {
    && |h.labels| == |h.packets|
    && (forall i, j :: 0 <= i < j < |h.labels| ==> Before(h.labels[i], h.labels[j]))
    && (forall i :: 0 <= i < |h.labels| ==> Places(s, h, h.labels[i], h.packets[i]))
    && (forall i :: 0 <= i < |h.labels| ==> Before(h.labels[i], (s.groupId, |s.batch|)))
  }

  /** The stream is partitioned into batches whose places and labels match one to one. */
  predicate Partitioned(s: BatchState, h: History) {
    InBatches(s, h) && Labelled(s, h) && Covered(s, h)
  }

  function Push(s: BatchState, packet: Shard): BatchState {
    s.(batch := s.batch + [packet])
  }

  function Label(s: BatchState): (nat, nat) {
    (s.groupId, |s.batch|)
  }

  function Sent(s: BatchState, h: History, packet: Shard): History {
    h.(packets := h.packets + [packet], labels := h.labels + [Label(s)])
  }

  function Flushed(s: BatchState, now: nat): BatchState {
    BatchState(s.groupId + 1, [], now + BATCH_TIMEOUT_MS)
  }

  function Finished(s: BatchState, h: History): History {
    h.(batches := h.batches + [s.batch])
  }

  lemma PushKeepsPartition(s: BatchState, h: History, packet: Shard)
    requires Partitioned(s, h) && |s.batch| < BATCH_SIZE && WellFormed(packet)
    ensures Partitioned(Push(s, packet), Sent(s, h, packet))
  {
    assert Flatten(h.batches) + (s.batch + [packet]) == Flatten(h.batches) + s.batch + [packet];
    PushLabels(s, h, packet);
    PushCovers(s, h, packet);
  }

  lemma PushLabels(s: BatchState, h: History, packet: Shard)
    requires InBatches(s, h) && Labelled(s, h)
    ensures Labelled(Push(s, packet), Sent(s, h, packet))
  {
    var s', h' := Push(s, packet), Sent(s, h, packet);
    forall i | 0 <= i < |h'.labels| ensures Places(s', h', h'.labels[i], h'.packets[i]) {
      if i < |h.labels| { assert Places(s, h, h.labels[i], h.packets[i]); }
    }
  }

  lemma PushCovers(s: BatchState, h: History, packet: Shard)
    requires Covered(s, h)
    ensures Covered(Push(s, packet), Sent(s, h, packet))
  {
    assert forall l :: l in h.labels ==> l in Sent(s, h, packet).labels;
  }

  lemma FlushCovers(s: BatchState, h: History, now: nat)
    requires Covered(s, h) && s.groupId == |h.batches|
    ensures Covered(Flushed(s, now), Finished(s, h))
  {
    var b := Finished(s, h).batches;
    forall n: nat, i: nat | n < |b| && i < |b[n]| ensures (n, i) in h.labels {
      if n < |h.batches| { assert b[n] == h.batches[n]; }
    }
  }

  lemma FlushLabels(s: BatchState, h: History, now: nat)
    requires InBatches(s, h) && Labelled(s, h)
    ensures Labelled(Flushed(s, now), Finished(s, h))
  {
    var s', h' := Flushed(s, now), Finished(s, h);
    forall i | 0 <= i < |h'.labels| ensures Places(s', h', h'.labels[i], h'.packets[i]) {
      assert Places(s, h, h.labels[i], h.packets[i]);
    }
  }

  lemma FlushKeepsPartition(s: BatchState, h: History, now: nat)
    requires Partitioned(s, h) && s.batch != []
    ensures Partitioned(Flushed(s, now), Finished(s, h))
  {
    var h' := Finished(s, h);
    assert h'.batches[..|h.batches|] == h.batches;
    assert Flatten(h'.batches) + [] == Flatten(h.batches) + s.batch;
    FlushLabels(s, h, now);
    FlushCovers(s, h, now);
  }

  /** A batch state between two operations: partitioned and not full. */
  predicate Settled(s: BatchState, h: History) {
    Partitioned(s, h) && |s.batch| < BATCH_SIZE
  }

  predicate AllSettled(states: map<Ip, BatchState>, histories: map<Ip, History>) {
    && states.Keys == histories.Keys
    && forall dest :: dest in states ==> Settled(states[dest], histories[dest])
  }

  lemma SettleOne(states: map<Ip, BatchState>, histories: map<Ip, History>, dest: Ip, s: BatchState, h: History)
    requires AllSettled(states, histories) && Settled(s, h)
    ensures AllSettled(states[dest := s], histories[dest := h])
  {
  }

  /** Adding one packet, and finishing the batch if that was its tenth. */
  function Added(s: BatchState, packet: Shard, now: nat): BatchState {
    if |s.batch| + 1 >= BATCH_SIZE then Flushed(Push(s, packet), now) else Push(s, packet)
  }

  function AddedHistory(s: BatchState, h: History, packet: Shard): History {
    if |s.batch| + 1 >= BATCH_SIZE then Finished(Push(s, packet), Sent(s, h, packet)) else Sent(s, h, packet)
  }

  lemma AddingSettles(s: BatchState, h: History, packet: Shard, now: nat)
    requires Settled(s, h) && WellFormed(packet)
    ensures Settled(Added(s, packet, now), AddedHistory(s, h, packet))
  {
    PushKeepsPartition(s, h, packet);
    if |s.batch| + 1 >= BATCH_SIZE {
      FlushKeepsPartition(Push(s, packet), Sent(s, h, packet), now);
    }
  }

  lemma FlushingSettles(s: BatchState, h: History, now: nat)
    requires Settled(s, h) && s.batch != []
    ensures Settled(Flushed(s, now), Finished(s, h))
  {
    FlushKeepsPartition(s, h, now);
  }

  /** The first packet behind a finished batch waits at most 20 milliseconds from then on: its batch is
      overdue at that time and not before; an empty batch never is. */
  lemma OverdueIff(s: BatchState, packet: Shard, now: nat, later: nat)
    ensures Overdue(Push(Flushed(s, now), packet), later) <==> later >= now + 20
    ensures !Overdue(Flushed(s, now), later)
  {
  }

  // ----- redundancy packets

  /** A fifth of the originals, rounded up, at least one. */
  function ParityCount(k: nat): (m: nat)
    ensures m >= 1
    ensures k > 0 ==> (m - 1) as real < 0.2 * k as real <= m as real
  {
    if k == 0 then 1 else (k + 4) / 5
  }

  /** Reed-Solomon encoding as a function of the padded shards and the number of redundancy shards. */
  type Coder = (seq<Shard>, nat) -> seq<Shard>

  /** A coder returns as many shards as asked for. */
  ghost predicate Codes(rs: Coder) {
    forall items, m :: |rs(items, m)| == m
  }

  /** The length of the longest shard. */
  function Longest(items: seq<Shard>): (len: nat)
    ensures forall x :: x in items ==> |x| <= len
    ensures items != [] ==> exists x :: x in items && |x| == len
  {
    if items == [] then 0 else
    var front, last := Longest(items[..|items| - 1]), items[|items| - 1];
    assert items == items[..|items| - 1] + [last];
    if |last| > front then |last| else front
  }

  function Padded(x: Shard, len: nat): Shard {
    if |x| < len then x + seq(len - |x|, _ => 0) else x
  }

  function PaddedTo(items: seq<Shard>, len: nat): (r: seq<Shard>)
    ensures |r| == |items| && forall i :: 0 <= i < |r| ==> r[i] == Padded(items[i], len)
  {
    seq(|items|, i requires 0 <= i < |items| => Padded(items[i], len))
  }

  /** Every shard is brought to the length of the longest, with zeros behind its own bytes. */
  lemma PaddingFillsWithZeros(items: seq<Shard>, i: nat)
    requires i < |items|
    ensures var x := PaddedTo(items, Longest(items))[i];
      && |x| == Longest(items) && items[i] <= x
      && forall j :: |items[i]| <= j < |x| ==> x[j] == 0
  {
    assert items[i] in items;
    PaddedWithZeros(items[i], Longest(items));
  }

  lemma PaddedWithZeros(x: Shard, len: nat)
    requires |x| <= len
    ensures var y := Padded(x, len);
      |y| == len && x <= y && forall j :: |x| <= j < len ==> y[j] == 0
  {
  }

  /** The labels of the redundancy packets: the indices after the originals, and both counts. */
  function LabelledRows(k: nat, rows: seq<Shard>): (r: seq<FecPacket>)
    ensures |r| == |rows|
    ensures forall i :: 0 <= i < |r| ==> r[i] == FecPacket(k + i, rows[i], Some(Parity(k, |rows|)))
  {
    seq(|rows|, i requires 0 <= i < |rows| => FecPacket(k + i, rows[i], Some(Parity(k, |rows|))))
  }

  /** The redundancy packets of one batch: all shards are padded to the longest and coded together. */
  function ParityPackets(items: seq<Shard>, rs: Coder): seq<FecPacket> {
    if Longest(items) == 0 then []
    else LabelledRows(|items|, rs(PaddedTo(items, Longest(items)), ParityCount(|items|)))
  }

  method LongestOf(items: seq<Shard>) returns (len: nat)
    ensures len == Longest(items)
  {
    len := 0;
    for i := 0 to |items|
      invariant len == Longest(items[..i])
    {
      assert items[..i + 1][..i] == items[..i];
      if |items[i]| > len { len := |items[i]|; }
    }
    assert items[..|items|] == items;
  }

  method PadAll(items: seq<Shard>, len: nat) returns (shards: seq<Shard>)
    ensures shards == PaddedTo(items, len)
  {
    shards := [];
    for i := 0 to |items|
      invariant |shards| == i && forall j :: 0 <= j < i ==> shards[j] == Padded(items[j], len)
    {
      var x := items[i];
      if |x| < len { x := x + seq(len - |x|, _ => 0); }
      shards := shards + [x];
    }
  }

  method LabelRows(k: nat, rows: seq<Shard>) returns (packets: seq<FecPacket>)
    ensures packets == LabelledRows(k, rows)
  {
    packets := [];
    for i := 0 to |rows|
      invariant |packets| == i && forall j :: 0 <= j < i ==> packets[j] == LabelledRows(k, rows)[j]
    {
      packets := packets + [FecPacket(k + i, rows[i], Some(Parity(k, |rows|)))];
    }
  }

  /** Pads the shards, then labels what the coder makes of them. */
  method EncodeParity(items: seq<Shard>, rs: Coder) returns (packets: seq<FecPacket>)
    ensures packets == ParityPackets(items, rs)
  {
    var len := LongestOf(items);
    if len == 0 { return []; }
    var shards := PadAll(items, len);
    packets := LabelRows(|items|, rs(shards, ParityCount(|items|)));
  }

  /** Every packet of a batch, original or redundant, is one a decoder waits for: its counts and
      indices pass all range checks, and a waiting group refuses none of them. */
  lemma BatchPassesChecks(k: nat, p: FecPacket)
    requires 1 <= k <= BATCH_SIZE && Emitted(k, ParityCount(k), p)
    ensures GoodCode(k, ParityCount(k)) && p.index <= MAX_NUM
    ensures forall g: Group, arrived :: Waiting(g, k, ParityCount(k), arrived) ==> !Refused(g, p)
  {
  }

  // ----- the encoder

  datatype EncodeError = PayloadTooBig

  class FecEncoder {
    var states: map<Ip, BatchState>
    ghost var histories: map<Ip, History>

    ghost predicate Valid()
      reads this
    {
      AllSettled(states, histories)
    }

    function StateOf(dest: Ip, now: nat): BatchState
      reads this
    {
      if dest in states then states[dest] else BatchState(0, [], now + BATCH_TIMEOUT_MS)
    }

    ghost function HistoryOf(dest: Ip): History
      reads this
    {
      if dest in histories then histories[dest] else NO_HISTORY
    }

    constructor ()
      ensures Valid() && states == map[] && histories == map[]
    {
      states, histories := map[], map[];
    }

    /** The first packet to a destination opens its group 0 and waits at most 20 milliseconds. */
    lemma FirstPacketState(dest: Ip, packet: Shard, now: nat, later: nat)
      requires dest !in states
      ensures var s := Push(StateOf(dest, now), packet);
        s.groupId == 0 && s.batch == [packet] && (Overdue(s, later) <==> later >= now + 20)
    {
    }

    /** Adds a packet to its destination's batch and labels it; the tenth packet finishes the batch,
        which goes to the redundancy worker if its queue has room. */
    method Encode(dest: Ip, typeByte: bv8, flags: bv8, payload: Shard, now: nat, room: bool)
      returns (r: Result<(nat, FecPacket), EncodeError>, finished: Option<(nat, seq<Shard>)>)
      requires Valid()
      modifies this
      ensures Valid()
      ensures r.Err? <==> |payload| > 0xFFFF
      ensures r.Err? ==> states == old(states) && histories == old(histories) && finished.None?
      ensures r.Ok? ==>
        var s, h, packet := old(StateOf(dest, now)), old(HistoryOf(dest)), BatchData(typeByte, flags, payload);
        && states == old(states)[dest := Added(s, packet, now)]
        && histories == old(histories)[dest := AddedHistory(s, h, packet)]
        && r.value == (s.groupId, FecPacket(|s.batch|, payload, None))
        && finished == if room && |s.batch| == BATCH_SIZE - 1 then Some((s.groupId, s.batch + [packet])) else None
    {
      finished := None;
      if |payload| > 0xFFFF { return Err(PayloadTooBig), None; }
      var packet := BatchData(typeByte, flags, payload);
      BatchDataIsWellFormed(typeByte, flags, payload);
      var s := StateOf(dest, now);
      ghost var h := HistoryOf(dest);
      assert Settled(s, h);
      AddingSettles(s, h, packet, now);
      SettleOne(states, histories, dest, Added(s, packet, now), AddedHistory(s, h, packet));
      r := Ok((s.groupId, FecPacket(|s.batch|, payload, None)));
      histories := histories[dest := AddedHistory(s, h, packet)];
      var full := Push(s, packet);
      if |full.batch| >= BATCH_SIZE {
        if room { finished := Some((full.groupId, full.batch)); }
        full := Flushed(full, now);
      }
      states := states[dest := full];
    }

    /** Finishes every non-empty batch whose deadline has passed. */
    method FlushTimeouts(now: nat) returns (finished: map<Ip, (nat, seq<Shard>)>)
      requires Valid()
      modifies this
      ensures Valid()
      ensures FlushedExcept({}, now, old(states), old(histories), states, histories, finished)
    {
      finished := FlushEach(now);
      AllFlushedSettled(old(states), old(histories), states, histories, finished, now);
    }

    method FlushEach(now: nat) returns (finished: map<Ip, (nat, seq<Shard>)>)
      requires states.Keys == histories.Keys
      modifies this
      ensures FlushedExcept({}, now, old(states), old(histories), states, histories, finished)
    {
      finished := map[];
      var rest := states.Keys;
      ghost var states0, histories0 := states, histories;
      while rest != {}
        invariant FlushedExcept(rest, now, states0, histories0, states, histories, finished)
        decreases |rest|
      {
        var dest :| dest in rest;
        ghost var before, historiesBefore, finishedBefore := states, histories, finished;
        var s := states[dest];
        if Overdue(s, now) {
          finished := finished[dest := (s.groupId, s.batch)];
          histories := histories[dest := Finished(s, histories[dest])];
          states := states[dest := Flushed(s, now)];
        }
        FlushOneMore(rest, dest, now, states0, histories0, before, historiesBefore, finishedBefore,
                     states, histories, finished);
        rest := rest - {dest};
      }
    }
  }

  /** Outside `rest`, exactly the overdue batches are finished and handed over under their group;
      inside, nothing has changed yet. */
  predicate FlushedExcept(rest: set<Ip>, now: nat, states: map<Ip, BatchState>, histories: map<Ip, History>,
                          states': map<Ip, BatchState>, histories': map<Ip, History>,
                          finished: map<Ip, (nat, seq<Shard>)>)
  {
    && states'.Keys == states.Keys && histories'.Keys == histories.Keys == states.Keys
    && rest <= states.Keys && finished.Keys <= states.Keys
    && forall dest :: dest in states ==>
         if dest !in rest && Overdue(states[dest], now) then
           && states'[dest] == Flushed(states[dest], now)
           && histories'[dest] == Finished(states[dest], histories[dest])
           && dest in finished && finished[dest] == (states[dest].groupId, states[dest].batch)
         else states'[dest] == states[dest] && histories'[dest] == histories[dest] && dest !in finished
  }

  lemma FlushOneMore(rest: set<Ip>, dest: Ip, now: nat, states0: map<Ip, BatchState>, histories0: map<Ip, History>,
                     a: map<Ip, BatchState>, h: map<Ip, History>, f: map<Ip, (nat, seq<Shard>)>,
                     a': map<Ip, BatchState>, h': map<Ip, History>, f': map<Ip, (nat, seq<Shard>)>)
    requires FlushedExcept(rest, now, states0, histories0, a, h, f) && dest in rest
    requires if Overdue(a[dest], now)
             then f' == f[dest := (a[dest].groupId, a[dest].batch)] && h' == h[dest := Finished(a[dest], h[dest])]
                  && a' == a[dest := Flushed(a[dest], now)]
             else f' == f && h' == h && a' == a
    ensures FlushedExcept(rest - {dest}, now, states0, histories0, a', h', f')
  {
  }

  lemma AllFlushedSettled(states: map<Ip, BatchState>, histories: map<Ip, History>,
                          states': map<Ip, BatchState>, histories': map<Ip, History>,
                          finished: map<Ip, (nat, seq<Shard>)>, now: nat)
    requires AllSettled(states, histories)
    requires FlushedExcept({}, now, states, histories, states', histories', finished)
    ensures AllSettled(states', histories')
  {
    forall dest | dest in states ensures Settled(states'[dest], histories'[dest]) {
      if Overdue(states[dest], now) { FlushingSettles(states[dest], histories[dest], now); }
    }
  }

  predicate Overdue(s: BatchState, now: nat) {
    s.batch != [] && now >= s.deadline
  }
}
