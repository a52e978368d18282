/** One batch from the sender's encoder to the receiver's group: what the encoder labelled and coded
is what the receiver hands out. */
module FecTransfers {
  import opened Base
  import opened FecGroups
  import opened FecCompletion
  import opened FecEncoders

  // ----- what the sender emits

  /** The payload of a packet as it is stored. */
  function Content(x: Shard): Shard {
    if |x| >= 4 then x[4..] else []
  }

  /** The j-th packet given to the encoder bore this label and content. */
  predicate GivenAs(h: History, j: nat, mark: (nat, nat), payload: Shard) {
    j < |h.labels| == |h.packets| && h.labels[j] == mark && Content(h.packets[j]) == payload
  }

  /** The encoder was given this content under this label. */
  predicate Given(h: History, mark: (nat, nat), payload: Shard) {
    exists j :: 0 <= j < |h.labels| && GivenAs(h, j, mark, payload)
  }

  /** The packets of group n: each original under its label, and the redundancy packets of the batch. */
  predicate SentFor(h: History, rs: Coder, n: nat, p: FecPacket)
    requires n < |h.batches|
  {
    if p.parity.None? then Given(h, (n, p.index), p.payload) else p in ParityPackets(h.batches[n], rs)
  }

  /** Labels and places match: the content given under a label is that at its place in the batch. */
  lemma GivenIff(s: BatchState, h: History, n: nat, i: nat, payload: Shard)
    requires Partitioned(s, h) && n < |h.batches|
    ensures Given(h, (n, i), payload) <==> i < |h.batches[n]| && Content(h.batches[n][i]) == payload
  {
    if Given(h, (n, i), payload) {
      var j :| 0 <= j < |h.labels| && GivenAs(h, j, (n, i), payload);
      assert Places(s, h, h.labels[j], h.packets[j]);
    }
    if i < |h.batches[n]| && Content(h.batches[n][i]) == payload {
      assert (n, i) in h.labels;
      var j :| 0 <= j < |h.labels| && h.labels[j] == (n, i);
      assert Places(s, h, h.labels[j], h.packets[j]);
      assert GivenAs(h, j, (n, i), payload);
    }
  }

  /** Encoding a packet gives it its content under its label, for good. */
  lemma EncodedIsGiven(s: BatchState, h: History, typeByte: bv8, flags: bv8, payload: Shard)
    requires Partitioned(s, h) && |payload| <= 0xFFFF
    ensures var h' := AddedHistory(s, h, BatchData(typeByte, flags, payload));
      && Given(h', Label(s), payload)
      && forall mark, x :: Given(h, mark, x) ==> Given(h', mark, x)
  {
    var h', n := AddedHistory(s, h, BatchData(typeByte, flags, payload)), |h.labels|;
    BatchDataIsWellFormed(typeByte, flags, payload);
    assert GivenAs(h', n, Label(s), payload);
    GivenStays(h, h');
  }

  lemma GivenStays(h: History, h': History)
    requires |h.labels| == |h.packets| && |h'.labels| == |h'.packets|
    requires h.labels <= h'.labels && h.packets <= h'.packets
    ensures forall mark, x :: Given(h, mark, x) ==> Given(h', mark, x)
  {
    forall mark, x | Given(h, mark, x) ensures Given(h', mark, x) {
      var j :| 0 <= j < |h.labels| && GivenAs(h, j, mark, x);
      assert GivenAs(h', j, mark, x);
    }
  }

  /** What the sender emits for a batch is what the receiver takes for a well-formed group. */
  lemma SentIsEmitted(s: BatchState, h: History, rs: Coder, n: nat, p: FecPacket)
    requires Partitioned(s, h) && Codes(rs) && n < |h.batches| && SentFor(h, rs, n, p)
    ensures Emitted(|h.batches[n]|, ParityCount(|h.batches[n]|), p)
  {
    if p.parity.None? {
      GivenIff(s, h, n, p.index, p.payload);
    } else {
      var rows := rs(PaddedTo(h.batches[n], Longest(h.batches[n])), ParityCount(|h.batches[n]|));
      var i :| 0 <= i < |rows| && LabelledRows(|h.batches[n]|, rows)[i] == p;
    }
  }

  // ----- what the receiver rebuilds

  predicate SameButFlags(a: Shard, b: Shard) {
    |a| == |b| && forall j :: 0 <= j < |a| && j != 1 ==> a[j] == b[j]
  }

  /** A reconstruction that yields the sender's padded shards except for the flags byte, which the
      receiver stored differently; each byte column is coded for itself. */
  predicate Faithful(items: seq<Shard>, full: Option<seq<Shard>>) {
    && full.Some? && |full.value| == |items| + ParityCount(|items|)
    && forall i :: 0 <= i < |items| ==> SameButFlags(full.value[i], Padded(items[i], Longest(items)))
  }

  lemma PaddingIsIgnored(x: Shard, a: Shard, len: nat)
    requires WellFormed(x) && |x| <= len && SameButFlags(a, Padded(x, len))
    ensures Rebuilt(a) == Some(Content(x)) && a[0] == x[0]
  {
    var y := Padded(x, len);
    assert forall j :: 0 <= j < |x| ==> y[j] == x[j];
    SameAnnouncement(a, x);
    assert a[4..|x|] == x[4..];
  }

  lemma SameAnnouncement(a: Shard, x: Shard)
    requires |a| >= 4 && |x| >= 4 && a[2] == x[2] && a[3] == x[3]
    ensures Announced(a) == Announced(x)
  {
  }

  lemma FaithfulShard(items: seq<Shard>, full: Option<seq<Shard>>, i: nat)
    requires Faithful(items, full) && i < |items| && WellFormed(items[i])
    ensures Rebuilt(full.value[i]) == Some(Content(items[i])) && full.value[i][0] == items[i][0]
  {
    assert items[i] in items;
    PaddingIsIgnored(items[i], full.value[i], Longest(items));
  }

  lemma FaithfulIsSuccessful(items: seq<Shard>, full: Option<seq<Shard>>)
    requires Faithful(items, full) && forall x :: x in items ==> WellFormed(x)
    ensures Successful(|items|, ParityCount(|items|), full)
  {
    forall i | 0 <= i < |items| ensures Rebuilt(full.value[i]).Some? {
      assert items[i] in items;
      FaithfulShard(items, full, i);
    }
  }

  // ----- what is handed out

  /** What one arrival hands out. */
  function HandedBy(g: Group, a: Arrival): seq<Delivery> {
    var r := Receive(g, a.packet, a.shard, a.now, a.full).1;
    if r.Ok? then r.value else []
  }

  /** Everything a run hands out, with contents. */
  function HandedOver(g: Group, arrivals: seq<Arrival>): seq<Delivery> {
    if arrivals == [] then [] else
    var front, last := arrivals[..|arrivals| - 1], arrivals[|arrivals| - 1];
    HandedOver(g, front) + HandedBy(Run(g, front).0, last)
  }

  lemma HandedByIndices(g: Group, a: Arrival)
    ensures Indices(HandedBy(g, a)) == Out(g, a.packet, a.shard, a.now, a.full)
  {
  }

  lemma IndicesConcat(a: seq<Delivery>, b: seq<Delivery>)
    ensures Indices(a + b) == Indices(a) + Indices(b)
  {
  }

  lemma {:induction false} HandedOverIndices(g: Group, arrivals: seq<Arrival>)
    ensures Indices(HandedOver(g, arrivals)) == Run(g, arrivals).1
  {
    if arrivals != [] {
      var front, last := arrivals[..|arrivals| - 1], arrivals[|arrivals| - 1];
      var h := Run(g, front).0;
      HandedOverIndices(g, front);
      HandedByIndices(h, last);
      IndicesConcat(HandedOver(g, front), HandedBy(h, last));
      assert HandedOver(g, arrivals) == HandedOver(g, front) + HandedBy(h, last);
      assert Run(g, arrivals).1 == Run(g, front).1 + Out(h, last.packet, last.shard, last.now, last.full);
    }
  }

  predicate RestoredFrom(d: Delivery, full: seq<Shard>) {
    d.index < |full| && Rebuilt(full[d.index]).Some? && d == Restored(d.index, full[d.index])
  }

  /** A delivery is the arrived original or a readable shard of the reconstruction. */
  predicate Sourced(d: Delivery, a: Arrival) {
    || (a.packet.parity.None? && d == Delivery(a.packet.index, None, a.packet.payload))
    || (a.full.Some? && RestoredFrom(d, a.full.value))
  }

  lemma RebuiltFrom(full: seq<Shard>, missing: seq<nat>, d: Delivery)
    requires RebuiltAll(full, missing).Some? && d in RebuiltAll(full, missing).value
    ensures RestoredFrom(d, full)
  {
    RebuiltAllAt(full, missing);
    var k :| 0 <= k < |missing| && RebuiltAll(full, missing).value[k] == d;
  }

  lemma HandedIsSourced(g: Group, a: Arrival, d: Delivery)
    requires d in HandedBy(g, a)
    ensures Sourced(d, a)
  {
    var h := Stored(g, a.packet, a.shard, a.now);
    if d !in Direct(a.packet) {
      var r := TryDecode(h, a.full).1;
      assert d in r.value;
      RebuiltFrom(a.full.value, Missing(h, h.data), d);
    }
  }

  lemma LastHands(g: Group, arrivals: seq<Arrival>, d: Delivery)
    requires arrivals != [] && d in HandedOver(g, arrivals)
    ensures d in HandedOver(g, arrivals[..|arrivals| - 1]) || Sourced(d, arrivals[|arrivals| - 1])
  {
    var front, last := arrivals[..|arrivals| - 1], arrivals[|arrivals| - 1];
    var h := Run(g, front).0;
    assert HandedOver(g, arrivals) == HandedOver(g, front) + HandedBy(h, last);
    if d in HandedBy(h, last) {
      HandedIsSourced(h, last, d);
    }
  }

  lemma {:induction false} EveryDeliveryIsSourced(g: Group, arrivals: seq<Arrival>, d: Delivery) returns (i: nat)
    requires d in HandedOver(g, arrivals)
    ensures i < |arrivals| && Sourced(d, arrivals[i])
    decreases |arrivals|
  {
    i := |arrivals| - 1;
    LastHands(g, arrivals, d);
    if !Sourced(d, arrivals[i]) {
      i := EveryDeliveryIsSourced(g, arrivals[..i], d);
    }
  }

  predicate TypeKept(items: seq<Shard>, d: Delivery) {
    d.header.Some? ==> d.index < |items| && |items[d.index]| > 0 && d.header.value.0 == items[d.index][0]
  }

  /** From sender to receiver: of any batch the encoder finished, whatever part of its packets
      arrives, in any order and with duplicates, the receiver is done exactly when a redundancy
      packet and at least as many distinct packets as the batch has originals are there.  Until then
      it hands out exactly the arrived originals, by then each of the batch, none twice, and each
      under its label with the very content that the encoder was given under it, a rebuilt one with
      its type byte too. */
  lemma BatchReachesReceiver(s: BatchState, h: History, rs: Coder, n: nat, now: nat, arrivals: seq<Arrival>)
    requires Partitioned(s, h) && Codes(rs) && n < |h.batches|
    requires forall a :: a in arrivals ==> SentFor(h, rs, n, a.packet) && Faithful(h.batches[n], a.full)
    ensures var k, g, ds := |h.batches[n]|, Run(Fresh(now), arrivals).0, HandedOver(Fresh(now), arrivals);
      && (g.IsDone() <==> Complete(k, Arrived(arrivals)))
      && Distinct(Indices(ds)) && (g.IsDone() ==> |ds| == k)
      && (!g.IsDone() ==> forall i: nat :: i in Indices(ds) <==> i < k && i in Arrived(arrivals))
      && (forall d :: d in ds ==> Given(h, (n, d.index), d.payload) && TypeKept(h.batches[n], d))
  {
    var items := h.batches[n];
    assert items in h.batches;
    BatchIsWellFormed(s, h, n);
    forall a | a in arrivals
      ensures Emitted(|items|, ParityCount(|items|), a.packet) && Successful(|items|, ParityCount(|items|), a.full)
    {
      SentIsEmitted(s, h, rs, n, a.packet);
      FaithfulIsSuccessful(items, a.full);
    }
    AnyKOfNComplete(|items|, ParityCount(|items|), now, arrivals);
    HandedOverIndices(Fresh(now), arrivals);
    forall d | d in HandedOver(Fresh(now), arrivals) ensures Given(h, (n, d.index), d.payload) && TypeKept(items, d) {
      var i := EveryDeliveryIsSourced(Fresh(now), arrivals, d);
      IndexListed(HandedOver(Fresh(now), arrivals), d);
      SourcedIsGiven(s, h, rs, n, arrivals[i], d);
    }
  }

  lemma IndexListed(ds: seq<Delivery>, d: Delivery)
    requires d in ds
    ensures d.index in Indices(ds)
  {
    var i :| 0 <= i < |ds| && ds[i] == d;
    assert Indices(ds)[i] == d.index;
  }

  lemma SourcedIsGiven(s: BatchState, h: History, rs: Coder, n: nat, a: Arrival, d: Delivery)
    requires Partitioned(s, h) && Codes(rs) && n < |h.batches| && d.index < |h.batches[n]|
    requires SentFor(h, rs, n, a.packet) && Faithful(h.batches[n], a.full) && Sourced(d, a)
    ensures Given(h, (n, d.index), d.payload) && TypeKept(h.batches[n], d)
  {
    BatchIsWellFormed(s, h, n);
    assert h.batches[n][d.index] in h.batches[n];
    FaithfulShard(h.batches[n], a.full, d.index);
    GivenIff(s, h, n, d.index, d.payload);
  }

  lemma BatchIsWellFormed(s: BatchState, h: History, n: nat)
    requires Partitioned(s, h) && n < |h.batches|
    ensures forall x :: x in h.batches[n] ==> WellFormed(x)
  {
    forall x | x in h.batches[n] ensures WellFormed(x) {
      var i :| 0 <= i < |h.batches[n]| && h.batches[n][i] == x;
      assert (n, i) in h.labels;
      var j :| 0 <= j < |h.labels| && h.labels[j] == (n, i);
      assert Places(s, h, h.labels[j], h.packets[j]);
      assert h.packets[j] in h.packets;
    }
  }
}
