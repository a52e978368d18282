/** One forward-error-correction group on the receiving side.

A group collects the shards of one batch: `data` original packets and `parity` redundancy packets.
Reed-Solomon reconstruction itself is not part of the model: each reception is given the outcome
a reconstruction at that moment would have, either a failure or the full row of shards. */
module FecGroups {
  import opened Base

  type Shard = seq<bv8>

  const MAX_NUM := 50

  datatype Parity = Parity(data: nat, parity: nat)

  datatype FecPacket = FecPacket(index: nat, payload: Shard, parity: Option<Parity>)

  datatype Group = Group(data: nat, parity: nat, originals: nat, slots: seq<Option<Shard>>, lastUpdate: nat) {
    predicate IsDone() {
      data != 0 && originals == data
    }

    predicate Filled(i: nat) {
      i < |slots| && slots[i].Some?
    }
  }

  /** A packet handed out, under its index in the group.  A rebuilt one brings its type and flags
      bytes from the reconstructed shard; one that arrived keeps its own header. */
  datatype Delivery = Delivery(index: nat, header: Option<(bv8, bv8)>, payload: Shard)

  datatype FecError = IndexOverflow | ShardsOverflow | ShardsChanged | WrongLength | DecodeFailed | BadShard

  function Fresh(now: nat): Group {
    Group(0, 0, 0, [], now)
  }

  function Resized(slots: seq<Option<Shard>>, n: nat): (r: seq<Option<Shard>>)
    ensures |r| == if |slots| < n then n else |slots|
    ensures forall i :: 0 <= i < |r| ==> r[i] == if i < |slots| then slots[i] else None
  {
    if |slots| < n then slots + seq(n - |slots|, _ => None) else slots
  }

  /** What a redundancy packet's shard counts are checked for. */
  function Objection(g: Group, index: nat, q: Parity): Option<FecError> {
    if q.data > MAX_NUM || q.parity > MAX_NUM then Some(ShardsOverflow)
    else if q.data + q.parity <= index then Some(IndexOverflow)
    else if (g.data != 0 && g.data != q.data) || (g.parity != 0 && g.parity != q.parity) then Some(ShardsChanged)
    else None
  }

  /** The number a byte stands for. */
  function ByteValue(x: bv8): nat {
    if x == 0 then 0 else ByteValue(x - 1) + 1
  }

  lemma {:induction false} ByteValueIsItsNumber(x: bv8)
    ensures ByteValue(x) == x as nat
  {
    if x != 0 {
      ByteValueIsItsNumber(x - 1);
    }
  }

  lemma NextByte(x: bv8)
    requires ByteValue(x) < 255
    ensures ByteValue(x + 1) == ByteValue(x) + 1
  {
    ByteValueIsItsNumber(x);
    assert x != 255 && x + 1 - 1 == x;
  }

  /** The byte of a given value. */
  function Byte(n: nat): (x: bv8)
    requires n < 256
    ensures ByteValue(x) == n
  {
    if n == 0 then 0 else
    NextByte(Byte(n - 1));
    Byte(n - 1) + 1
  }

  function Value16(high: bv8, low: bv8): nat {
    ByteValue(high) * 256 + ByteValue(low)
  }

  /** A 16-bit number, high byte first. */
  function LengthBytes(n: nat): (b: Shard)
    requires n < 0x1_0000
    ensures |b| == 2 && Value16(b[0], b[1]) == n
  {
    var high, low := Byte(n / 256), Byte(n % 256);
    [high, low]
  }

  /** How much a stored shard says follows its four leading bytes. */
  function Announced(shard: Shard): nat
    requires |shard| >= 4
  {
    Value16(shard[2], shard[3])
  }

  /** The stored form of an original packet: type, flags and length before the payload. */
  function BatchData(typeByte: bv8, flags: bv8, payload: Shard): Shard {
    [typeByte, flags] + LengthBytes(|payload| % 0x1_0000) + payload
  }

  lemma ShortIsItself(n: nat)
    ensures n % 0x1_0000 == n <==> n <= 0xFFFF
  {
  }

  /** The length bytes tell the length of a payload if and only if it fits them. */
  lemma LengthIsAnnounced(head: Shard, payload: Shard)
    requires |head| == 2
    ensures Announced(BatchData(head[0], head[1], payload)) == |payload| <==> |payload| <= 0xFFFF
  {
    var b := LengthBytes(|payload| % 0x1_0000);
    assert head == [head[0], head[1]];
    ThreeParts(head, b, payload);
    ShortIsItself(|payload|);
  }

  lemma ThreeParts(a: Shard, b: Shard, c: Shard)
    requires |a| == |b| == 2
    ensures var x := a + b + c;
      x[2] == b[0] && x[3] == b[1] && x[4..] == c
  {
  }

  /** The group with one more shard; an original packet is counted. */
  function Stored(g: Group, p: FecPacket, shard: Shard, now: nat): Group {
    match p.parity
    case Some(q) =>
      var slots := Resized(g.slots, q.data + q.parity);
      if p.index < |slots|
      then g.(data := q.data, parity := q.parity, slots := slots[p.index := Some(shard)], lastUpdate := now)
      else g
    case None =>
      var slots := Resized(g.slots, p.index + 1);
      g.(originals := g.originals + 1, slots := slots[p.index := Some(shard)], lastUpdate := now)
  }

  function Done(g: Group): Group {
    g.(originals := g.data, slots := [])
  }

  function CountFilled(slots: seq<Option<Shard>>): nat {
    if slots == [] then 0 else CountFilled(slots[..|slots| - 1]) + (if slots[|slots| - 1].Some? then 1 else 0)
  }

  /** The data indices below `n` whose slot is empty, in order. */
  function Missing(g: Group, n: nat): (r: seq<nat>)
    ensures forall i: nat :: i in r <==> i < n && !g.Filled(i)
  {
    if n == 0 then [] else Missing(g, n - 1) + (if g.Filled(n - 1) then [] else [n - 1])
  }

  /** The payload announced by a reconstructed shard, if the shard is long enough for it. */
  function Rebuilt(shard: Shard): (r: Option<Shard>)
    ensures r.Some? ==> |shard| >= 4
  {
    if |shard| < 4 || Announced(shard) + 4 > |shard| then None else Some(shard[4..4 + Announced(shard)])
  }

  /** What is handed out for a missing original. */
  function Restored(i: nat, shard: Shard): Delivery
    requires Rebuilt(shard).Some?
  {
    Delivery(i, Some((shard[0], shard[1])), Rebuilt(shard).value)
  }

  function RebuiltAll(full: seq<Shard>, missing: seq<nat>): Option<seq<Delivery>> {
    if missing == [] then Some([]) else
    var front, i := RebuiltAll(full, missing[..|missing| - 1]), missing[|missing| - 1];
    if front.None? || i >= |full| || Rebuilt(full[i]).None? then None
    else Some(front.value + [Restored(i, full[i])])
  }

  /** Reconstruction over the whole group.  A shard that cannot be rebuilt leaves the group filled
      but not done; only a complete success closes it. */
  function DecodeWithRs(g: Group, full: Option<seq<Shard>>): (Group, Result<seq<Delivery>, FecError>) {
    if |g.slots| != g.data + g.parity then (g, Err(WrongLength))
    else if g.data == 0 || g.parity == 0 || full.None? || |full.value| != |g.slots| then (g, Err(DecodeFailed))
    else match RebuiltAll(full.value, Missing(g, g.data))
      case None => (g.(slots := seq(|g.slots|, i requires 0 <= i < |full.value| => Some(full.value[i]))), Err(BadShard))
      case Some(ds) => (Done(g), Ok(ds))
  }

  function TryDecode(g: Group, full: Option<seq<Shard>>): (Group, Result<seq<Delivery>, FecError>) {
    if g.data == 0 || g.originals == g.data || CountFilled(g.slots) < g.data then (g, Ok([]))
    else DecodeWithRs(g, full)
  }

  /** One packet for a group: the group afterwards and what is handed out.  When reconstruction
      fails, the packet just received is not handed out either. */
  function Receive(g: Group, p: FecPacket, shard: Shard, now: nat, full: Option<seq<Shard>>)
    : (Group, Result<seq<Delivery>, FecError>)
  {
    if g.IsDone() || g.Filled(p.index) then (g, Ok([]))
    else if Refused(g, p) then
      (g, Err(Objection(g, p.index, p.parity.value).value))
    else
      Finish(Stored(g, p, shard, now), Direct(p), full)
  }

  predicate Refused(g: Group, p: FecPacket) {
    p.parity.Some? && Objection(g, p.index, p.parity.value).Some?
  }

  /** An original packet is handed out as it comes; a redundancy packet never is. */
  function Direct(p: FecPacket): seq<Delivery> {
    if p.parity.None? then [Delivery(p.index, None, p.payload)] else []
  }

  /** After a shard was stored: close the group if all originals came, else try to reconstruct. */
  function Finish(h: Group, direct: seq<Delivery>, full: Option<seq<Shard>>): (Group, Result<seq<Delivery>, FecError>) {
    if h.IsDone() then (Done(h), Ok(direct))
    else
      var (h', r) := TryDecode(h, full);
      match r
      case Err(e) => (h', Err(e))
      case Ok(ds) => (h', Ok(ds + direct))
  }

  // ----- no index is handed out twice, whatever arrives

  function Indices(ds: seq<Delivery>): seq<nat> {
    seq(|ds|, i requires 0 <= i < |ds| => ds[i].index)
  }

  predicate Distinct(s: seq<nat>) {
    forall i, j :: 0 <= i < j < |s| ==> s[i] != s[j]
  }

  lemma {:induction false} RebuiltIndices(full: seq<Shard>, missing: seq<nat>)
    requires RebuiltAll(full, missing).Some?
    ensures Indices(RebuiltAll(full, missing).value) == missing
  {
    if missing != [] {
      var n := |missing| - 1;
      RebuiltIndices(full, missing[..n]);
      assert missing == missing[..n] + [missing[n]];
    }
  }

  lemma {:induction false} MissingDistinct(g: Group, n: nat)
    ensures Distinct(Missing(g, n))
  {
    if n > 0 {
      MissingDistinct(g, n - 1);
      var front := Missing(g, n - 1);
      assert forall i :: 0 <= i < |front| ==> front[i] in front;
    }
  }

  /** What `Receive` hands out. */
  function Out(g: Group, p: FecPacket, shard: Shard, now: nat, full: Option<seq<Shard>>): seq<nat> {
    var r := Receive(g, p, shard, now, full).1;
    if r.Ok? then Indices(r.value) else []
  }

  /** An index handed out before is never open again: its slot stays filled until the group is done. */
  predicate Closed(g: Group, i: nat) {
    g.IsDone() || g.Filled(i)
  }

  /** Reconstruction hands out open indices only, each once, and closes the group if it hands out
      any; it opens nothing. */
  lemma DecodeOut(h: Group, full: Option<seq<Shard>>)
    ensures var (h', r) := TryDecode(h, full);
      && (forall i :: Closed(h, i) ==> Closed(h', i))
      && (r.Ok? ==> Distinct(Indices(r.value)) && forall i :: i in Indices(r.value) ==> !h.Filled(i) && h'.IsDone())
  {
    var (h', r) := TryDecode(h, full);
    if r.Ok? && r.value != [] {
      var missing := Missing(h, h.data);
      RebuiltIndices(full.value, missing);
      MissingDistinct(h, h.data);
      assert Indices(r.value) == missing;
    }
  }

  lemma FinishOut(h: Group, direct: seq<Delivery>, full: Option<seq<Shard>>)
    requires |direct| <= 1 && forall d :: d in direct ==> h.Filled(d.index)
    ensures var (h', r) := Finish(h, direct, full);
      && (forall i :: Closed(h, i) ==> Closed(h', i))
      && (r.Ok? ==> Distinct(Indices(r.value)))
      && (r.Ok? ==> forall i :: i in Indices(r.value) ==> Closed(h', i) && (i in Indices(direct) || !h.Filled(i)))
  {
    DecodeOut(h, full);
    var r := TryDecode(h, full).1;
    if !h.IsDone() && r.Ok? {
      assert Indices(r.value + direct) == Indices(r.value) + Indices(direct);
      assert direct == [] || (direct == [direct[0]] && Indices(direct) == [direct[0].index]);
      forall i | i in Indices(r.value) ensures i !in Indices(direct) {
      }
      DistinctConcat(Indices(r.value), Indices(direct));
    }
  }

  lemma ReceiveClosesWhatItHandsOut(g: Group, p: FecPacket, shard: Shard, now: nat, full: Option<seq<Shard>>)
    ensures var g' := Receive(g, p, shard, now, full).0;
      var out := Out(g, p, shard, now, full);
      && Distinct(out)
      && (forall i :: Closed(g, i) ==> Closed(g', i) && i !in out)
      && (forall i :: i in out ==> Closed(g', i))
  {
    if !g.IsDone() && !g.Filled(p.index) && !Refused(g, p) {
      var h := Stored(g, p, shard, now);
      StoredFills(g, p, shard, now);
      FinishOut(h, Direct(p), full);
      assert Indices(Direct(p)) == if p.parity.None? then [p.index] else [];
    }
  }

  lemma StoredFills(g: Group, p: FecPacket, shard: Shard, now: nat)
    requires !Refused(g, p)
    ensures forall i: nat :: Stored(g, p, shard, now).Filled(i) <==> g.Filled(i) || i == p.index
  {
  }

  /** A reception: the packet, its stored form, the time, and the outcome of reconstruction. */
  datatype Arrival = Arrival(packet: FecPacket, shard: Shard, now: nat, full: Option<seq<Shard>>)

  function Run(g: Group, arrivals: seq<Arrival>): (Group, seq<nat>) {
    if arrivals == [] then (g, []) else
    var (h, outs) := Run(g, arrivals[..|arrivals| - 1]);
    var a := arrivals[|arrivals| - 1];
    (Receive(h, a.packet, a.shard, a.now, a.full).0, outs + Out(h, a.packet, a.shard, a.now, a.full))
  }

  /** Over the whole lifetime of a group, for any packets in any order and any outcomes of
      reconstruction, no index is handed out twice. */
  lemma {:induction false} NoIndexTwice(now: nat, arrivals: seq<Arrival>)
    ensures Distinct(Run(Fresh(now), arrivals).1)
    ensures forall i :: i in Run(Fresh(now), arrivals).1 ==> Closed(Run(Fresh(now), arrivals).0, i)
  {
    if arrivals != [] {
      var n := |arrivals| - 1;
      NoIndexTwice(now, arrivals[..n]);
      var (h, outs) := Run(Fresh(now), arrivals[..n]);
      var a := arrivals[n];
      ReceiveClosesWhatItHandsOut(h, a.packet, a.shard, a.now, a.full);
      DistinctConcat(outs, Out(h, a.packet, a.shard, a.now, a.full));
    }
  }

  lemma DistinctConcat(a: seq<nat>, b: seq<nat>)
    requires Distinct(a) && Distinct(b) && forall i :: i in a ==> i !in b
    ensures Distinct(a + b)
  {
    forall i, j | 0 <= i < j < |a + b| ensures (a + b)[i] != (a + b)[j] {
      if i < |a| <= j { assert a[i] in a && b[j - |a|] in b; }
    }
  }

  // ----- when an original is handed out

  lemma {:induction false} RebuiltAllIff(full: seq<Shard>, missing: seq<nat>)
    ensures RebuiltAll(full, missing).Some? <==> forall i: nat :: i in missing ==> i < |full| && Rebuilt(full[i]).Some?
  {
    if missing != [] {
      var front, i := missing[..|missing| - 1], missing[|missing| - 1];
      assert missing == front + [i];
      RebuiltAllIff(full, front);
      assert forall j: nat :: j in missing <==> j in front || j == i;
    }
  }

  /** Reconstruction of the whole group succeeds: the slots fit the counts, the code has redundancy,
      the row is complete and every missing original in it is readable. */
  predicate Recoverable(h: Group, full: Option<seq<Shard>>) {
    && |h.slots| == h.data + h.parity && h.data != 0 && h.parity != 0
    && full.Some? && |full.value| == |h.slots|
    && forall i :: 0 <= i < h.data && !h.Filled(i) ==> Rebuilt(full.value[i]).Some?
  }

  /** The arrival of the last shard stored sets off a reconstruction. */
  predicate SetsOff(h: Group) {
    h.data != 0 && h.originals != h.data && CountFilled(h.slots) >= h.data
  }

  /** With the new shard the group waits on, is complete by its originals, or can be reconstructed. */
  predicate StoresSafely(h: Group, full: Option<seq<Shard>>) {
    SetsOff(h) ==> Recoverable(h, full)
  }

  lemma DecodeSucceedsIff(h: Group, full: Option<seq<Shard>>)
    ensures TryDecode(h, full).1.Ok? <==> StoresSafely(h, full)
  {
    var missing := Missing(h, h.data);
    if full.Some? {
      RebuiltAllIff(full.value, missing);
      assert forall i: nat :: i in missing <==> i < h.data && !h.Filled(i);
    }
  }

  lemma {:induction false} RebuiltAllAt(full: seq<Shard>, missing: seq<nat>)
    requires RebuiltAll(full, missing).Some?
    ensures |RebuiltAll(full, missing).value| == |missing|
    ensures forall k :: 0 <= k < |missing| ==>
      && missing[k] < |full| && Rebuilt(full[missing[k]]).Some?
      && RebuiltAll(full, missing).value[k] == Restored(missing[k], full[missing[k]])
  {
    if missing != [] {
      var front := missing[..|missing| - 1];
      RebuiltAllAt(full, front);
      assert forall k :: 0 <= k < |front| ==> front[k] == missing[k];
    }
  }

  /** The originals rebuilt with the arrival, in order. */
  function Siblings(h: Group, full: Option<seq<Shard>>): seq<Delivery> {
    if !SetsOff(h) || full.None? then [] else
    match RebuiltAll(full.value, Missing(h, h.data))
    case None => []
    case Some(ds) => ds
  }

  /** A new original of an unfinished group is handed out under its own payload if and only if its
      arrival does not set off a reconstruction that fails; otherwise nothing is handed out.  It comes
      last, behind the originals rebuilt with it. */
  lemma OriginalHandedOutIff(g: Group, p: FecPacket, shard: Shard, now: nat, full: Option<seq<Shard>>)
    requires !g.IsDone() && !g.Filled(p.index) && p.parity.None?
    ensures var h, r := Stored(g, p, shard, now), Receive(g, p, shard, now, full).1;
      && (r.Ok? <==> StoresSafely(h, full))
      && (r.Ok? ==> r.value == Siblings(h, full) + [Delivery(p.index, None, p.payload)])
  {
    var h := Stored(g, p, shard, now);
    DecodeSucceedsIff(h, full);
    assert Direct(p) == [Delivery(p.index, None, p.payload)];
    assert [] + Direct(p) == Direct(p);
  }

  lemma CountOfThree(slots: seq<Option<Shard>>)
    requires |slots| == 3
    ensures CountFilled(slots) == (if slots[0].Some? then 1 else 0) + (if slots[1].Some? then 1 else 0)
                                + (if slots[2].Some? then 1 else 0)
  {
    var two := slots[..2];
    var one := two[..1];
    assert CountFilled(slots) == CountFilled(two) + (if slots[2].Some? then 1 else 0);
    assert CountFilled(two) == CountFilled(one) + (if slots[1].Some? then 1 else 0);
    assert one[..0] == [];
  }

  /** Such a loss is final: of a batch of two with one redundancy packet, that packet and then the
      first original arrive, and reconstruction fails.  The intact original is not handed out, and
      its slot is taken, so a copy of it would be ignored. */
  lemma FailedReconstructionLosesAnOriginal(payload: Shard, shard: Shard, redundancy: Shard)
    ensures var first := Arrival(FecPacket(2, redundancy, Some(Parity(2, 1))), redundancy, 0, None);
      var second := Arrival(FecPacket(0, payload, None), shard, 0, None);
      var (g, outs) := Run(Fresh(0), [first, second]);
      outs == [] && g.Filled(0) && !g.IsDone()
  {
    var first := Arrival(FecPacket(2, redundancy, Some(Parity(2, 1))), redundancy, 0, None);
    var second := Arrival(FecPacket(0, payload, None), shard, 0, None);
    assert [first, second][..1] == [first] && [first][..0] == [];
    var g := Receive(Fresh(0), first.packet, redundancy, 0, None).0;
    assert g.slots == [None, None, Some(redundancy)];
    CountOfThree(g.slots);
    assert Run(Fresh(0), [first]) == (g, []);
    var h := Stored(g, second.packet, shard, 0);
    assert h.slots == [Some(shard), None, Some(redundancy)];
    CountOfThree(h.slots);
  }

  /** A redundancy packet is refused, with this reason and without effect, exactly if its counts exceed
      fifty, its index lies beyond them, or they differ from those the group knows. */
  lemma RefusalIsExact(g: Group, p: FecPacket, shard: Shard, now: nat, full: Option<seq<Shard>>)
    requires !g.IsDone() && !g.Filled(p.index)
    ensures Refused(g, p) <==> p.parity.Some? && var q := p.parity.value;
      || q.data > 50 || q.parity > 50 || p.index >= q.data + q.parity
      || (g.data != 0 && q.data != g.data) || (g.parity != 0 && q.parity != g.parity)
    ensures Refused(g, p) ==>
      var (g', r) := Receive(g, p, shard, now, full); var q := p.parity.value;
      && g' == g
      && r == Err(if q.data > 50 || q.parity > 50 then ShardsOverflow
                  else if p.index >= q.data + q.parity then IndexOverflow else ShardsChanged)
  {
  }

  /** A reconstruction that fails as a whole leaves the group as it was, so that a later shard may still
      complete it. */
  lemma FailureKeepsShards(h: Group, full: Option<seq<Shard>>)
    ensures var (h', r) := TryDecode(h, full);
      r.Err? && r != Err(BadShard) ==> h' == h
  {
  }

  /** Every slot of the group is filled, and it is not done. */
  predicate Stuck(g: Group) {
    !g.IsDone() && forall i: nat :: i < |g.slots| ==> g.Filled(i)
  }

  /** A reconstruction that yields an unreadable original leaves the group filled but not done. */
  lemma UnreadableFillsGroup(h: Group, full: Option<seq<Shard>>)
    requires SetsOff(h) && !h.IsDone()
    ensures TryDecode(h, full).1 == Err(BadShard) ==> Stuck(TryDecode(h, full).0)
  {
  }

  lemma StuckIgnores(g: Group, a: Arrival)
    requires Stuck(g) && a.packet.index < |g.slots|
    ensures Receive(g, a.packet, a.shard, a.now, a.full) == (g, Ok([]))
    ensures Out(g, a.packet, a.shard, a.now, a.full) == []
  {
    assert g.Filled(a.packet.index);
  }

  /** From then on every packet of the group is ignored, so its missing originals are lost. */
  lemma {:induction false} StuckForEver(g: Group, arrivals: seq<Arrival>)
    requires Stuck(g) && forall i :: 0 <= i < |arrivals| ==> arrivals[i].packet.index < |g.slots|
    ensures Run(g, arrivals) == (g, [])
  {
    if arrivals != [] {
      var front, a := arrivals[..|arrivals| - 1], arrivals[|arrivals| - 1];
      StuckForEver(g, front);
      StuckIgnores(g, a);
      var none: seq<nat> := [];
      assert Run(g, front) == (g, none);
      assert Run(g, arrivals) == (g, none + none) && none + none == none;
    }
  }

  /** A group that counted more originals than a redundancy packet then announces is not done. */
  lemma OvercountedIsNotDone(x: Shard, y: Shard)
    ensures var g := Group(0, 0, 3, [Some(x), Some(x), Some(x)], 0);
      var (g', r) := Receive(g, FecPacket(3, y, Some(Parity(2, 2))), y, 0, None);
      r == Err(DecodeFailed) && !g'.IsDone()
  {
    var g := Group(0, 0, 3, [Some(x), Some(x), Some(x)], 0);
    var h := Stored(g, FecPacket(3, y, Some(Parity(2, 2))), y, 0);
    assert h.slots == [Some(x), Some(x), Some(x), Some(y)];
    CountOfThree(h.slots[..3]);
  }
}
