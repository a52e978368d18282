/** The wire pipeline: compress, wrap for error correction and encrypt on the way out; decrypt,
unwrap and decompress on the way in.

LZ4, the authenticated cipher (section 2.8 of RFC 8439) and the wire form of an error-correction
packet are parameters; what is assumed of them is that each undoes its inverse. */
module Pipeline {
  import opened Base
  import opened Packets
  import opened FecGroups

  const TAG_LEN := 16
  const MIN_COMPRESS := 256
  const MAX_PAYLOAD := 0xFFFF

  datatype FecWire = FecWire(groupId: nat, packet: FecPacket)

  /** `seal` takes nonce and plaintext to ciphertext followed by the tag; `spoil` is what a failed
      `open` leaves in its buffer, of which nothing but the length is known. */
  datatype Codecs = Codecs(
    pack: Bytes -> Bytes,
    unpack: Bytes -> Option<Bytes>,
    seal: (Bytes, Bytes) -> Bytes,
    open: (Bytes, Bytes) -> Option<Bytes>,
    spoil: (Bytes, Bytes) -> Bytes,
    write: FecWire -> Bytes,
    parse: Bytes -> Option<FecWire>)

  ghost predicate Inverse(c: Codecs) {
    && (forall x :: c.unpack(c.pack(x)) == Some(x))
    && (forall n, x :: |c.seal(n, x)| == |x| + TAG_LEN && c.open(n, c.seal(n, x)) == Some(x))
    && (forall n, y :: c.open(n, y).Some? ==> |y| == |c.open(n, y).value| + TAG_LEN)
    && (forall n, y :: |c.spoil(n, y)| == |y|)
    && (forall w :: c.parse(c.write(w)) == Some(w))
  }

  /** What both ends are configured with; the key is part of the codecs. */
  datatype Settings = Settings(compression: bool, encryption: bool, fec: bool)

  datatype PipelineError =
    | PayloadTooBig | DecryptFailed | NotFec | NotHandedOut | DecompressFailed | NotTaken | NoRoom

  // ----- outbound, on packet contents

  function Compressed(c: Codecs, s: Settings, b: Packet): Packet {
    if !s.compression || |Payload(b)| < MIN_COMPRESS || |c.pack(Payload(b))| >= |Payload(b)| then b
    else SetFlag(WithPayload(b, c.pack(Payload(b))), COMPRESSED, true)
  }

  function Wrapped(c: Codecs, b: Packet, groupId: nat, index: nat): Packet {
    SetFlag(WithPayload(b, c.write(FecWire(groupId, FecPacket(index, Payload(b), None)))), FEC, true)
  }

  function Encrypted(c: Codecs, s: Settings, b: Packet): Packet {
    if s.encryption then WithPayload(b, c.seal(Nonce(b), Payload(b))) else b
  }

  function Outbound(c: Codecs, s: Settings, b: Packet, groupId: nat, index: nat): Result<Packet, PipelineError> {
    var p := Compressed(c, s, b);
    if s.fec && |Payload(p)| > MAX_PAYLOAD then Err(PayloadTooBig)
    else Ok(Encrypted(c, s, if s.fec then Wrapped(c, p, groupId, index) else p))
  }

  /** Compression takes place, and is marked, if and only if it is switched on, the content has at
      least 256 bytes and gets shorter; it never makes a packet longer. */
  lemma CompressesIff(c: Codecs, s: Settings, b: Packet)
    requires !HasFlag(b, COMPRESSED)
    ensures var q := Compressed(c, s, b);
      && (HasFlag(q, COMPRESSED) <==>
            s.compression && |Payload(b)| >= 256 && |c.pack(Payload(b))| < |Payload(b)|)
      && (!HasFlag(q, COMPRESSED) ==> q == b)
      && (HasFlag(q, COMPRESSED) ==> Payload(q) == c.pack(Payload(b)))
      && |q| <= |b|
  {
    FlagSetAndClear(b[2], COMPRESSED);
  }

  /** A packet is refused if and only if it is to be protected and the two length bytes of its stored
      form could not tell its length. */
  lemma OutboundRefusesIff(c: Codecs, s: Settings, b: Packet, groupId: nat, index: nat)
    ensures var p := Compressed(c, s, b);
      Outbound(c, s, b, groupId, index).Err? <==> s.fec && Announced(SenderShard(p)) != |Payload(p)|
  {
    RefusesLong(c, s, b, groupId, index);
    var p := Compressed(c, s, b);
    LengthIsAnnounced([p[0], p[2]], Payload(p));
  }

  lemma RefusesLong(c: Codecs, s: Settings, b: Packet, groupId: nat, index: nat)
    ensures Outbound(c, s, b, groupId, index).Err? <==> s.fec && |Payload(Compressed(c, s, b))| > 0xFFFF
  {
  }

  /** What goes on the wire: the content packed if that is due, wrapped under its label if it is to be
      protected, sealed under the packet's own nonce if it is to be encrypted; in the header only the two
      flags are set that tell of the first two. */
  lemma WireForm(c: Codecs, s: Settings, b: Packet, groupId: nat, index: nat)
    requires Outbound(c, s, b, groupId, index).Ok? && !HasFlag(b, COMPRESSED)
    ensures var packed := s.compression && |Payload(b)| >= 256 && |c.pack(Payload(b))| < |Payload(b)|;
      var content := if packed then c.pack(Payload(b)) else Payload(b);
      var plain := if s.fec then c.write(FecWire(groupId, FecPacket(index, content, None))) else content;
      var flags := if packed then b[2] | 0x80 else b[2];
      var wire := Outbound(c, s, b, groupId, index).value;
      && Payload(wire) == (if s.encryption then c.seal(Nonce(b), plain) else plain)
      && wire[2] == (if s.fec then flags | 0x20 else flags)
      && forall i :: 0 <= i < 16 && i != 2 ==> wire[i] == b[i]
  {
    CompressedForm(c, s, b);
    SameNonce(Compressed(c, s, b), b);
    ProtectedForm(c, s, Compressed(c, s, b), groupId, index);
  }

  lemma CompressedForm(c: Codecs, s: Settings, b: Packet)
    requires !HasFlag(b, COMPRESSED)
    ensures var packed := s.compression && |Payload(b)| >= 256 && |c.pack(Payload(b))| < |Payload(b)|;
      var p := Compressed(c, s, b);
      && Payload(p) == (if packed then c.pack(Payload(b)) else Payload(b))
      && p[2] == (if packed then b[2] | 0x80 else b[2])
      && (forall i :: 0 <= i < 16 && i != 2 ==> p[i] == b[i])
  {
    CompressesIff(c, s, b);
    CompressedHead(c, s, b);
  }

  /** The steps behind compression. */
  lemma ProtectedForm(c: Codecs, s: Settings, p: Packet, groupId: nat, index: nat)
    ensures var wire := Encrypted(c, s, if s.fec then Wrapped(c, p, groupId, index) else p);
      var plain := if s.fec then c.write(FecWire(groupId, FecPacket(index, Payload(p), None))) else Payload(p);
      && Payload(wire) == (if s.encryption then c.seal(Nonce(p), plain) else plain)
      && wire[2] == (if s.fec then p[2] | 0x20 else p[2])
      && (forall i :: 0 <= i < 16 && i != 2 ==> wire[i] == p[i])
  {
    var q := if s.fec then Wrapped(c, p, groupId, index) else p;
    WrappedHead(c, p, groupId, index);
    EncryptedHead(c, s, q);
    SameNonce(q, p);
  }

  lemma SameNonce(a: Packet, b: Packet)
    requires forall i :: 0 <= i < 16 && i != 2 ==> a[i] == b[i]
    ensures Nonce(a) == Nonce(b)
  {
  }

  lemma CompressedHead(c: Codecs, s: Settings, b: Packet)
    requires !HasFlag(b, COMPRESSED)
    ensures var p := Compressed(c, s, b);
      && (forall i :: 0 <= i < 16 && i != 2 ==> p[i] == b[i])
      && p[2] == (if HasFlag(p, COMPRESSED) then b[2] | 0x80 else b[2])
  {
    FlagSetAndClear(b[2], COMPRESSED);
  }

  lemma WrappedHead(c: Codecs, p: Packet, groupId: nat, index: nat)
    ensures var q := Wrapped(c, p, groupId, index);
      && (forall i :: 0 <= i < 16 && i != 2 ==> q[i] == p[i]) && q[2] == p[2] | 0x20
      && Payload(q) == c.write(FecWire(groupId, FecPacket(index, Payload(p), None)))
  {
  }

  lemma EncryptedHead(c: Codecs, s: Settings, q: Packet)
    ensures var w := Encrypted(c, s, q);
      && (forall i :: 0 <= i < 16 ==> w[i] == q[i])
      && Payload(w) == if s.encryption then c.seal(Nonce(q), Payload(q)) else Payload(q)
  {
  }

  // ----- inbound

  function Decrypted(c: Codecs, s: Settings, b: Packet): Result<Packet, PipelineError> {
    if !s.encryption then Ok(b) else
    match c.open(Nonce(b), Payload(b))
    case None => Err(DecryptFailed)
    case Some(x) => Ok(WithPayload(b, x))
  }

  /** The packet handed out for an original: its own header without the error-correction flag. */
  function Unwrapped(b: Packet, payload: Bytes): Packet {
    SetFlag(WithPayload(b, payload), FEC, false)
  }

  function Decompressed(c: Codecs, s: Settings, b: Packet): Result<Packet, PipelineError> {
    if !s.compression || !HasFlag(b, COMPRESSED) then Ok(b) else
    match c.unpack(Payload(b))
    case None => Err(DecompressFailed)
    case Some(x) => Ok(SetFlag(WithPayload(b, x), COMPRESSED, false))
  }

  lemma FlagSetAndClear(x: bv8, m: bv8)
    ensures x & m == 0 ==> (x | m) & !m == x
    ensures m != 0 ==> (x | m) & m != 0
    ensures x & !m & m == 0
  {
  }

  lemma OtherFlagStays(x: bv8)
    ensures (x | FEC) & COMPRESSED == x & COMPRESSED
    ensures (x & !FEC) & COMPRESSED == x & COMPRESSED
    ensures (x | COMPRESSED) & FEC == x & FEC
  {
  }

  lemma DecryptUndoesEncrypt(c: Codecs, s: Settings, b: Packet, ttl: bv8)
    requires Inverse(c)
    ensures Decrypted(c, s, Encrypted(c, s, b)[1 := ttl]) == Ok(b[1 := ttl])
  {
    var e := Encrypted(c, s, b)[1 := ttl];
    assert Nonce(e) == Nonce(b);
    if s.encryption {
      assert Payload(e) == c.seal(Nonce(b), Payload(b));
      assert WithPayload(e, Payload(b)) == b[1 := ttl];
    }
  }

  lemma UnwrapUndoesWrap(c: Codecs, b: Packet, groupId: nat, index: nat, ttl: bv8)
    requires Inverse(c) && !HasFlag(b, FEC)
    ensures var w := Wrapped(c, b, groupId, index)[1 := ttl];
      && HasFlag(w, FEC)
      && c.parse(Payload(w)) == Some(FecWire(groupId, FecPacket(index, Payload(b), None)))
      && Unwrapped(w, Payload(b)) == b[1 := ttl]
  {
    FlagSetAndClear(b[2], FEC);
    var w := Wrapped(c, b, groupId, index)[1 := ttl];
    assert Payload(w) == c.write(FecWire(groupId, FecPacket(index, Payload(b), None)));
    assert Unwrapped(w, Payload(b)) == b[1 := ttl];
  }

  lemma DecompressUndoesCompress(c: Codecs, s: Settings, b: Packet, ttl: bv8)
    requires Inverse(c) && !HasFlag(b, COMPRESSED)
    ensures Decompressed(c, s, Compressed(c, s, b)[1 := ttl]) == Ok(b[1 := ttl])
    ensures HasFlag(Compressed(c, s, b), FEC) == HasFlag(b, FEC)
  {
    FlagSetAndClear(b[2], COMPRESSED);
    OtherFlagStays(b[2]);
    var p := Compressed(c, s, b)[1 := ttl];
    if Compressed(c, s, b) != b {
      assert Payload(p) == c.pack(Payload(b));
      assert SetFlag(WithPayload(p, Payload(b)), COMPRESSED, false) == b[1 := ttl];
    }
  }

  /** The packet built from a reconstructed shard: type and flags from the shard, addresses and
      time-to-live from the packet whose arrival set off the reconstruction. */
  function Sibling(p: Packet, typeByte: bv8, flags: bv8, payload: Bytes): Packet {
    var blank: Packet := seq(HEAD_LENGTH, _ => 0) + payload;
    SetFlag(SetTtl(SetIds(blank[0 := typeByte][2 := flags], SrcId(p), DestId(p)), Ttl(p)), FEC, false)
  }

  function PacketOf(p: Packet, d: Delivery): Packet {
    match d.header
    case None => Unwrapped(p, d.payload)
    case Some((typeByte, flags)) => Sibling(p, typeByte, flags, d.payload)
  }

  function PacketsOf(p: Packet, ds: seq<Delivery>): (r: seq<Packet>)
    ensures |r| == |ds| && forall k :: 0 <= k < |ds| ==> r[k] == PacketOf(p, ds[k])
  {
    seq(|ds|, k requires 0 <= k < |ds| => PacketOf(p, ds[k]))
  }

  /** The packets passed up in order, and what ended the loop, if anything did. */
  datatype Passed = Passed(packets: seq<Packet>, stop: Option<PipelineError>)

  /** Decompresses the k-th packet and passes it up; `takes(k)` says whether the layer above takes it
      without an error. */
  function PassNext(c: Codecs, s: Settings, takes: nat -> bool, before: Passed, k: nat, p: Packet): Passed {
    match Decompressed(c, s, p)
    case Err(e) => Passed(before.packets, Some(e))
    case Ok(q) => Passed(before.packets + [q], if takes(k) then None else Some(NotTaken))
  }

  /** One packet after the other; the first one that cannot be decompressed, or that the layer above
      refuses, is the end of it. */
  function PassUp(c: Codecs, s: Settings, takes: nat -> bool, ps: seq<Packet>): Passed {
    if ps == [] then Passed([], None) else
    var n := |ps| - 1;
    var before := PassUp(c, s, takes, ps[..n]);
    if before.stop.Some? then before else PassNext(c, s, takes, before, n, ps[n])
  }

  /** What the receiver passes up for one arrived packet: the packet itself or, for one of an
      error-correction group, all that the group hands out. */
  function Inbound(c: Codecs, s: Settings, takes: nat -> bool, b: Packet, g: Group, now: nat,
                   full: Option<seq<Shard>>): Passed
  {
    match Decrypted(c, s, b)
    case Err(e) => Passed([], Some(e))
    case Ok(p) =>
      if !HasFlag(p, FEC) then PassUp(c, s, takes, [p]) else
      match c.parse(Payload(p))
      case None => Passed([], Some(NotFec))
      case Some(w) =>
        if w.packet.index > MAX_NUM then Passed([], Some(NotHandedOut)) else
        match FecGroups.Receive(g, w.packet, BatchData(p[0], p[2], w.packet.payload), now, full).1
        case Err(_) => Passed([], Some(NotHandedOut))
        case Ok(ds) => PassUp(c, s, takes, PacketsOf(p, ds))
  }

  predicate PassesUp(c: Codecs, s: Settings, takes: nat -> bool, ps: seq<Packet>, k: nat)
    requires k < |ps|
  {
    Decompressed(c, s, ps[k]).Ok? && takes(k)
  }

  lemma {:induction false} PassUpIff(c: Codecs, s: Settings, takes: nat -> bool, ps: seq<Packet>)
    ensures var r := PassUp(c, s, takes, ps);
      && |r.packets| <= |ps|
      && (r.stop.None? <==> forall k :: 0 <= k < |ps| ==> PassesUp(c, s, takes, ps, k))
      && (r.stop.None? ==> |r.packets| == |ps|)
  {
    if ps != [] {
      var front := ps[..|ps| - 1];
      PassUpIff(c, s, takes, front);
      assert forall k :: 0 <= k < |front| ==>
        (PassesUp(c, s, takes, front, k) <==> PassesUp(c, s, takes, ps, k));
      assert (forall k :: 0 <= k < |ps| ==> PassesUp(c, s, takes, ps, k)) <==>
        (forall k :: 0 <= k < |front| ==> PassesUp(c, s, takes, front, k)) && PassesUp(c, s, takes, ps, |front|);
    }
  }

  /** The last packet is reached if and only if all before it are passed up without an error. */
  lemma LastIsReachedIff(c: Codecs, s: Settings, takes: nat -> bool, front: seq<Packet>, x: Packet)
    requires Decompressed(c, s, x).Ok?
    ensures var r := PassUp(c, s, takes, front + [x]);
      && |r.packets| <= |front| + 1
      && (|r.packets| > |front| <==> forall k :: 0 <= k < |front| ==> PassesUp(c, s, takes, front, k))
      && (|r.packets| > |front| ==> r.packets[|front|] == Decompressed(c, s, x).value)
  {
    assert (front + [x])[..|front|] == front;
    PassUpIff(c, s, takes, front);
  }

  /** A first packet that cannot be decompressed ends it at once. */
  lemma {:induction false} FirstStops(c: Codecs, s: Settings, takes: nat -> bool, ps: seq<Packet>)
    requires ps != [] && Decompressed(c, s, ps[0]).Err?
    ensures PassUp(c, s, takes, ps).packets == [] && PassUp(c, s, takes, ps).stop.Some?
  {
    if |ps| > 1 {
      FirstStops(c, s, takes, ps[..|ps| - 1]);
    } else {
      assert ps[..0] == [];
    }
  }

  /** What fails the authenticity check is passed up in no form, and neither is protected content that
      does not parse. */
  lemma ForgedIsRejected(c: Codecs, s: Settings, takes: nat -> bool, b: Packet, g: Group, now: nat,
                         full: Option<seq<Shard>>)
    requires || (s.encryption && c.open(Nonce(b), Payload(b)).None?)
             || (!s.encryption && HasFlag(b, FEC) && c.parse(Payload(b)).None?)
    ensures var r := Inbound(c, s, takes, b, g, now, full);
      r.packets == [] && r.stop == Some(if s.encryption then DecryptFailed else NotFec)
  {
  }

  // ----- the round trip

  /** The group as it stands once the packet is stored in it. */
  function GroupWith(c: Codecs, s: Settings, b: Packet, groupId: nat, index: nat, g: Group, now: nat): Group {
    var p := Compressed(c, s, b);
    var shard := BatchData(b[0], Wrapped(c, p, groupId, index)[2], Payload(p));
    Stored(g, FecPacket(index, Payload(p), None), shard, now)
  }

  /** If the reconstructed flags call the content compressed, it can be decompressed. */
  predicate Unpacks(c: Codecs, s: Settings, shard: Shard)
    requires Rebuilt(shard).Some?
  {
    s.compression && shard[1] & COMPRESSED != 0 ==> c.unpack(Rebuilt(shard).value).Some?
  }

  /** The originals rebuilt with the arrival, if it sets off a reconstruction, can all be decompressed
      and are all taken by the layer above. */
  predicate SiblingsPass(c: Codecs, s: Settings, takes: nat -> bool, h: Group, full: Option<seq<Shard>>)
    requires StoresSafely(h, full)
  {
    SetsOff(h) ==>
      && (forall i :: 0 <= i < h.data && !h.Filled(i) ==> Unpacks(c, s, full.value[i]))
      && (forall k :: 0 <= k < |Missing(h, h.data)| ==> takes(k))
  }

  /** The packet's index is within the limit, its arrival sets off no reconstruction that fails, and
      no original rebuilt with it stops the receiver. */
  predicate ComesUp(c: Codecs, s: Settings, takes: nat -> bool, h: Group, index: nat, full: Option<seq<Shard>>) {
    index <= MAX_NUM && StoresSafely(h, full) && SiblingsPass(c, s, takes, h, full)
  }

  lemma SiblingUnpacksIff(c: Codecs, s: Settings, p: Packet, i: nat, shard: Shard)
    requires Rebuilt(shard).Some?
    ensures Decompressed(c, s, PacketOf(p, Restored(i, shard))).Ok? <==> Unpacks(c, s, shard)
  {
    SiblingFields(p, shard[0], shard[1], Rebuilt(shard).value);
  }

  lemma SiblingFields(p: Packet, typeByte: bv8, flags: bv8, payload: Bytes)
    ensures var q := Sibling(p, typeByte, flags, payload);
      && q[0] == typeByte && SrcId(q) == SrcId(p) && DestId(q) == DestId(p) && Payload(q) == payload
      && Ttl(q) == MaxTtl(q) == Ttl(p) && !HasFlag(q, FEC)
      && (HasFlag(q, COMPRESSED) <==> flags & COMPRESSED != 0)
  {
    var blank: Packet := seq(HEAD_LENGTH, _ => 0) + payload;
    var x := SetIds(blank[0 := typeByte][2 := flags], SrcId(p), DestId(p));
    IdFields(blank[0 := typeByte][2 := flags], SrcId(p), DestId(p));
    var q := Sibling(p, typeByte, flags, payload);
    assert q == SetFlag(SetTtl(x, Ttl(p)), FEC, false);
    TtlCopied(x, p);
    FlagCleared(SetTtl(x, Ttl(p)));
  }

  lemma TtlCopied(b: Packet, p: Packet)
    ensures var x := SetTtl(b, Ttl(p));
      && Ttl(x) == MaxTtl(x) == Ttl(p) && x[0] == b[0] && x[2] == b[2]
      && SrcId(x) == SrcId(b) && DestId(x) == DestId(b) && Payload(x) == Payload(b)
  {
    CopiedTtl(p[1]);
  }

  lemma FlagCleared(b: Packet)
    ensures var x := SetFlag(b, FEC, false);
      && !HasFlag(x, FEC) && (HasFlag(x, COMPRESSED) <==> HasFlag(b, COMPRESSED)) && x[0] == b[0] && x[1] == b[1]
      && SrcId(x) == SrcId(b) && DestId(x) == DestId(b) && Payload(x) == Payload(b)
  {
    OtherFlagStays(b[2]);
    FlagSetAndClear(b[2], FEC);
  }

  lemma IdFields(b: Packet, src: Address, dest: Address)
    ensures var x := SetIds(b, src, dest);
      x[0] == b[0] && x[2] == b[2] && SrcId(x) == src && DestId(x) == dest && Payload(x) == Payload(b)
  {
  }

  lemma CopiedTtl(x: bv8)
    ensures var t := x & 0x0F; var y := (t << 4) | (t & 0x0F);
      y & 0x0F == t && y >> 4 == t
  {
  }

  lemma SiblingsPassIff(c: Codecs, s: Settings, takes: nat -> bool, p: Packet, h: Group, full: Option<seq<Shard>>)
    requires StoresSafely(h, full)
    ensures var ps := PacketsOf(p, Siblings(h, full));
      SiblingsPass(c, s, takes, h, full) <==> forall k :: 0 <= k < |ps| ==> PassesUp(c, s, takes, ps, k)
  {
    if SetsOff(h) {
      var missing := Missing(h, h.data);
      RebuiltAllIff(full.value, missing);
      RebuiltAllAt(full.value, missing);
      var ps := PacketsOf(p, Siblings(h, full));
      forall k | 0 <= k < |missing|
        ensures PassesUp(c, s, takes, ps, k) <==> Unpacks(c, s, full.value[missing[k]]) && takes(k)
      {
        SiblingUnpacksIff(c, s, p, missing[k], full.value[missing[k]]);
      }
      EachMissing(c, s, h, full.value, missing);
    }
  }

  lemma EachMissing(c: Codecs, s: Settings, h: Group, full: seq<Shard>, missing: seq<nat>)
    requires Recoverable(h, Some(full)) && missing == Missing(h, h.data)
    requires forall k :: 0 <= k < |missing| ==> missing[k] < |full| && Rebuilt(full[missing[k]]).Some?
    ensures (forall i :: 0 <= i < h.data && !h.Filled(i) ==> Unpacks(c, s, full[i]))
       <==> forall k :: 0 <= k < |missing| ==> Unpacks(c, s, full[missing[k]])
  {
    assert forall k :: 0 <= k < |missing| ==> missing[k] in missing;
    if forall k :: 0 <= k < |missing| ==> Unpacks(c, s, full[missing[k]]) {
      forall i | 0 <= i < h.data && !h.Filled(i) ensures Unpacks(c, s, full[i]) {
        assert i in missing;
        var k :| 0 <= k < |missing| && missing[k] == i;
      }
    }
  }

  /** How many rebuilt originals are passed up before the one that arrived. */
  function Ahead(s: Settings, h: Group, full: Option<seq<Shard>>): nat {
    if s.fec then |Siblings(h, full)| else 0
  }

  /** The round trip: what was sent comes out with its header and payload unchanged, whatever became
      of the time-to-live byte on the way, whether or not it was compressed, wrapped or encrypted.  An
      original whose index was not seen before is lost exactly if it is out of range, if its arrival
      sets off a reconstruction that fails, or if one of the originals rebuilt with it, which are
      passed up before it, cannot be decompressed or is refused above. */
  lemma PipelineRoundTripIff(c: Codecs, s: Settings, takes: nat -> bool, b: Packet, groupId: nat, index: nat, ttl: bv8,
                             g: Group, now: nat, full: Option<seq<Shard>>)
    requires Inverse(c) && !HasFlag(b, COMPRESSED) && !HasFlag(b, FEC)
    requires Outbound(c, s, b, groupId, index).Ok?
    requires s.fec ==> !g.IsDone() && !g.Filled(index)
    ensures var h := GroupWith(c, s, b, groupId, index, g, now);
      var r := Inbound(c, s, takes, Outbound(c, s, b, groupId, index).value[1 := ttl], g, now, full);
      var n := Ahead(s, h, full);
      && |r.packets| <= n + 1
      && (|r.packets| > n <==> (s.fec ==> ComesUp(c, s, takes, h, index, full)))
      && (|r.packets| > n ==> r.packets[n] == b[1 := ttl])
  {
    var p := Compressed(c, s, b);
    var w := if s.fec then Wrapped(c, p, groupId, index) else p;
    DecryptUndoesEncrypt(c, s, w, ttl);
    DecompressUndoesCompress(c, s, b, ttl);
    if s.fec {
      UnwrapUndoesWrap(c, p, groupId, index, ttl);
      OriginalComesUpIff(c, s, takes, b, groupId, index, ttl, g, now, full);
    } else {
      LastIsReachedIff(c, s, takes, [], p[1 := ttl]);
      assert [] + [p[1 := ttl]] == [p[1 := ttl]];
    }
  }

  /** The part of the round trip behind decryption, for a wrapped packet. */
  lemma OriginalComesUpIff(c: Codecs, s: Settings, takes: nat -> bool, b: Packet, groupId: nat, index: nat, ttl: bv8,
                           g: Group, now: nat, full: Option<seq<Shard>>)
    requires Inverse(c) && !HasFlag(b, COMPRESSED) && !HasFlag(b, FEC)
    requires !g.IsDone() && !g.Filled(index)
    ensures var p, h := Compressed(c, s, b), GroupWith(c, s, b, groupId, index, g, now);
      var w, x := Wrapped(c, p, groupId, index)[1 := ttl], FecPacket(index, Payload(p), None);
      var d := FecGroups.Receive(g, x, BatchData(w[0], w[2], x.payload), now, full).1;
      && (d.Ok? <==> StoresSafely(h, full))
      && (d.Ok? ==>
            var r, n := PassUp(c, s, takes, PacketsOf(w, d.value)), |Siblings(h, full)|;
            && |r.packets| <= n + 1
            && (|r.packets| > n <==> SiblingsPass(c, s, takes, h, full))
            && (|r.packets| > n ==> r.packets[n] == b[1 := ttl]))
  {
    var p, h := Compressed(c, s, b), GroupWith(c, s, b, groupId, index, g, now);
    var w, x := Wrapped(c, p, groupId, index)[1 := ttl], FecPacket(index, Payload(p), None);
    DecompressUndoesCompress(c, s, b, ttl);
    UnwrapUndoesWrap(c, p, groupId, index, ttl);
    OriginalHandedOutIff(g, x, BatchData(w[0], w[2], x.payload), now, full);
    if StoresSafely(h, full) {
      var own := Delivery(index, None, Payload(p));
      assert PacketsOf(w, Siblings(h, full) + [own]) == PacketsOf(w, Siblings(h, full)) + [PacketOf(w, own)];
      assert PacketOf(w, own) == p[1 := ttl];
      BehindSiblingsIff(c, s, takes, w, h, full, p[1 := ttl]);
    }
  }

  /** A packet behind the rebuilt ones is passed up if and only if they all are. */
  lemma BehindSiblingsIff(c: Codecs, s: Settings, takes: nat -> bool, w: Packet, h: Group, full: Option<seq<Shard>>,
                          x: Packet)
    requires StoresSafely(h, full) && Decompressed(c, s, x).Ok?
    ensures var r, n := PassUp(c, s, takes, PacketsOf(w, Siblings(h, full)) + [x]), |Siblings(h, full)|;
      && |r.packets| <= n + 1
      && (|r.packets| > n <==> SiblingsPass(c, s, takes, h, full))
      && (|r.packets| > n ==> r.packets[n] == Decompressed(c, s, x).value)
  {
    LastIsReachedIff(c, s, takes, PacketsOf(w, Siblings(h, full)), x);
    SiblingsPassIff(c, s, takes, w, h, full);
  }

  /** An intact original lost to a rebuilt one: of a batch of two, the second is rebuilt when the first
      arrives, with flags that call it compressed and a content that cannot be decompressed.  The group
      hands out both, the receiver passes up neither. */
  lemma SiblingCostsAnOriginal(c: Codecs, encryption: bool, takes: nat -> bool, b: Packet, groupId: nat, ttl: bv8,
                               shard: Shard, bad: bv8)
    requires Inverse(c) && !HasFlag(b, COMPRESSED) && !HasFlag(b, FEC) && |Payload(b)| < MIN_COMPRESS
    requires c.unpack([bad]).None?
    ensures var s, g := Settings(true, encryption, true), Group(2, 1, 0, [None, None, Some(shard)], 0);
      var full := Some([shard, [0x81, 0x80, 0, 1, bad], shard]);
      && Outbound(c, s, b, groupId, 0).Ok?
      && StoresSafely(GroupWith(c, s, b, groupId, 0, g, 0), full)
      && Inbound(c, s, takes, Outbound(c, s, b, groupId, 0).value[1 := ttl], g, 0, full).packets == []
  {
    var s, g := Settings(true, encryption, true), Group(2, 1, 0, [None, None, Some(shard)], 0);
    var full := Some([shard, [0x81, 0x80, 0, 1, bad], shard]);
    var w, h := Wrapped(c, b, groupId, 0)[1 := ttl], GroupWith(c, s, b, groupId, 0, g, 0);
    OneIsRebuilt(h, full.value, bad);
    DecryptUndoesEncrypt(c, s, Wrapped(c, b, groupId, 0), ttl);
    UnwrapUndoesWrap(c, b, groupId, 0, ttl);
    OriginalHandedOutIff(g, FecPacket(0, Payload(b), None), BatchData(w[0], w[2], Payload(b)), 0, full);
    BadSiblingStops(c, s, takes, w, full.value[1], Delivery(0, None, Payload(b)));
  }

  lemma BadSiblingStops(c: Codecs, s: Settings, takes: nat -> bool, p: Packet, shard: Shard, own: Delivery)
    requires Rebuilt(shard).Some? && !Unpacks(c, s, shard)
    ensures PassUp(c, s, takes, PacketsOf(p, [Restored(1, shard)] + [own])).packets == []
  {
    SiblingUnpacksIff(c, s, p, 1, shard);
    FirstStops(c, s, takes, PacketsOf(p, [Restored(1, shard)] + [own]));
  }

  lemma OneIsRebuilt(h: Group, full: seq<Shard>, bad: bv8)
    requires |h.slots| == |full| == 3 && h.data == 2 && h.parity == 1 && h.originals == 1
    requires h.slots[0].Some? && h.slots[1].None? && h.slots[2].Some? && full[1] == [0x81, 0x80, 0, 1, bad]
    ensures Rebuilt(full[1]) == Some([bad]) && StoresSafely(h, Some(full))
    ensures Siblings(h, Some(full)) == [Restored(1, full[1])]
  {
    ShardOfOne(full[1], bad);
    OneIsMissing(h);
    RebuiltAllIff(full, [1]);
    RebuiltAllAt(full, [1]);
  }

  lemma ShardOfOne(x: Shard, y: bv8)
    requires |x| == 5 && x[2] == 0 && x[3] == 1 && x[4] == y
    ensures Rebuilt(x) == Some([y])
  {
    ByteValueIsItsNumber(0);
    ByteValueIsItsNumber(1);
    assert Announced(x) == 1;
    assert x[4..5] == [y];
  }

  lemma OneIsMissing(h: Group)
    requires |h.slots| == 3 && h.data == 2 && h.originals == 1
    requires h.slots[0].Some? && h.slots[1].None? && h.slots[2].Some?
    ensures SetsOff(h) && Missing(h, h.data) == [1]
  {
    CountOfThree(h.slots);
    assert h.Filled(0) && !h.Filled(1);
    assert Missing(h, 1) == Missing(h, 0);
  }

  /** A rebuilt original comes out with its own content if and only if its reconstructed flags tell
      rightly whether the content is compressed, or it decompresses to itself. */
  lemma RebuiltContentIff(c: Codecs, s: Settings, b: Packet, p: Packet, i: nat, shard: Shard)
    requires Inverse(c) && !HasFlag(b, COMPRESSED)
    requires Rebuilt(shard) == Some(Payload(Compressed(c, s, b)))
    ensures var q, r := Compressed(c, s, b), Decompressed(c, s, PacketOf(p, Restored(i, shard)));
      (r.Ok? && Payload(r.value) == Payload(b)) <==>
        || !s.compression
        || (shard[1] & COMPRESSED == q[2] & COMPRESSED)
        || (!HasFlag(q, COMPRESSED) && c.unpack(Payload(b)) == Some(Payload(b)))
  {
    SiblingFields(p, shard[0], shard[1], Rebuilt(shard).value);
    FlagSetAndClear(b[2], COMPRESSED);
    CompressedBit(shard[1], Compressed(c, s, b)[2]);
  }

  lemma CompressedBit(x: bv8, y: bv8)
    ensures x & COMPRESSED == y & COMPRESSED <==> (x & COMPRESSED != 0 <==> y & COMPRESSED != 0)
  {
  }

  /** Type, time-to-live and addresses are the same. */
  predicate SameHeader(a: Packet, b: Packet) {
    a[0] == b[0] && a[1] == b[1] && SrcId(a) == SrcId(b) && DestId(a) == DestId(b)
  }

  lemma StageKeepsHeader(b: Packet, payload: Bytes, mask: bv8, on: bool)
    ensures SameHeader(WithPayload(b, payload), b) && SameHeader(SetFlag(WithPayload(b, payload), mask, on), b)
  {
  }

  /** Nothing on the way out touches type, time-to-live or addresses. */
  lemma HeaderSurvives(c: Codecs, s: Settings, b: Packet, groupId: nat, index: nat)
    requires Outbound(c, s, b, groupId, index).Ok?
    ensures SameHeader(Outbound(c, s, b, groupId, index).value, b)
  {
    var p := Compressed(c, s, b);
    StageKeepsHeader(b, c.pack(Payload(b)), COMPRESSED, true);
    var w := Wrapped(c, p, groupId, index);
    StageKeepsHeader(p, c.write(FecWire(groupId, FecPacket(index, Payload(p), None))), FEC, true);
    var q := if s.fec then w else p;
    StageKeepsHeader(q, c.seal(Nonce(q), Payload(q)), FEC, true);
  }

  // ----- a packet from the device

  /** The header an outgoing device packet gets: a relayed packet with five steps to live. */
  function Addressed(b: Packet, src: Address, dest: Address): Packet {
    SetIds(SetTtl(SetMsgType(b, TURN), 5), src, dest)
  }

  function FromDevice(data: Bytes, src: Address, dest: Address): Packet {
    Addressed(seq(HEAD_LENGTH, _ => 0) + data, src, dest)
  }

  lemma FromDeviceFields(data: Bytes, src: Address, dest: Address)
    ensures var b := FromDevice(data, src, dest);
      && MsgType(b) == TURN && Ttl(b) == 5 && MaxTtl(b) == 5
      && !HasFlag(b, COMPRESSED) && !HasFlag(b, FEC)
      && SrcId(b) == src && DestId(b) == dest && Payload(b) == data
  {
    var b := FromDevice(data, src, dest);
    assert b[1] == 0x55 && b[2] == 0;
  }

  /** The bytes of the packet before any transformation. */
  lemma FromDeviceBytes(data: Bytes, src: Address, dest: Address)
    ensures FromDevice(data, src, dest) == [0x81, 0x55, 0, 0, 0, 0, 0, 0] + src + dest + data
  {
    var blank: Packet := seq(HEAD_LENGTH, _ => 0) + data;
    var x := SetTtl(SetMsgType(blank, TURN), 5);
    assert x[..8] == [0x81, 0x55, 0, 0, 0, 0, 0, 0];
    assert x[16..] == data;
  }

  /** From device to device: data read behind a zeroed header reaches its addressee if and only if it
      passes at most four relays, and no client, neither relay nor addressee, when sent to its own
      sender; it then comes out as a relayed packet with the same source, destination and content if
      and only if error correction hands it out and no original rebuilt with it stops the receiver. */
  lemma DeviceToDevice(c: Codecs, s: Settings, takes: nat -> bool, data: Bytes, src: Address, dest: Address,
                       groupId: nat, index: nat, hops: seq<Hop>, fromPeer: bool, g: Group, now: nat,
                       full: Option<seq<Shard>>)
    requires Inverse(c) && Outbound(c, s, FromDevice(data, src, dest), groupId, index).Ok?
    requires s.fec ==> !g.IsDone() && !g.Filled(index)
    ensures var b := FromDevice(data, src, dest);
      var arrived := Journey(Outbound(c, s, b, groupId, index).value, hops, fromPeer);
      && (arrived.Some? <==> |hops| <= 4 && (src == dest ==> !fromPeer && ClientHop !in hops))
      && (arrived.Some? ==>
            var h := GroupWith(c, s, b, groupId, index, g, now);
            var r, n := Inbound(c, s, takes, arrived.value, g, now, full), Ahead(s, h, full);
            && |r.packets| <= n + 1
            && (|r.packets| > n <==> (s.fec ==> ComesUp(c, s, takes, h, index, full)))
            && (|r.packets| > n ==> IsTurn(r.packets[n], src, dest, data)))
  {
    var b := FromDevice(data, src, dest);
    var sent := Outbound(c, s, b, groupId, index).value;
    FromDeviceFields(data, src, dest);
    HeaderSurvives(c, s, b, groupId, index);
    JourneyChangesTtl(sent, hops, fromPeer);
    var arrived := Journey(sent, hops, fromPeer);
    if arrived.Some? {
      PipelineRoundTripIff(c, s, takes, b, groupId, index, arrived.value[1], g, now, full);
      TtlAlone(b, arrived.value[1]);
    }
  }

  predicate IsTurn(b: Packet, src: Address, dest: Address, data: Bytes) {
    MsgType(b) == TURN && SrcId(b) == src && DestId(b) == dest && Payload(b) == data
  }

  /** Some relays, then the addressee. */
  function Journey(b: Packet, hops: seq<Hop>, fromPeer: bool): Option<Packet> {
    match RelayAll(b, hops)
    case None => None
    case Some(c) => Accept(c, fromPeer)
  }

  lemma JourneyChangesTtl(b: Packet, hops: seq<Hop>, fromPeer: bool)
    requires Ttl(b) == MaxTtl(b) == 5
    ensures var r := Journey(b, hops, fromPeer);
      && (r.Some? <==> |hops| <= 4 && (SrcId(b) == DestId(b) ==> !fromPeer && ClientHop !in hops))
      && (r.Some? ==> r.value == b[1 := r.value[1]])
  {
    RelaysChangeTtl(b, hops);
    if RelayAll(b, hops).Some? {
      AcceptChangesTtl(RelayAll(b, hops).value, fromPeer);
    }
  }

  lemma RelaysChangeTtl(b: Packet, hops: seq<Hop>)
    requires Ttl(b) == MaxTtl(b) == 5
    ensures var r := RelayAll(b, hops);
      && (r.Some? <==> |hops| <= 4 && (SrcId(b) == DestId(b) ==> ClientHop !in hops))
      && (r.Some? ==> r.value == b[1 := r.value[1]] && 1 <= Ttl(r.value) <= MaxTtl(r.value))
  {
    PathsEnd(b, hops);
    assert (Ttl(b) as nat) == 5 && (MaxTtl(b) as nat) == 5;
    assert forall i: nat :: PassesClient(b, i) <==> SrcId(b) != DestId(b);
  }

  lemma AcceptChangesTtl(b: Packet, fromPeer: bool)
    requires 1 <= Ttl(b) <= MaxTtl(b)
    ensures var r := Accept(b, fromPeer);
      && (r.Some? <==> !fromPeer || SrcId(b) != DestId(b))
      && (r.Some? ==> r.value == b[1 := r.value[1]])
  {
    LoweredTtl(b[1]);
    BvPredecessor(Ttl(b));
  }

  lemma TtlAlone(b: Packet, ttl: bv8)
    ensures var a := b[1 := ttl];
      MsgType(a) == MsgType(b) && SrcId(a) == SrcId(b) && DestId(a) == DestId(b) && Payload(a) == Payload(b)
  {
  }

  // ----- the two ends store different shards

  /** What the sender feeds to Reed-Solomon for a packet. */
  function SenderShard(b: Packet): Shard {
    BatchData(b[0], b[2], Payload(b))
  }

  /** The receiver stores the same packet with the flags it arrived with, so the two shards agree if
      and only if the error-correction flag was set before the packet was wrapped, which no sender
      does; they differ in that one bit of the flags byte. */
  lemma ReceiverShardAgreesIff(c: Codecs, b: Packet, groupId: nat, index: nat)
    ensures var w := Wrapped(c, b, groupId, index);
      var stored := BatchData(w[0], w[2], Payload(b));
      && (stored == SenderShard(b) <==> HasFlag(b, FEC))
      && stored == SenderShard(b)[1 := b[2] | FEC]
  {
    var w := Wrapped(c, b, groupId, index);
    var stored := BatchData(w[0], w[2], Payload(b));
    assert stored[1] == b[2] | FEC && SenderShard(b)[1] == b[2];
    FlagAlreadySet(b[2]);
  }

  lemma FlagAlreadySet(x: bv8)
    ensures x | FEC == x <==> x & FEC != 0
  {
  }
}
