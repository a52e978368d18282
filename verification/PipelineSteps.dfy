/** The wire pipeline on the offset buffer: the steps of `Pipeline` as they are carried out in place. */
module PipelineSteps {
  import opened Base
  import opened Packets
  import opened Transmission
  import opened FecGroups
  import opened Pipeline

  method CompressInPlace(c: Codecs, s: Settings, p: TransmissionBytes, reserve: nat) returns (q: TransmissionBytes)
    requires p.Valid() && |p.View()| >= HEAD_LENGTH
    ensures (q == p || fresh(q)) && q.Valid() && q.View() == Compressed(c, s, p.View())
  {
    q := p;
    if !s.compression || |Payload(p.View())| < MIN_COMPRESS { return; }
    var compressed := c.pack(Payload(p.View()));
    if |compressed| >= |Payload(p.View())| { return; }
    q := new TransmissionBytes.ZeroedSize(HEAD_LENGTH + |compressed|, reserve);
    q.CopyIn(0, p.View()[..HEAD_LENGTH]);
    q.CopyIn(HEAD_LENGTH, compressed);
    assert q.View() == WithPayload(p.View(), compressed);
    q.SetHead(SetFlag(q.View(), COMPRESSED, true));
  }

  method WrapInPlace(c: Codecs, p: TransmissionBytes, groupId: nat, index: nat)
    requires p.Valid() && |p.View()| >= HEAD_LENGTH
    modifies p
    ensures p.Valid() && p.View() == Wrapped(c, old(p.View()), groupId, index)
  {
    var payload := c.write(FecWire(groupId, FecPacket(index, Payload(p.View()), None)));
    ghost var before := p.View();
    p.Resize(HEAD_LENGTH + |payload|, 0);
    assert p.View()[..HEAD_LENGTH] == before[..HEAD_LENGTH];
    p.CopyIn(HEAD_LENGTH, payload);
    assert p.View() == WithPayload(before, payload);
    p.SetHead(SetFlag(p.View(), FEC, true));
  }

  /** Makes room for the tag, then encrypts payload and room together. */
  method EncryptInPlace(c: Codecs, s: Settings, p: TransmissionBytes)
    requires Inverse(c) && p.Valid() && |p.View()| >= HEAD_LENGTH
    modifies p
    ensures p.Valid() && p.View() == Encrypted(c, s, old(p.View()))
  {
    if s.encryption {
      ghost var before := p.View();
      var len := |p.View()|;
      p.ExtendEnd(TAG_LEN);
      assert p.View()[..len] == before;
      assert Nonce(p.View()) == Nonce(before);
      var sealed := c.seal(Nonce(p.View()), p.View()[HEAD_LENGTH..len]);
      p.CopyIn(HEAD_LENGTH, sealed);
      assert p.View() == WithPayload(before, sealed);
    }
  }

  method WriteHeader(data: TransmissionBytes, src: Address, dest: Address)
    requires data.Valid() && |data.View()| >= HEAD_LENGTH
    modifies data
    ensures data.Valid() && data.View() == Addressed(old(data.View()), src, dest)
  {
    data.SetHead(SetMsgType(data.View(), TURN));
    data.CopyIn(8, src);
    data.SetHead(SetTtl(data.View(), 5));
    data.CopyIn(12, dest);
  }

  const IPV4_HEADER := 20

  /** The virtual network's own addresses and the next hop for addresses outside it. */
  datatype Routing = Routing(inNet: Address -> bool, external: Address -> Option<Address>)

  /** The device a device packet goes to: its own destination inside the network, the next hop for one
      outside; none for a packet without an IPv4 header or without a route. */
  function Target(rt: Routing, data: Bytes): Option<Address> {
    if |data| < IPV4_HEADER then None
    else if rt.inNet(data[16..20]) then Some(data[16..20])
    else rt.external(data[16..20])
  }

  /** The whole way out: header into the head room, route, then the transformations.  A packet without
      an IPv4 header or a route is dropped silently. */
  method Ipv4Outbound(c: Codecs, s: Settings, rt: Routing, data: TransmissionBytes, src: Address, groupId: nat,
                      index: nat)
    returns (r: Result<Option<TransmissionBytes>, PipelineError>)
    requires Inverse(c) && data.Valid()
    modifies data
    ensures |old(data.View())| < IPV4_HEADER ==> r == Ok(None) && data.Valid() && data.View() == old(data.View())
    ensures |old(data.View())| >= IPV4_HEADER && old(data.start) < HEAD_LENGTH ==> r == Err(NoRoom)
    ensures |old(data.View())| >= IPV4_HEADER && old(data.start) >= HEAD_LENGTH ==>
      var to: Address := old(data.View())[16..20];
      var head := old(data.buf[data.start - HEAD_LENGTH..data.start]);
      if !rt.inNet(to) && rt.external(to).None? then r == Ok(None) else
      var dest := if rt.inNet(to) then to else rt.external(to).value;
      match Outbound(c, s, Addressed(head + old(data.View()), src, dest), groupId, index)
      case Err(e) => r == Err(e)
      case Ok(b) => r.Ok? && r.value.Some? && r.value.value.Valid() && r.value.value.View() == b
  {
    if |data.View()| < IPV4_HEADER { return Ok(None); }
    var dest := Target(rt, data.View());
    var room := data.RetreatHead(HEAD_LENGTH);
    if room.Err? { return Err(NoRoom); }
    if dest.None? { return Ok(None); }
    var q := AddressAndTransform(c, s, data, src, dest.value, groupId, index);
    match q {
      case Err(e) => r := Err(e);
      case Ok(p) => r := Ok(Some(p));
    }
  }

  method AddressAndTransform(c: Codecs, s: Settings, data: TransmissionBytes, src: Address, dest: Address, groupId: nat,
                             index: nat)
    returns (r: Result<TransmissionBytes, PipelineError>)
    requires Inverse(c) && data.Valid() && |data.View()| >= HEAD_LENGTH
    modifies data
    ensures match Outbound(c, s, Addressed(old(data.View()), src, dest), groupId, index)
            case Err(e) => r == Err(e)
            case Ok(b) => r.Ok? && r.value.Valid() && r.value.View() == b
  {
    WriteHeader(data, src, dest);
    r := Transform(c, s, data, groupId, index);
  }

  /** Compression, error correction and encryption one after the other. */
  method Transform(c: Codecs, s: Settings, data: TransmissionBytes, groupId: nat, index: nat)
    returns (r: Result<TransmissionBytes, PipelineError>)
    requires Inverse(c) && data.Valid() && |data.View()| >= HEAD_LENGTH
    modifies data
    ensures match Outbound(c, s, old(data.View()), groupId, index)
            case Err(e) => r == Err(e)
            case Ok(b) => r.Ok? && r.value.Valid() && r.value.View() == b
  {
    var p := CompressInPlace(c, s, data, if s.encryption then TAG_LEN else 0);
    if s.fec {
      if |Payload(p.View())| > MAX_PAYLOAD { return Err(PayloadTooBig); }
      WrapInPlace(c, p, groupId, index);
    }
    EncryptInPlace(c, s, p);
    return Ok(p);
  }

  /** A packet just read from the device: the header room is zeroed, so what goes out is what
      `DeviceToDevice` speaks of. */
  method SendFromDevice(c: Codecs, s: Settings, rt: Routing, data: Bytes, src: Address, groupId: nat, index: nat)
    returns (r: Result<Option<TransmissionBytes>, PipelineError>)
    requires Inverse(c)
    ensures |data| < 20 ==> r == Ok(None)
    ensures |data| >= 20 ==>
      var to: Address := data[16..20];
      if !rt.inNet(to) && rt.external(to).None? then r == Ok(None) else
      var dest := if rt.inNet(to) then to else rt.external(to).value;
      match Outbound(c, s, FromDevice(data, src, dest), groupId, index)
      case Err(e) => r == Err(e)
      case Ok(b) =>
        && r.Ok? && r.value.Some? && r.value.value.Valid() && r.value.value.View() == b
        && DestId(b) == dest && SrcId(b) == src && MsgType(b) == TURN && Ttl(b) == MaxTtl(b) == 5
  {
    var buffer := new TransmissionBytes.AfterHeadRoom(HEAD_LENGTH, data);
    assert buffer.buf[buffer.start - HEAD_LENGTH..buffer.start] == seq(HEAD_LENGTH, _ => 0);
    r := Ipv4Outbound(c, s, rt, buffer, src, groupId, index);
    if r.Ok? && r.value.Some? {
      ghost var dest := Target(rt, data).value;
      HeaderSurvives(c, s, FromDevice(data, src, dest), groupId, index);
      FromDeviceFields(data, src, dest);
    }
  }

  /** Decrypts over the payload and drops the tag's room; a failed check keeps the header and leaves
      in the payload whatever the cipher left there. */
  method DecryptInPlace(c: Codecs, s: Settings, p: TransmissionBytes) returns (r: Result<(), PipelineError>)
    requires Inverse(c) && p.Valid() && |p.View()| >= HEAD_LENGTH
    modifies p
    ensures p.Valid() && match Decrypted(c, s, old(p.View()))
                         case Err(e) => r == Err(e) && |p.View()| == |old(p.View())|
                                        && p.View()[..HEAD_LENGTH] == old(p.View())[..HEAD_LENGTH]
                         case Ok(b) => r == Ok(()) && p.View() == b
  {
    if s.encryption {
      ghost var before := p.View();
      var nonce, sealed := Nonce(p.View()), Payload(p.View());
      var plain := c.open(nonce, sealed);
      if plain.None? {
        p.CopyIn(HEAD_LENGTH, c.spoil(nonce, sealed));
        return Err(DecryptFailed);
      }
      p.CopyIn(HEAD_LENGTH, plain.value);
      p.ShrinkEnd(TAG_LEN);
      assert p.View() == WithPayload(before, plain.value);
    }
    return Ok(());
  }

  method DecompressInPlace(c: Codecs, s: Settings, p: TransmissionBytes)
    returns (r: Result<TransmissionBytes, PipelineError>)
    requires p.Valid() && |p.View()| >= HEAD_LENGTH
    ensures match Decompressed(c, s, p.View())
            case Err(e) => r == Err(e)
            case Ok(b) => r.Ok? && r.value.Valid() && r.value.View() == b
  {
    if !s.compression || !HasFlag(p.View(), COMPRESSED) { return Ok(p); }
    var plain := c.unpack(Payload(p.View()));
    if plain.None? { return Err(DecompressFailed); }
    var q := new TransmissionBytes.ZeroedSize(HEAD_LENGTH + |plain.value|, 0);
    q.CopyIn(0, p.View()[..HEAD_LENGTH]);
    q.CopyIn(HEAD_LENGTH, plain.value);
    assert q.View() == WithPayload(p.View(), plain.value);
    q.SetHead(SetFlag(q.View(), COMPRESSED, false));
    return Ok(q);
  }

  lemma {:induction false} StopIsFinal(c: Codecs, s: Settings, takes: nat -> bool, ps: seq<Packet>, k: nat)
    requires k <= |ps| && PassUp(c, s, takes, ps[..k]).stop.Some?
    ensures PassUp(c, s, takes, ps) == PassUp(c, s, takes, ps[..k])
  {
    if k < |ps| {
      assert ps[..|ps| - 1][..k] == ps[..k];
      StopIsFinal(c, s, takes, ps[..|ps| - 1], k);
    } else {
      assert ps[..k] == ps;
    }
  }

  method PassNextInPlace(c: Codecs, s: Settings, takes: nat -> bool, before: Passed, k: nat, p: TransmissionBytes)
    returns (r: Passed)
    requires p.Valid() && |p.View()| >= HEAD_LENGTH
    ensures r == PassNext(c, s, takes, before, k, p.View())
  {
    var q := DecompressInPlace(c, s, p);
    match q {
      case Err(e) => r := Passed(before.packets, Some(e));
      case Ok(x) => r := Passed(before.packets + [x.View()], if takes(k) then None else Some(NotTaken));
    }
  }

  lemma PassUpNext(c: Codecs, s: Settings, takes: nat -> bool, ps: seq<Packet>, k: nat)
    requires k < |ps| && PassUp(c, s, takes, ps[..k]).stop.None?
    ensures PassUp(c, s, takes, ps[..k + 1]) == PassNext(c, s, takes, PassUp(c, s, takes, ps[..k]), k, ps[k])
  {
    assert ps[..k + 1][..k] == ps[..k];
  }

  /** The receive loop: decompresses and passes up one packet after the other until one fails. */
  method PassUpEach(c: Codecs, s: Settings, takes: nat -> bool, ps: seq<TransmissionBytes>, ghost views: seq<Packet>)
    returns (r: Passed)
    requires |views| == |ps| && forall k :: 0 <= k < |ps| ==> ps[k].Valid() && ps[k].View() == views[k]
    ensures r == PassUp(c, s, takes, views)
  {
    r := Passed([], None);
    for k := 0 to |ps|
      invariant r == PassUp(c, s, takes, views[..k]) && r.stop.None?
    {
      PassUpNext(c, s, takes, views, k);
      r := PassNextInPlace(c, s, takes, r, k, ps[k]);
      if r.stop.Some? {
        StopIsFinal(c, s, takes, views, k + 1);
        return;
      }
    }
    assert views[..|ps|] == views;
  }
}
