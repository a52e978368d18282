/** The 16-byte packet header and the life of a packet on its way. */
module Packets {
  import opened Base

  type Bytes = seq<bv8>

  const HEAD_LENGTH := 16
  const COMPRESSED: bv8 := 0x80
  const FEC: bv8 := 0x20

  const TURN: bv8 := 1

  type Address = b: Bytes | |b| == 4 witness [0, 0, 0, 0]

  type Packet = b: Bytes | |b| >= HEAD_LENGTH witness seq(HEAD_LENGTH, _ => 0)

  // ----- header fields

  function MsgType(b: Packet): bv8 {
    b[0] & 0x7F
  }

  function MaxTtl(b: Packet): bv8 {
    b[1] >> 4
  }

  function Ttl(b: Packet): bv8 {
    b[1] & 0x0F
  }

  predicate HasFlag(b: Packet, mask: bv8) {
    b[2] & mask != 0
  }

  function SrcId(b: Packet): Address {
    b[8..12]
  }

  function DestId(b: Packet): Address {
    b[12..16]
  }

  function Payload(b: Packet): Bytes {
    b[HEAD_LENGTH..]
  }

  function SetMsgType(b: Packet, t: bv8): Packet {
    b[0 := (t & 0x7F) | 0x80]
  }

  function SetTtl(b: Packet, t: bv8): Packet {
    b[1 := (t << 4) | (t & 0x0F)]
  }

  function SetFlag(b: Packet, mask: bv8, on: bool): Packet {
    b[2 := if on then b[2] | mask else b[2] & !mask]
  }

  function SetIds(b: Packet, src: Address, dest: Address): Packet {
    b[..8] + src + dest + b[16..]
  }

  function WithPayload(b: Packet, payload: Bytes): Packet {
    b[..HEAD_LENGTH] + payload
  }

  /** The nonce: type byte, rest of the sequence number, destination, source.  It leaves out the
      time-to-live and the flags, which change on the way. */
  function Nonce(b: Packet): Bytes {
    [b[0]] + b[5..8] + b[12..16] + b[8..12]
  }

  /** Two packets are encrypted under the same nonce if and only if their type bytes, addresses and
      24-bit sequence numbers agree. */
  lemma NonceSharedIff(a: Packet, b: Packet)
    ensures Nonce(a) == Nonce(b) <==>
      a[0] == b[0] && a[5] == b[5] && a[6] == b[6] && a[7] == b[7] && SrcId(a) == SrcId(b) && DestId(a) == DestId(b)
    ensures |Nonce(a)| == 12
  {
    if Nonce(a) == Nonce(b) {
      assert a[0] == Nonce(a)[0] && a[5] == Nonce(a)[1] && a[6] == Nonce(a)[2] && a[7] == Nonce(a)[3];
      assert DestId(a) == Nonce(a)[4..8] && SrcId(a) == Nonce(a)[8..12];
      assert DestId(b) == Nonce(b)[4..8] && SrcId(b) == Nonce(b)[8..12];
      assert b[0] == Nonce(b)[0] && b[5] == Nonce(b)[1] && b[6] == Nonce(b)[2] && b[7] == Nonce(b)[3];
    }
  }

  // ----- time to live

  /** A client lowers the current value down to zero. */
  function ClientDecr(b: Packet): Packet {
    if Ttl(b) == 0 then b else b[1 := (b[1] & 0xF0) | (Ttl(b) - 1)]
  }

  /** A server lowers it too, but drops the packet instead of lowering one to zero. */
  function ServerDecr(b: Packet): Option<Packet> {
    if Ttl(b) <= 1 then None else Some(b[1 := (b[1] & 0xF0) | (Ttl(b) - 1)])
  }

  /** How a packet is passed on: by a client, by a server to its own client, or by a server to a
      peer server, which delivers to its own client and never passes the packet on to a server. */
  datatype Hop = ClientHop | ServerHop | FederatedHop

  function Relay(b: Packet, h: Hop): Option<Packet> {
    match h
    case ClientHop =>
      var c := ClientDecr(b);
      if SrcId(b) == DestId(b) || MaxTtl(c) <= Ttl(c) || Ttl(c) == 0 then None else Some(c)
    case ServerHop => ServerDecr(b)
    case FederatedHop => ServerDecr(b)
  }

  /** The addressee's own look at a packet that came straight from a peer; a packet from a server is
      taken as it is. */
  function Accept(b: Packet, fromPeer: bool): Option<Packet> {
    if !fromPeer then Some(b) else
    var c := ClientDecr(b);
    if SrcId(b) == DestId(b) || MaxTtl(c) <= Ttl(c) then None else Some(c)
  }

  function RelayAll(b: Packet, hops: seq<Hop>): Option<Packet>
    decreases |hops|
  {
    if hops == [] then Some(b) else
    match Relay(b, hops[0])
    case None => None
    case Some(c) => RelayAll(c, hops[1..])
  }

  lemma LoweredTtl(x: bv8)
    requires x & 0x0F != 0
    ensures var y := (x & 0xF0) | ((x & 0x0F) - 1);
      y & 0x0F == (x & 0x0F) - 1 && y >> 4 == x >> 4
  {
  }

  lemma BvPredecessor(x: bv8)
    requires x != 0
    ensures (x - 1) as nat == x as nat - 1
  {
  }

  /** What a hop asks of a packet besides two steps to live: a client passes on only what is not
      addressed to its own sender and has more steps in the maximum than it will have left. */
  predicate PassesClient(b: Packet, used: nat) {
    SrcId(b) != DestId(b) && Ttl(b) as nat <= MaxTtl(b) as nat + used
  }

  /** The header's part in passing a packet on; a client also asks for a known type, an addressee
      other than itself and no broadcast, and a route.  Whatever the hop, a packet that is passed on
      differs in its current time-to-live only, which is one less and still positive; its header lets
      it pass exactly if it had two steps left and, at a client, passes the client's checks. */
  lemma RelayLowersTtl(b: Packet, h: Hop)
    ensures Relay(b, h).Some? <==> Ttl(b) >= 2 && (h == ClientHop ==> PassesClient(b, 0))
    ensures Relay(b, h).Some? ==> var c := Relay(b, h).value;
      c == b[1 := c[1]] && MaxTtl(c) == MaxTtl(b) && Ttl(c) as nat == Ttl(b) as nat - 1
  {
    if Ttl(b) != 0 {
      LoweredTtl(b[1]);
      BvPredecessor(Ttl(b));
    }
  }

  /** Every path ends: a packet with current time-to-live T survives a path of relays if and only if
      the path is empty or shorter than T and the packet passes the checks of each client where it
      meets it; only the current time-to-live has changed. */
  lemma {:induction false} PathsEnd(b: Packet, hops: seq<Hop>)
    ensures RelayAll(b, hops).Some? <==>
      && (hops == [] || |hops| < Ttl(b) as nat)
      && forall i :: 0 <= i < |hops| && hops[i] == ClientHop ==> PassesClient(b, i)
    ensures RelayAll(b, hops).Some? ==> var c := RelayAll(b, hops).value;
      c == b[1 := c[1]] && MaxTtl(c) == MaxTtl(b) && Ttl(c) as nat == Ttl(b) as nat - |hops|
    decreases |hops|
  {
    if hops != [] {
      RelayLowersTtl(b, hops[0]);
      if Relay(b, hops[0]).Some? {
        var c, rest := Relay(b, hops[0]).value, hops[1..];
        PathsEnd(c, rest);
        assert forall i :: 0 <= i < |rest| ==> (PassesClient(c, i) <==> PassesClient(b, i + 1));
        assert forall i :: 0 < i < |hops| ==> hops[i] == rest[i - 1];
      }
    }
  }

  /** What the receiving client measures. */
  function Metric(b: Packet): nat
    requires Ttl(ClientDecr(b)) <= MaxTtl(ClientDecr(b))
  {
    MaxTtl(ClientDecr(b)) as nat - Ttl(ClientDecr(b)) as nat
  }

  lemma FreshTtl(b: Packet, t: bv8)
    requires 1 <= t <= 15
    ensures MaxTtl(SetTtl(b, t)) == t && Ttl(SetTtl(b, t)) == t
  {
  }

  /** A packet sent with any time-to-live from 1 to 15 arrives with a metric of one more than the
      number of relays it passed. */
  lemma MetricCountsRelays(b: Packet, t: bv8, hops: seq<Hop>)
    requires 1 <= t <= 15 && RelayAll(SetTtl(b, t), hops).Some?
    ensures var c := RelayAll(SetTtl(b, t), hops).value;
      Ttl(ClientDecr(c)) <= MaxTtl(ClientDecr(c)) && Metric(c) == |hops| + 1
  {
    FreshTtl(b, t);
    PathsEnd(SetTtl(b, t), hops);
    var c := RelayAll(SetTtl(b, t), hops).value;
    LoweredTtl(c[1]);
    BvPredecessor(Ttl(c));
  }

  // ----- where a unicast packet can be

  /** With a client on a peer-to-peer route, with the sender's server, with a peer server, or with a
      client that got it from a server. */
  datatype Place = Peer | Server | PeerServer | Delivered

  /** One transmission.  Clients pass on peer-to-peer packets only, and only to peers; a server hands
      a packet to its own client or to one peer server, which hands it, untouched, to its own client. */
  predicate Moves(p: Place, b: Packet, q: Place, c: Packet) {
    match p
    case Peer => q == Peer && Relay(b, ClientHop) == Some(c)
    case Server => (q == PeerServer || q == Delivered) && ServerDecr(b) == Some(c)
    case PeerServer => q == Delivered && c == b
    case Delivered => false
  }

  predicate IsPath(path: seq<(Place, Packet)>) {
    forall i :: 0 <= i < |path| - 1 ==> Moves(path[i].0, path[i].1, path[i + 1].0, path[i + 1].1)
  }

  /** Every unicast path is finite, whatever its header says: from client to client at most one move
      less than the time-to-live, from a server at most two, and none if that is below two. */
  lemma {:induction false} PathBound(path: seq<(Place, Packet)>)
    requires path != [] && IsPath(path)
    ensures path[0].0 == Peer && |path| > 1 ==> |path| <= Ttl(path[0].1) as nat
    ensures path[0].0 == Server ==> |path| <= (if Ttl(path[0].1) <= 1 then 1 else 3)
    ensures path[0].0 == PeerServer ==> |path| <= 2
    ensures path[0].0 == Delivered ==> |path| == 1
    decreases |path|
  {
    if |path| > 1 {
      var b := path[0].1;
      assert Moves(path[0].0, b, path[1].0, path[1].1);
      RelayLowersTtl(b, ClientHop);
      var rest := path[1..];
      forall i | 0 <= i < |rest| - 1 ensures Moves(rest[i].0, rest[i].1, rest[i + 1].0, rest[i + 1].1) {
        assert rest[i] == path[i + 1] && rest[i + 1] == path[i + 2];
      }
      PathBound(rest);
    }
  }
}
