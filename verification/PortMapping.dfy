/** Port mappings as text: "protocol://source-virtual_ip-host:port".

How socket addresses and IPv4 addresses print and parse is the standard library's business and a
parameter here; what is assumed of it is that parsing undoes printing and that no '-' is printed. */
module PortMappings {
  import opened Base

  const TCP := 6
  const UDP := 17

  type SocketAddr = (Ip, nat)

  datatype PortMapping = PortMapping(
    protocol: nat, srcAddr: SocketAddr, virtualTargetIp: Ip, dstHost: string, dstPort: nat)

  datatype ParseError =
    | MissingScheme | UnknownProtocol | InvalidSrcAddr | MissingVirtualIp | InvalidVirtualIp
    | MissingDestination | MissingPort | InvalidPort | PortZero

  datatype AddrText = AddrText(
    showSocket: SocketAddr -> string, readSocket: string -> Option<SocketAddr>,
    showIp: Ip -> string, readIp: string -> Option<Ip>)

  ghost predicate Faithful(x: AddrText) {
    && (forall a :: x.readSocket(x.showSocket(a)) == Some(a) && '-' !in x.showSocket(a))
    && (forall ip: Ip :: x.readIp(x.showIp(ip)) == Some(ip) && '-' !in x.showIp(ip))
  }

  // ----- decimal numbers

  function Digit(d: nat): char
    requires d < 10
  {
    '0' + d as char
  }

  function Decimal(n: nat): (s: string)
    ensures |s| > 0 && forall c :: c in s ==> '0' <= c <= '9'
  {
    if n < 10 then [Digit(n)] else Decimal(n / 10) + [Digit(n % 10)]
  }

  /** The number a string of digits denotes; none for an empty string or another character. */
  function ReadDigits(s: string): Option<nat> {
    if s == [] then None else
    var c := s[|s| - 1];
    if !('0' <= c <= '9') then None
    else if |s| == 1 then Some((c - '0') as nat)
    else match ReadDigits(s[..|s| - 1])
      case None => None
      case Some(n) => Some(10 * n + (c - '0') as nat)
  }

  /** A 16-bit number, with an optional plus sign. */
  function ReadPort(s: string): Option<nat> {
    var digits := if s != [] && s[0] == '+' then s[1..] else s;
    match ReadDigits(digits)
    case None => None
    case Some(n) => if n <= 0xFFFF then Some(n) else None
  }

  lemma {:induction false} ReadUndoesDecimal(n: nat)
    ensures ReadDigits(Decimal(n)) == Some(n)
  {
    if n >= 10 {
      ReadUndoesDecimal(n / 10);
      assert Decimal(n)[..|Decimal(n)| - 1] == Decimal(n / 10);
    }
  }

  lemma ReadUndoesPort(n: nat)
    requires n <= 0xFFFF
    ensures ReadPort(Decimal(n)) == Some(n)
  {
    ReadUndoesDecimal(n);
    assert Decimal(n)[0] in Decimal(n);
  }

  // ----- splitting

  /** Around the first occurrence of the separator. */
  function SplitOnce(s: string, sep: string): Option<(string, string)>
    decreases |s|
  {
    if sep <= s then Some(("", s[|sep|..]))
    else if s == [] then None
    else match SplitOnce(s[1..], sep)
      case None => None
      case Some((a, b)) => Some(([s[0]] + a, b))
  }

  /** Around the last occurrence of the character. */
  function RSplitOnce(s: string, c: char): Option<(string, string)> {
    if s == [] then None
    else if s[|s| - 1] == c then Some((s[..|s| - 1], ""))
    else match RSplitOnce(s[..|s| - 1], c)
      case None => None
      case Some((a, b)) => Some((a, b + [s[|s| - 1]]))
  }

  lemma {:induction false} SplitAtFirst(a: string, sep: string, b: string)
    requires sep != [] && sep[0] !in a
    ensures SplitOnce(a + sep + b, sep) == Some((a, b))
  {
    if a == [] {
      assert a + sep + b == sep + b;
    } else {
      assert (a + sep + b)[1..] == a[1..] + sep + b;
      SplitAtFirst(a[1..], sep, b);
      assert (a + sep + b)[0] == a[0] && !(sep <= a + sep + b);
      assert a == [a[0]] + a[1..];
    }
  }

  lemma {:induction false} SplitAtLast(a: string, c: char, b: string)
    requires c !in b
    ensures RSplitOnce(a + [c] + b, c) == Some((a, b))
  {
    var s := a + [c] + b;
    if b == [] {
      assert s[..|s| - 1] == a;
    } else {
      assert s[..|s| - 1] == a + [c] + b[..|b| - 1];
      SplitAtLast(a, c, b[..|b| - 1]);
      assert b == b[..|b| - 1] + [b[|b| - 1]];
    }
  }

  // ----- printing and parsing

  function ProtocolText(p: nat): string {
    if p == TCP then "tcp" else if p == UDP then "udp" else "unknown"
  }

  function Lower(s: string): string {
    seq(|s|, i requires 0 <= i < |s| => if 'A' <= s[i] <= 'Z' then s[i] - 'A' + 'a' else s[i])
  }

  function ReadProtocol(s: string): Option<nat> {
    if Lower(s) == "tcp" then Some(TCP) else if Lower(s) == "udp" then Some(UDP) else None
  }

  /** The text of a mapping behind its protocol and source address. */
  function TargetText(x: AddrText, m: PortMapping): string {
    x.showIp(m.virtualTargetIp) + "-" + (m.dstHost + [':'] + Decimal(m.dstPort))
  }

  function Show(x: AddrText, m: PortMapping): string {
    ProtocolText(m.protocol) + "://" + (x.showSocket(m.srcAddr) + "-" + TargetText(x, m))
  }

  function Read(x: AddrText, s: string): Result<PortMapping, ParseError> {
    match SplitOnce(s, "://")
    case None => Err(MissingScheme)
    case Some((proto, rest)) =>
      var protocol := ReadProtocol(proto);
      if protocol.None? then Err(UnknownProtocol) else
      var (first, tail) := match SplitOnce(rest, "-") case None => (rest, None) case Some((a, b)) => (a, Some(b));
      var src := x.readSocket(first);
      if src.None? then Err(InvalidSrcAddr)
      else if tail.None? then Err(MissingVirtualIp)
      else ReadTarget(x, protocol.value, src.value, tail.value)
  }

  /** The part behind the source address: virtual address, host and port. */
  function ReadTarget(x: AddrText, protocol: nat, src: SocketAddr, s: string): Result<PortMapping, ParseError> {
    var (second, dst) := match SplitOnce(s, "-") case None => (s, None) case Some((a, b)) => (a, Some(b));
    var ip := x.readIp(second);
    if ip.None? then Err(InvalidVirtualIp)
    else if dst.None? then Err(MissingDestination)
    else match RSplitOnce(dst.value, ':')
      case None => Err(MissingPort)
      case Some((host, portText)) =>
        var port := ReadPort(portText);
        if port.None? then Err(InvalidPort)
        else if port.value == 0 then Err(PortZero)
        else Ok(PortMapping(protocol, src, ip.value, host, port.value))
  }

  lemma ReadTargetUndoes(x: AddrText, protocol: nat, src: SocketAddr, ip: Ip, host: string, port: nat)
    requires Faithful(x) && port <= 0xFFFF
    ensures ReadTarget(x, protocol, src, x.showIp(ip) + "-" + (host + [':'] + Decimal(port)))
         == if port == 0 then Err(PortZero) else Ok(PortMapping(protocol, src, ip, host, port))
  {
    SplitAtFirst(x.showIp(ip), "-", host + [':'] + Decimal(port));
    SplitAtLast(host, ':', Decimal(port));
    ReadUndoesPort(port);
  }

  lemma ProtocolIff(p: nat)
    ensures ReadProtocol(ProtocolText(p)) == if p == TCP || p == UDP then Some(p) else None
    ensures ProtocolText(p) != "" && ':' !in ProtocolText(p)
  {
    assert Lower("tcp") == "tcp" && Lower("udp") == "udp" && |Lower("unknown")| == 7;
  }

  lemma ReadUndoesShow(x: AddrText, m: PortMapping)
    requires Faithful(x)
    ensures Read(x, Show(x, m)) == match ReadProtocol(ProtocolText(m.protocol))
      case None => Err(UnknownProtocol)
      case Some(p) => ReadTarget(x, p, m.srcAddr, TargetText(x, m))
  {
    ProtocolIff(m.protocol);
    SplitAtFirst(ProtocolText(m.protocol), "://", x.showSocket(m.srcAddr) + "-" + TargetText(x, m));
    SplitAtFirst(x.showSocket(m.srcAddr), "-", TargetText(x, m));
  }

  /** Printing and parsing gives the mapping back if and only if it is for TCP or UDP and its port is
      not zero, whatever the host string contains; otherwise parsing fails. */
  lemma RoundTripIff(x: AddrText, m: PortMapping)
    requires Faithful(x) && m.dstPort <= 0xFFFF
    ensures Read(x, Show(x, m)) == Ok(m) <==> (m.protocol == TCP || m.protocol == UDP) && m.dstPort != 0
    ensures Read(x, Show(x, m)).Ok? ==> Read(x, Show(x, m)).value == m
  {
    ReadUndoesShow(x, m);
    ProtocolIff(m.protocol);
    ReadTargetUndoes(x, m.protocol, m.srcAddr, m.virtualTargetIp, m.dstHost, m.dstPort);
  }

  /** Whatever text a mapping was read from, printing it gives a text that reads as the same mapping. */
  lemma ReadingIsStable(x: AddrText, s: string)
    requires Faithful(x) && Read(x, s).Ok?
    ensures Read(x, Show(x, Read(x, s).value)) == Read(x, s)
  {
    RoundTripIff(x, Read(x, s).value);
  }

  /** The protocol is read in any mixture of upper and lower case. */
  lemma ProtocolIgnoresCase(s: string)
    requires |s| == 3
    ensures ReadProtocol(s) == Some(TCP) <==> s[0] in "tT" && s[1] in "cC" && s[2] in "pP"
    ensures ReadProtocol(s) == Some(UDP) <==> s[0] in "uU" && s[1] in "dD" && s[2] in "pP"
  {
    var l := Lower(s);
    assert l == [l[0], l[1], l[2]];
    assert "tcp" == ['t', 'c', 'p'] && "udp" == ['u', 'd', 'p'];
  }

  /** A port is read with or without a plus sign, and only up to 65535. */
  lemma ReadPortIff(n: nat)
    ensures ReadPort(Decimal(n)) == if n <= 0xFFFF then Some(n) else None
    ensures ReadPort("+" + Decimal(n)) == ReadPort(Decimal(n))
  {
    ReadUndoesDecimal(n);
    assert Decimal(n)[0] in Decimal(n);
    assert ("+" + Decimal(n))[1..] == Decimal(n);
  }

  lemma {:induction false} SplitFailsIff(s: string, sep: string)
    requires sep != []
    ensures SplitOnce(s, sep).None? <==> forall i :: 0 <= i <= |s| ==> !(sep <= s[i..])
    decreases |s|
  {
    assert s[0..] == s;
    if !(sep <= s) && s != [] {
      SplitFailsIff(s[1..], sep);
      assert forall i :: 0 <= i < |s| ==> s[1..][i..] == s[i + 1..];
      assert forall i :: 0 < i <= |s| ==> s[i..] == s[1..][i - 1..];
    }
  }

  lemma {:induction false} SplitLastFailsIff(s: string, c: char)
    ensures RSplitOnce(s, c).None? <==> c !in s
  {
    if s != [] {
      assert s == s[..|s| - 1] + [s[|s| - 1]];
      SplitLastFailsIff(s[..|s| - 1], c);
    }
  }

  lemma NoDashNoSplit(s: string)
    ensures '-' !in s ==> SplitOnce(s, "-").None?
  {
    SplitFailsIff(s, "-");
    forall i | 0 <= i <= |s| && "-" <= s[i..] ensures '-' in s {
      assert s[i..][0] == '-';
      assert s[i] == '-';
    }
  }

  /** Which complaint a text draws that has no scheme, an unknown protocol, a bad source address or
      nothing behind it. */
  lemma ReadErrors(x: AddrText, s: string, proto: string, src: string, rest: string)
    requires ':' !in proto && '-' !in src
    ensures (forall i :: 0 <= i <= |s| ==> !("://" <= s[i..])) ==> Read(x, s) == Err(MissingScheme)
    ensures ReadProtocol(proto).None? ==> Read(x, proto + "://" + rest) == Err(UnknownProtocol)
    ensures ReadProtocol(proto).Some? ==>
      && (x.readSocket(src).None? ==> Read(x, proto + "://" + src) == Err(InvalidSrcAddr)
                                      && Read(x, proto + "://" + (src + "-" + rest)) == Err(InvalidSrcAddr))
      && (x.readSocket(src).Some? ==> Read(x, proto + "://" + src) == Err(MissingVirtualIp))
  {
    SplitFailsIff(s, "://");
    SplitAtFirst(proto, "://", rest);
    SplitAtFirst(proto, "://", src);
    SplitAtFirst(proto, "://", src + "-" + rest);
    SplitAtFirst(src, "-", rest);
    NoDashNoSplit(src);
  }

  /** And one whose virtual address is bad, or that has no destination, no port or a bad one. */
  lemma ReadTargetErrors(x: AddrText, p: nat, src: SocketAddr, ip: string, rest: string, host: string, port: string)
    requires '-' !in ip && ':' !in port
    ensures x.readIp(ip).None? ==>
      ReadTarget(x, p, src, ip) == ReadTarget(x, p, src, ip + "-" + rest) == Err(InvalidVirtualIp)
    ensures x.readIp(ip).Some? ==>
      && ReadTarget(x, p, src, ip) == Err(MissingDestination)
      && (':' !in rest ==> ReadTarget(x, p, src, ip + "-" + rest) == Err(MissingPort))
      && (ReadPort(port).None? ==> ReadTarget(x, p, src, ip + "-" + (host + [':'] + port)) == Err(InvalidPort))
      && (ReadPort(port) == Some(0) ==> ReadTarget(x, p, src, ip + "-" + (host + [':'] + port)) == Err(PortZero))
  {
    NoDashNoSplit(ip);
    SplitAtFirst(ip, "-", rest);
    SplitLastFailsIff(rest, ':');
    SplitAtFirst(ip, "-", host + [':'] + port);
    SplitAtLast(host, ':', port);
  }
}
