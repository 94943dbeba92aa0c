/** Frames as bytes: the hardware filter, the configuring software and the packet handler agree on
    what a frame's endpoint and protocol are. */
module Frames {
  import opened BitVectors
  import opened HashIndex
  import opened HashTable
  import opened Network
  import opened Kernel
  import opened FilterText

  /** The first 64 bytes of a frame, which fill the first phit. */
  type FrameHead = f: seq<byte> | |f| == 64 witness seq(64, _ => 0)

  function PhitData(frame: FrameHead): U512 {
    BytesToBits(frame)
  }

  lemma FieldOfFrame(frame: FrameHead, i: nat, j: nat)
    requires i < j <= 64
    ensures Range(PhitData(frame), 8 * j - 1, 8 * i) == BytesToBits(frame[i..j])
  {
    BytesSlice(frame, i, j);
  }

  lemma RestOfIPv4Bytes(frame: FrameHead)
    ensures var ip := DecodeIPv4(PhitData(frame));
      && ip.dscpEcn == BytesToBits(frame[15..16]) && ip.totalLength == BytesToBits(frame[16..18])
      && ip.identification == BytesToBits(frame[18..20]) && ip.ttl == BytesToBits(frame[22..23])
      && ip.headerChecksum == BytesToBits(frame[24..26])
  {
    FieldOfFrame(frame, 15, 16);
    FieldOfFrame(frame, 16, 18);
    FieldOfFrame(frame, 18, 20);
    FieldOfFrame(frame, 22, 23);
    FieldOfFrame(frame, 24, 26);
  }

  /** Where the byte-aligned fields lie: as in an Ethernet frame that carries the headers of
      section 3.1 of RFC 791 without options and of RFC 768. */
  lemma HeaderBytes(frame: FrameHead)
    ensures var h := Decode(PhitData(frame));
      && h.eth.destMac == BytesToBits(frame[0..6]) && h.eth.srcMac == BytesToBits(frame[6..12])
      && h.eth.ethType == BytesToBits(frame[12..14]) && h.ip.protocol == BytesToBits(frame[23..24])
      && h.ip.srcIp == BytesToBits(frame[26..30]) && h.ip.destIp == BytesToBits(frame[30..34])
      && h.udp.srcPort == BytesToBits(frame[34..36]) && h.udp.destPort == BytesToBits(frame[36..38])
      && h.udp.length == BytesToBits(frame[38..40]) && h.udp.checksum == BytesToBits(frame[40..42])
      && h.ip.dscpEcn == BytesToBits(frame[15..16]) && h.ip.totalLength == BytesToBits(frame[16..18])
      && h.ip.identification == BytesToBits(frame[18..20]) && h.ip.ttl == BytesToBits(frame[22..23])
      && h.ip.headerChecksum == BytesToBits(frame[24..26])
  {
    FieldOfFrame(frame, 0, 6);
    FieldOfFrame(frame, 6, 12);
    FieldOfFrame(frame, 12, 14);
    FieldOfFrame(frame, 23, 24);
    FieldOfFrame(frame, 26, 30);
    FieldOfFrame(frame, 30, 34);
    FieldOfFrame(frame, 34, 36);
    FieldOfFrame(frame, 36, 38);
    FieldOfFrame(frame, 38, 40);
    FieldOfFrame(frame, 40, 42);
    RestOfIPv4Bytes(frame);
  }

  lemma TwoByteValue(x: byte, y: byte)
    ensures ToNat(BytesToBits([x, y])) == x + 0x100 * y
    ensures ToNat(BytesToBits([x])) == x
  {
    BytesToNat([x, y]);
    BytesToNat([x]);
    assert [x, y][1..] == [y] && [y][1..] == [] && [x][1..] == [];
    assert LittleEndian([y]) == y;
  }

  // ---------- The packet handler of the software ----------

  /** `rte_be_to_cpu_16` of the two bytes at `i`. */
  function BigEndian16(frame: seq<byte>, i: nat): nat
    requires i + 1 < |frame|
  {
    var first: nat, second: nat := frame[i], frame[i + 1];
    Bswap16(first + 0x100 * second)
  }

  predicate HandlerGates(frame: seq<byte>)
    requires |frame| >= HEADER_SIZE
  {
    BigEndian16(frame, 12) == IPV4 && frame[23] == UDP
  }

  /** A received payload is described by its place in the packet and its length. */
  datatype HandlerResult =
    | Skipped
    | LengthError
    | Received(payloadOffset: nat, payloadLen: nat)

  /** The length of the payload in 64-bit arithmetic. */
  function PayloadLength(dgramLen: nat): nat {
    (dgramLen + WORD64 - UDP_SIZE) % WORD64
  }

  lemma PayloadLengthIs(d: nat)
    requires d < 0x1_0000
    ensures 8 <= d ==> PayloadLength(d) + 8 == d
    ensures d < 8 ==> PayloadLength(d) + 8 == d + 0x1_0000_0000_0000_0000
  {
  }

  /** The decisions of `network_packet_handler` on a packet buffer of `pktLen` bytes, of which `frame`
      holds the first ones. With `d` the UDP length, the payload it takes for received is that of the
      datagram, behind the 42 bytes of the headers, if and only if `d` counts the UDP header. */
  method NetworkPacketHandler(frame: seq<byte>, pktLen: nat) returns (r: HandlerResult)
    requires |frame| >= 42 && pktLen < 0x1_0000_0000
    ensures r == Skipped <==> !(frame[12] == 0x08 && frame[13] == 0x00 && frame[23] == 17)
    ensures var d := 0x100 * (frame[38] as int) + frame[39];
      && (r == LengthError <==> HandlerGates(frame) && 34 + d > pktLen)
      && (r.Received? ==> r.payloadOffset == 42)
      && (r.Received? && 8 <= d ==> r.payloadLen + 8 == d && r.payloadOffset + r.payloadLen <= pktLen)
      && (r.Received? && d < 8 ==> r.payloadLen + 8 == d + 0x1_0000_0000_0000_0000 && r.payloadLen > pktLen)
  {
    GatesOfBytes(frame);
    BigEndianValue(frame, 38);
    var bufferOffset := 0;
    if BigEndian16(frame, bufferOffset + 12) != IPV4 {
      return Skipped;
    }
    bufferOffset := bufferOffset + ETHERNET_SIZE;
    if frame[bufferOffset + 9] != UDP {
      return Skipped;
    }
    bufferOffset := bufferOffset + IPV4_SIZE;
    var dgramLen := BigEndian16(frame, bufferOffset + 4);
    if bufferOffset + dgramLen > pktLen {
      return LengthError;
    }
    bufferOffset := bufferOffset + UDP_SIZE;
    PayloadLengthIs(dgramLen);
    r := Received(bufferOffset, PayloadLength(dgramLen));
  }

  // ---------- Addresses in the log ----------

  /** `rte_be_to_cpu_32` of four bytes in network byte order. */
  function BigEndian32(a: byte, b: byte, c: byte, d: byte): nat {
    0x100_0000 * a + 0x1_0000 * b + 0x100 * c + d
  }

  /** `convert_ip_to_str`: the bytes of a number, the lowest first. */
  function ConvertIp(v: nat): string {
    Decimal(v % 0x100) + "." + Decimal(v / 0x100 % 0x100) + "." + Decimal(v / 0x1_0000 % 0x100) + "."
    + Decimal(v / 0x100_0000 % 0x100)
  }

  lemma BytesOfBigEndian32(a: byte, b: byte, c: byte, d: byte)
    ensures var v := BigEndian32(a, b, c, d);
      v % 0x100 == d && v / 0x100 % 0x100 == c && v / 0x1_0000 % 0x100 == b && v / 0x100_0000 % 0x100 == a
  {
    Divided(0x1_0000 * a + 0x100 * b + c, 0x100, d);
    Divided(0x100 * a + b, 0x1_0000, 0x100 * c + d);
    Divided(a, 0x100_0000, 0x1_0000 * b + 0x100 * c + d);
    Divided(0x100 * a + b, 0x100, c);
    Divided(a, 0x100, b);
  }

  lemma Divided(q: int, n: int, r: int)
    requires 0 <= r < n
    ensures (n * q + r) / n == q && (n * q + r) % n == r
  {
    var d := (n * q + r) / n - q;
    assert n * d == r - (n * q + r) % n;
    assert d >= 1 ==> n * d >= n;
    assert d <= -1 ==> n * d <= -n;
  }

  lemma SameIpText(e: Endpoint, f: Endpoint)
    ensures IpText(e) == IpText(f) <==> e.a == f.a && e.b == f.b && e.c == f.c && e.d == f.d
  {
    if IpText(e) == IpText(f) {
      DottedPartsOfIp(e);
      DottedPartsOfIp(f);
      DecimalRoundTrip(e.a);
      DecimalRoundTrip(f.a);
      DecimalRoundTrip(e.b);
      DecimalRoundTrip(f.b);
      DecimalRoundTrip(e.c);
      DecimalRoundTrip(f.c);
      DecimalRoundTrip(e.d);
      DecimalRoundTrip(f.d);
    }
  }

  /** The log shows an address backwards: the text is that of the address if and only if the address
      reads the same in both directions. */
  lemma LoggedAddressIsReversed(e: Endpoint)
    ensures ConvertIp(BigEndian32(e.a, e.b, e.c, e.d)) == IpText(Endpoint(e.d, e.c, e.b, e.a, e.port))
    ensures ConvertIp(BigEndian32(e.a, e.b, e.c, e.d)) == IpText(e) <==> e.a == e.d && e.b == e.c
  {
    BytesOfBigEndian32(e.a, e.b, e.c, e.d);
    SameIpText(Endpoint(e.d, e.c, e.b, e.a, e.port), e);
  }

  lemma EthernetGate(eth: EthernetFields, x: byte, y: byte)
    requires eth.ethType == BytesToBits([x, y])
    ensures IsIPv4(eth) <==> x == 0x08 && y == 0x00
  {
    TwoByteValue(x, y);
  }

  lemma ProtocolGate(ip: IPv4Fields, x: byte)
    requires ip.protocol == BytesToBits([x])
    ensures IsUDP(ip) <==> x == 17
  {
    TwoByteValue(x, 0);
  }

  lemma GateBytes(frame: FrameHead)
    ensures Decode(PhitData(frame)).eth.ethType == BytesToBits([frame[12], frame[13]])
    ensures Decode(PhitData(frame)).ip.protocol == BytesToBits([frame[23]])
  {
    HeaderBytes(frame);
    assert frame[12..14] == [frame[12], frame[13]] && frame[23..24] == [frame[23]];
  }

  lemma BigEndianValue(frame: seq<byte>, i: nat)
    requires i + 1 < |frame|
    ensures BigEndian16(frame, i) == 0x100 * (frame[i] as int) + frame[i + 1]
  {
  }

  /** The handler goes on with EtherType 0x0800 and protocol 17, in network byte order. */
  lemma GatesOfBytes(frame: seq<byte>)
    requires |frame| >= 42
    ensures HandlerGates(frame) <==> frame[12] == 0x08 && frame[13] == 0x00 && frame[23] == 17
  {
    BigEndianValue(frame, 12);
  }

  /** The kernel considers exactly the packets whose first 64 bytes have EtherType 0x0800 and
      protocol 17, in network byte order. */
  lemma KernelGatesOfBytes(frame: FrameHead)
    ensures IsUDPOverIPv4(Decode(PhitData(frame)))
            <==> frame[12] == 0x08 && frame[13] == 0x00 && frame[23] == 17
  {
    var h := Decode(PhitData(frame));
    GateBytes(frame);
    EthernetGate(h.eth, frame[12], frame[13]);
    ProtocolGate(h.ip, frame[23]);
  }

  /** The hardware considers a packet exactly if the handler does not skip a frame that begins with
      the packet's first 64 bytes. */
  lemma HardwareGatesAreHandlerGates(frame: FrameHead)
    ensures IsUDPOverIPv4(Decode(PhitData(frame))) <==> HandlerGates(frame)
  {
    KernelGatesOfBytes(frame);
    GatesOfBytes(frame);
  }

  // ---------- Endpoints ----------

  /** The endpoint as its six bytes travel on the wire, in network byte order. */
  function Wire(e: Endpoint): NetAddr
    requires e.port < 0x1_0000
  {
    NetAddr(BytesToBits([e.a, e.b, e.c, e.d]), BytesToBits([e.port / 0x100, e.port % 0x100]))
  }

  /** What arrives at the 32-bit address and the 16-bit port input of the kernel. */
  function RegisterAddr(v: RuleValues): NetAddr {
    NetAddr(FromNat(v.ip, 32), FromNat(v.port, 16))
  }

  /** On a little-endian host, the values `update_rule` writes are the endpoint's wire bytes. */
  lemma RegistersHoldWireBytes(e: Endpoint)
    requires e.port < 0x1_0000
    ensures RegisterAddr(Values(e)) == Wire(e)
  {
    var hi: byte, lo: byte := e.port / 0x100, e.port % 0x100;
    LittleEndianBits([e.a, e.b, e.c, e.d]);
    LittleEndianBits([hi, lo]);
    assert [hi, lo][1..] == [lo] && [lo][1..] == [];
    assert LittleEndian([lo]) == lo;
    assert LittleEndian([hi, lo]) == Bswap16(e.port);
  }

  lemma BytesToBitsInjective(x: seq<byte>, y: seq<byte>)
    requires |x| == |y| && BytesToBits(x) == BytesToBits(y)
    ensures x == y
  {
    forall i | 0 <= i < |x| ensures x[i] == y[i] {
      assert FromNat(x[i], 8) == BytesToBits(x)[8 * i..8 * (i + 1)] by {
        BytesSlice(x, i, i + 1);
        BytesOfOne(x[i]);
        assert x[i..i + 1] == [x[i]];
      }
      assert FromNat(y[i], 8) == BytesToBits(y)[8 * i..8 * (i + 1)] by {
        BytesSlice(y, i, i + 1);
        BytesOfOne(y[i]);
        assert y[i..i + 1] == [y[i]];
      }
      WordPowers();
      ToFromNat(x[i], 8);
      ToFromNat(y[i], 8);
    }
  }

  lemma BytesOfOne(x: byte)
    ensures BytesToBits([x]) == FromNat(x, 8)
  {
    BytesCons([x]);
    assert [x][1..] == [];
  }

  /** The frame carries this destination address and port. */
  predicate SentTo(frame: FrameHead, e: Endpoint)
    requires e.port < 0x1_0000
  {
    frame[30..34] == [e.a, e.b, e.c, e.d] && frame[36..38] == [e.port / 0x100, e.port % 0x100]
  }

  /** The hardware looks a frame up under an endpoint exactly when the frame is sent to it. */
  lemma TargetIsDestination(frame: FrameHead, e: Endpoint)
    requires e.port < 0x1_0000
    ensures Target(Decode(PhitData(frame))) == Wire(e) <==> SentTo(frame, e)
  {
    HeaderBytes(frame);
    var ip: seq<byte>, port: seq<byte> := [e.a, e.b, e.c, e.d], [e.port / 0x100, e.port % 0x100];
    if Target(Decode(PhitData(frame))) == Wire(e) {
      BytesToBitsInjective(frame[30..34], ip);
      BytesToBitsInjective(frame[36..38], port);
    }
  }
}
