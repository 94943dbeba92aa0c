/** The Ethernet, IPv4 and UDP headers and their places in the first 512-bit phit of a packet. */
module Network {
  import opened BitVectors

  datatype EthernetFields = EthernetFields(destMac: U48, srcMac: U48, ethType: U16)

  datatype IPv4Fields = IPv4Fields(
    version: U4, ihl: U4, dscpEcn: U8, totalLength: U16, identification: U16, flags: U3, fragmentOffset: U13,
    ttl: U8, protocol: U8, headerChecksum: U16, srcIp: U32, destIp: U32)

  datatype UDPFields = UDPFields(srcPort: U16, destPort: U16, length: U16, checksum: U16)

  datatype Headers = Headers(eth: EthernetFields, ip: IPv4Fields, udp: UDPFields)

  const IPV4 := 0x0800
  const UDP := 17

  // Header sizes in bytes
  const ETHERNET_SIZE := 14
  const IPV4_SIZE := 20
  const UDP_SIZE := 8
  const HEADER_SIZE := ETHERNET_SIZE + IPV4_SIZE + UDP_SIZE

  const ZERO_HEADERS := Headers(
    EthernetFields(Zeros(48), Zeros(48), Zeros(16)),
    IPv4Fields(Zeros(4), Zeros(4), Zeros(8), Zeros(16), Zeros(16), Zeros(3), Zeros(13),
               Zeros(8), Zeros(8), Zeros(16), Zeros(32), Zeros(32)),
    UDPFields(Zeros(16), Zeros(16), Zeros(16), Zeros(16)))

  predicate IsIPv4(eth: EthernetFields) {
    ToNat(eth.ethType) == Bswap16(IPV4)
  }

  predicate IsUDP(ip: IPv4Fields) {
    ToNat(ip.protocol) == UDP
  }

  /** `d.range(hi, lo)` */
  function Range(d: U512, hi: nat, lo: nat): (b: seq<bool>)
    requires lo <= hi < 512
    ensures |b| == hi - lo + 1
  {
    d[lo..hi + 1]
  }

  function DecodeEthernet(d: U512): EthernetFields {
    EthernetFields(Range(d, 47, 0), Range(d, 95, 48), Range(d, 111, 96))
  }

  function DecodeIPv4(d: U512): IPv4Fields {
    IPv4Fields(Range(d, 115, 112), Range(d, 119, 116), Range(d, 127, 120), Range(d, 143, 128), Range(d, 159, 144),
               Range(d, 162, 160), Range(d, 175, 163), Range(d, 183, 176), Range(d, 191, 184), Range(d, 207, 192),
               Range(d, 239, 208), Range(d, 271, 240))
  }

  function DecodeUDP(d: U512): UDPFields {
    UDPFields(Range(d, 287, 272), Range(d, 303, 288), Range(d, 319, 304), Range(d, 335, 320))
  }

  function Decode(d: U512): Headers {
    Headers(DecodeEthernet(d), DecodeIPv4(d), DecodeUDP(d))
  }

  // ---------- The wire layout: the fields side by side in declaration order, without gaps ----------

  function EthernetBits(e: EthernetFields): (b: seq<bool>)
    ensures |b| == 8 * ETHERNET_SIZE
  {
    e.destMac + e.srcMac + e.ethType
  }

  // The five 32-bit words of the IPv4 header
  function IPv4Word0(i: IPv4Fields): (w: seq<bool>)
    ensures |w| == 32
  {
    i.version + i.ihl + i.dscpEcn + i.totalLength
  }

  function IPv4Word1(i: IPv4Fields): (w: seq<bool>)
    ensures |w| == 32
  {
    i.identification + i.flags + i.fragmentOffset
  }

  function IPv4Word2(i: IPv4Fields): (w: seq<bool>)
    ensures |w| == 32
  {
    i.ttl + i.protocol + i.headerChecksum
  }

  function IPv4Bits(i: IPv4Fields): (b: seq<bool>)
    ensures |b| == 8 * IPV4_SIZE
  {
    (IPv4Word0(i) + IPv4Word1(i)) + (IPv4Word2(i) + i.srcIp + i.destIp)
  }

  function UDPBits(u: UDPFields): (b: seq<bool>)
    ensures |b| == 8 * UDP_SIZE
  {
    u.srcPort + u.destPort + u.length + u.checksum
  }

  function HeaderBits(h: Headers): (b: seq<bool>)
    ensures |b| == 8 * HEADER_SIZE
  {
    EthernetBits(h.eth) + IPv4Bits(h.ip) + UDPBits(h.udp)
  }

  /** `d` with the headers `h` in front of whatever it held behind them. */
  function Encode(h: Headers, d: U512): U512 {
    HeaderBits(h) + d[8 * HEADER_SIZE..]
  }

  lemma ThreeParts(a: seq<bool>, b: seq<bool>, c: seq<bool>)
    ensures var w, i, j := a + b + c, |a|, |a| + |b|;
      w[0..i] == a && w[i..j] == b && w[j..j + |c|] == c
  {
  }

  lemma FourParts(a: seq<bool>, b: seq<bool>, c: seq<bool>, d: seq<bool>)
    ensures var w, i, j, k := a + b + c + d, |a|, |a| + |b|, |a| + |b| + |c|;
      w[0..i] == a && w[i..j] == b && w[j..k] == c && w[k..k + |d|] == d
  {
    var w, i := a + b + c + d, |a|;
    ThreeParts(a, b, c);
    assert w[..i + |b| + |c|] == a + b + c;
    assert w[0..i] == (a + b + c)[0..i] && w[i..i + |b|] == (a + b + c)[i..i + |b|];
  }

  lemma TwoParts(a: seq<bool>, b: seq<bool>)
    ensures (a + b)[0..|a|] == a && (a + b)[|a|..|a| + |b|] == b
  {
  }

  /** A range of a range. */
  lemma RangeOfRange(d: seq<bool>, lo: nat, hi: nat, i: nat, j: nat)
    requires lo <= hi <= |d| && i <= j <= hi - lo
    ensures d[lo..hi][i..j] == d[lo + i..lo + j]
  {
    var w := d[lo..hi];
    forall k | 0 <= k < j - i ensures w[i..j][k] == d[lo + i..lo + j][k] {
      assert w[i..j][k] == w[i + k] == d[lo + i + k];
    }
  }

  lemma DecodeEthernetEncoded(e: EthernetFields, d: U512)
    requires d[0..112] == EthernetBits(e)
    ensures DecodeEthernet(d) == e
  {
    ThreeParts(e.destMac, e.srcMac, e.ethType);
    RangeOfRange(d, 0, 112, 0, 48);
    RangeOfRange(d, 0, 112, 48, 96);
    RangeOfRange(d, 0, 112, 96, 112);
  }

  lemma IPv4WordsEncoded(i: IPv4Fields, d: U512)
    requires d[112..272] == IPv4Bits(i)
    ensures d[112..144] == IPv4Word0(i) && d[144..176] == IPv4Word1(i) && d[176..208] == IPv4Word2(i)
    ensures d[208..240] == i.srcIp && d[240..272] == i.destIp
  {
    TwoParts(IPv4Word0(i) + IPv4Word1(i), IPv4Word2(i) + i.srcIp + i.destIp);
    RangeOfRange(d, 112, 272, 0, 64);
    RangeOfRange(d, 112, 272, 64, 160);
    TwoParts(IPv4Word0(i), IPv4Word1(i));
    RangeOfRange(d, 112, 176, 0, 32);
    RangeOfRange(d, 112, 176, 32, 64);
    ThreeParts(IPv4Word2(i), i.srcIp, i.destIp);
    RangeOfRange(d, 176, 272, 0, 32);
    RangeOfRange(d, 176, 272, 32, 64);
    RangeOfRange(d, 176, 272, 64, 96);
  }

  lemma IPv4Word0Encoded(i: IPv4Fields, d: U512)
    requires d[112..144] == IPv4Word0(i)
    ensures d[112..116] == i.version && d[116..120] == i.ihl && d[120..128] == i.dscpEcn && d[128..144] == i.totalLength
  {
    FourParts(i.version, i.ihl, i.dscpEcn, i.totalLength);
    RangeOfRange(d, 112, 144, 0, 4);
    RangeOfRange(d, 112, 144, 4, 8);
    RangeOfRange(d, 112, 144, 8, 16);
    RangeOfRange(d, 112, 144, 16, 32);
  }

  lemma IPv4Word1Encoded(i: IPv4Fields, d: U512)
    requires d[144..176] == IPv4Word1(i)
    ensures d[144..160] == i.identification && d[160..163] == i.flags && d[163..176] == i.fragmentOffset
  {
    ThreeParts(i.identification, i.flags, i.fragmentOffset);
    RangeOfRange(d, 144, 176, 0, 16);
    RangeOfRange(d, 144, 176, 16, 19);
    RangeOfRange(d, 144, 176, 19, 32);
  }

  lemma IPv4Word2Encoded(i: IPv4Fields, d: U512)
    requires d[176..208] == IPv4Word2(i)
    ensures d[176..184] == i.ttl && d[184..192] == i.protocol && d[192..208] == i.headerChecksum
  {
    ThreeParts(i.ttl, i.protocol, i.headerChecksum);
    RangeOfRange(d, 176, 208, 0, 8);
    RangeOfRange(d, 176, 208, 8, 16);
    RangeOfRange(d, 176, 208, 16, 32);
  }

  lemma DecodeIPv4Encoded(i: IPv4Fields, d: U512)
    requires d[112..272] == IPv4Bits(i)
    ensures DecodeIPv4(d) == i
  {
    IPv4WordsEncoded(i, d);
    IPv4Word0Encoded(i, d);
    IPv4Word1Encoded(i, d);
    IPv4Word2Encoded(i, d);
  }

  lemma DecodeUDPEncoded(u: UDPFields, d: U512)
    requires d[272..336] == UDPBits(u)
    ensures DecodeUDP(d) == u
  {
    FourParts(u.srcPort, u.destPort, u.length, u.checksum);
    RangeOfRange(d, 272, 336, 0, 16);
    RangeOfRange(d, 272, 336, 16, 32);
    RangeOfRange(d, 272, 336, 32, 48);
    RangeOfRange(d, 272, 336, 48, 64);
  }

  /** Whatever is serialized is read back, field by field. */
  lemma DecodeAfterEncode(h: Headers, d: U512)
    ensures Decode(Encode(h, d)) == h
  {
    var e := Encode(h, d);
    FourParts(EthernetBits(h.eth), IPv4Bits(h.ip), UDPBits(h.udp), d[8 * HEADER_SIZE..]);
    DecodeEthernetEncoded(h.eth, e);
    DecodeIPv4Encoded(h.ip, e);
    DecodeUDPEncoded(h.udp, e);
  }

  /** The 19 fields tile the first 336 bits: reading them and laying them side by side loses nothing. */
  lemma FieldsTileHeader(d: U512)
    ensures HeaderBits(Decode(d)) == d[..8 * HEADER_SIZE]
  {
    assert EthernetBits(DecodeEthernet(d)) == d[..112];
    assert IPv4Bits(DecodeIPv4(d)) == d[112..272];
    assert UDPBits(DecodeUDP(d)) == d[272..336];
  }

  /** Serializing what was read from `d` restores the low 336 bits of `d` in any word and leaves
      the other bits of that word alone. */
  lemma EncodeAfterDecode(d: U512, word: U512)
    ensures Encode(Decode(d), word) == d[..336] + word[336..]
    ensures Encode(Decode(d), d) == d
  {
    FieldsTileHeader(d);
  }

  /** Before the first packet the kernel holds the headers of a word of zeros. */
  lemma ZeroHeadersAreZeros()
    ensures Decode(Zeros(512)) == ZERO_HEADERS
  {
    assert forall lo: nat, hi: nat :: lo <= hi < 512 ==> Range(Zeros(512), hi, lo) == Zeros(hi - lo + 1);
  }

  // ---------- The header objects ----------

  /** One more range assignment directly behind the ranges `done` already written from `base` on. */
  method SetNext(data: array<bool>, lo: nat, bits: seq<bool>,
                 ghost d: seq<bool>, ghost base: nat, ghost done: seq<bool>)
    requires data.Length == |d| && lo == base + |done| && lo + |bits| <= |d|
    requires data[..] == Splice(d, base, done)
    modifies data
    ensures data[..] == Splice(d, base, done + bits)
  {
    SplicesJoin(d, base, done, bits);
    SetRange(data, lo, bits);
  }

  class EthernetHeader {
    var destMac: U48
    var srcMac: U48
    var ethType: U16

    function Fields(): EthernetFields
      reads this
    {
      EthernetFields(destMac, srcMac, ethType)
    }

    constructor ()
      ensures Fields() == ZERO_HEADERS.eth
    {
      destMac, srcMac, ethType := Zeros(48), Zeros(48), Zeros(16);
    }

    method Serialize(data: array<bool>, phitIdx: int)
      requires data.Length == 512
      modifies data
      ensures data[..] == if phitIdx == 0 then Splice(old(data[..]), 0, EthernetBits(Fields())) else old(data[..])
    {
      if phitIdx == 0 {
        ghost var d, done := data[..], [];
        SetNext(data, 0, destMac, d, 0, done);
        done := done + destMac;
        SetNext(data, 48, srcMac, d, 0, done);
        done := done + srcMac;
        SetNext(data, 96, ethType, d, 0, done);
        assert done + ethType == EthernetBits(Fields());
      }
    }

    method Deserialize(data: U512, phitIdx: int)
      modifies this
      ensures Fields() == if phitIdx == 0 then DecodeEthernet(data) else old(Fields())
    {
      if phitIdx == 0 {
        destMac := Range(data, 47, 0);
        srcMac := Range(data, 95, 48);
        ethType := Range(data, 111, 96);
      }
    }
  }

  class IPv4Header {
    var version: U4
    var ihl: U4
    var dscpEcn: U8
    var totalLength: U16
    var identification: U16
    var flags: U3
    var fragmentOffset: U13
    var ttl: U8
    var protocol: U8
    var headerChecksum: U16
    var srcIp: U32
    var destIp: U32

    function Fields(): IPv4Fields
      reads this
    {
      IPv4Fields(version, ihl, dscpEcn, totalLength, identification, flags, fragmentOffset,
                 ttl, protocol, headerChecksum, srcIp, destIp)
    }

    constructor ()
      ensures Fields() == ZERO_HEADERS.ip
    {
      version, ihl, dscpEcn := Zeros(4), Zeros(4), Zeros(8);
      totalLength, identification := Zeros(16), Zeros(16);
      flags, fragmentOffset := Zeros(3), Zeros(13);
      ttl, protocol, headerChecksum := Zeros(8), Zeros(8), Zeros(16);
      srcIp, destIp := Zeros(32), Zeros(32);
    }

    method Serialize(data: array<bool>, phitIdx: int)
      requires data.Length == 512
      modifies data
      ensures data[..] == if phitIdx == 0 then Splice(old(data[..]), 112, IPv4Bits(Fields())) else old(data[..])
    {
      if phitIdx == 0 {
        ghost var d := data[..];
        SerializeFirst(data);
        SerializeRest(data);
        SplicesJoin(d, 112, IPv4Word0(Fields()) + IPv4Word1(Fields()), IPv4Word2(Fields()) + srcIp + destIp);
      }
    }

    method SerializeFirst(data: array<bool>)
      requires data.Length == 512
      modifies data
      ensures data[..] == Splice(old(data[..]), 112, IPv4Word0(Fields()) + IPv4Word1(Fields()))
    {
      ghost var d, done := data[..], [];
      SetNext(data, 112, version, d, 112, done);
      done := done + version;
      SetNext(data, 116, ihl, d, 112, done);
      done := done + ihl;
      SetNext(data, 120, dscpEcn, d, 112, done);
      done := done + dscpEcn;
      SetNext(data, 128, totalLength, d, 112, done);
      done := done + totalLength;
      SetNext(data, 144, identification, d, 112, done);
      done := done + identification;
      SetNext(data, 160, flags, d, 112, done);
      done := done + flags;
      SetNext(data, 163, fragmentOffset, d, 112, done);
      assert done + fragmentOffset == IPv4Word0(Fields()) + IPv4Word1(Fields());
    }

    method SerializeRest(data: array<bool>)
      requires data.Length == 512
      modifies data
      ensures data[..] == Splice(old(data[..]), 176, IPv4Word2(Fields()) + srcIp + destIp)
    {
      ghost var d, done := data[..], [];
      SetNext(data, 176, ttl, d, 176, done);
      done := done + ttl;
      SetNext(data, 184, protocol, d, 176, done);
      done := done + protocol;
      SetNext(data, 192, headerChecksum, d, 176, done);
      done := done + headerChecksum;
      SetNext(data, 208, srcIp, d, 176, done);
      done := done + srcIp;
      SetNext(data, 240, destIp, d, 176, done);
      assert done + destIp == IPv4Word2(Fields()) + srcIp + destIp;
    }

    method Deserialize(data: U512, phitIdx: int)
      modifies this
      ensures Fields() == if phitIdx == 0 then DecodeIPv4(data) else old(Fields())
    {
      if phitIdx == 0 {
        version := Range(data, 115, 112);
        ihl := Range(data, 119, 116);
        dscpEcn := Range(data, 127, 120);
        totalLength := Range(data, 143, 128);
        identification := Range(data, 159, 144);
        flags := Range(data, 162, 160);
        fragmentOffset := Range(data, 175, 163);
        ttl := Range(data, 183, 176);
        protocol := Range(data, 191, 184);
        headerChecksum := Range(data, 207, 192);
        srcIp := Range(data, 239, 208);
        destIp := Range(data, 271, 240);
      }
    }
  }

  class UDPHeader {
    var srcPort: U16
    var destPort: U16
    var length: U16
    var checksum: U16

    function Fields(): UDPFields
      reads this
    {
      UDPFields(srcPort, destPort, length, checksum)
    }

    constructor ()
      ensures Fields() == ZERO_HEADERS.udp
    {
      srcPort, destPort, length, checksum := Zeros(16), Zeros(16), Zeros(16), Zeros(16);
    }

    method Serialize(data: array<bool>, phitIdx: int)
      requires data.Length == 512
      modifies data
      ensures data[..] == if phitIdx == 0 then Splice(old(data[..]), 272, UDPBits(Fields())) else old(data[..])
    {
      if phitIdx == 0 {
        ghost var d, done := data[..], [];
        SetNext(data, 272, srcPort, d, 272, done);
        done := done + srcPort;
        SetNext(data, 288, destPort, d, 272, done);
        done := done + destPort;
        SetNext(data, 304, length, d, 272, done);
        done := done + length;
        SetNext(data, 320, checksum, d, 272, done);
        assert done + checksum == UDPBits(Fields());
      }
    }

    method Deserialize(data: U512, phitIdx: int)
      modifies this
      ensures Fields() == if phitIdx == 0 then DecodeUDP(data) else old(Fields())
    {
      if phitIdx == 0 {
        srcPort := Range(data, 287, 272);
        destPort := Range(data, 303, 288);
        length := Range(data, 319, 304);
        checksum := Range(data, 335, 320);
      }
    }
  }

  class NetworkPacket {
    const ethHdr: EthernetHeader
    const ipHdr: IPv4Header
    const udpHdr: UDPHeader

    function Fields(): Headers
      reads ethHdr, ipHdr, udpHdr
    {
      Headers(ethHdr.Fields(), ipHdr.Fields(), udpHdr.Fields())
    }

    constructor ()
      ensures fresh(ethHdr) && fresh(ipHdr) && fresh(udpHdr)
      ensures Fields() == ZERO_HEADERS
    {
      ethHdr := new EthernetHeader();
      ipHdr := new IPv4Header();
      udpHdr := new UDPHeader();
    }

    /** Phit 0 receives the headers; every other phit is left as it is. */
    method Serialize(data: array<bool>, phitIdx: int)
      requires data.Length == 512
      modifies data
      ensures data[..] == if phitIdx == 0 then Encode(Fields(), old(data[..])) else old(data[..])
    {
      ghost var d := data[..];
      ghost var h := Fields();
      ethHdr.Serialize(data, phitIdx);
      ipHdr.Serialize(data, phitIdx);
      udpHdr.Serialize(data, phitIdx);
      if phitIdx == 0 {
        SplicesJoin(d, 0, EthernetBits(h.eth), IPv4Bits(h.ip));
        SplicesJoin(d, 0, EthernetBits(h.eth) + IPv4Bits(h.ip), UDPBits(h.udp));
      }
    }

    /** Phit 0 replaces all fields; every other phit leaves them latched. */
    method Deserialize(data: U512, phitIdx: int)
      modifies ethHdr, ipHdr, udpHdr
      ensures Fields() == if phitIdx == 0 then Decode(data) else old(Fields())
    {
      ethHdr.Deserialize(data, phitIdx);
      ipHdr.Deserialize(data, phitIdx);
      udpHdr.Deserialize(data, phitIdx);
    }
  }
}
