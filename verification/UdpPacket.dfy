/** UDP over IPv4 over (optionally tagged) Ethernet: the serializer and the deserializer.
    Source: common/std_packet.cpp (`raw_packet`, `ip_packet`, `udp_packet`), common/std_packet.h. */
module UdpPacket {
  import opened Common
  import opened Bytes

  import InternetChecksum

  type MacAddress = m: seq<byte> | |m| == 6 witness [0, 0, 0, 0, 0, 0]
  type IpAddress = a: seq<byte> | |a| == 4 witness [0, 0, 0, 0]

  datatype VlanTag = VlanTag(pcp: byte, dei: bool, id: uint16)

  /** The public fields of a `udp_packet`, without IP options, with `version` 4, `ihl` 5 and the
      ethertype left to the packet type, as the constructors set them. */
  datatype Frame = Frame(
    vlan: Option<VlanTag>,
    srcMac: MacAddress,
    destMac: MacAddress,
    dscp: byte,
    ecn: byte,
    identification: uint16,
    dontFragment: bool,
    moreFragments: bool,
    fragmentOffset: uint16,
    ttl: byte,
    protocol: byte,
    srcIp: IpAddress,
    destIp: IpAddress,
    srcPort: uint16,
    destPort: uint16,
    payload: seq<byte>)

  const ETHERTYPE_IPV4: uint16 := 0x0800
  const ETHERTYPE_VLAN: uint16 := 0x8100
  const ETHERTYPE_ARP: uint16 := 0x0806
  const ETHERTYPE_IPV6: uint16 := 0x86dd
  const IP_HEADER: nat := 20
  const UDP_HEADER: nat := 8
  /** What `ip_packet::clear` puts into the identification field. */
  const DEFAULT_IDENTIFICATION: uint16 := 54635

  // ---------- serialization ----------

  function Bit(b: bool, weight: nat): nat {
    if b then weight else 0
  }

  function VlanBytes(tag: VlanTag): (b: seq<byte>)
    ensures |b| == 4
  {
    Pack16(ETHERTYPE_VLAN) + Pack16(TagBits(tag))
  }

  function EthernetHeader(f: Frame): (b: seq<byte>)
    ensures |b| == EthernetLength(f)
  {
    f.destMac + f.srcMac + (if f.vlan.Some? then VlanBytes(f.vlan.value) else []) + Pack16(ETHERTYPE_IPV4)
  }

  function EthernetLength(f: Frame): nat {
    if f.vlan.Some? then 18 else 14
  }

  /** The first eight bytes of the IP header; `total` is truncated to 16 bits. */
  function LengthFields(f: Frame, total: nat): (b: seq<byte>)
    ensures |b| == 8
  {
    [0x45, f.dscp % 4 * 0x40 + f.ecn % 4] + Pack16(total % 0x1_0000) + Pack16(f.identification)
    + [f.fragmentOffset / 0x100 % 0x20 + Bit(f.dontFragment, 0x40) + Bit(f.moreFragments, 0x20), f.fragmentOffset % 0x100]
  }

  /** The other twelve. */
  function RoutingFields(f: Frame, checksum: uint16): (b: seq<byte>)
    ensures |b| == 12
  {
    [f.ttl, f.protocol] + Pack16(checksum) + f.srcIp + f.destIp
  }

  function IpHeaderWith(f: Frame, total: nat, checksum: uint16): (b: seq<byte>)
    ensures |b| == IP_HEADER
  {
    LengthFields(f, total) + RoutingFields(f, checksum)
  }

  function IpHeader(f: Frame, total: nat): (b: seq<byte>)
    ensures |b| == IP_HEADER
  {
    IpHeaderWith(f, total, InternetChecksum.Rfc1071(IpHeaderWith(f, total, 0)))
  }

  function UdpHeader(f: Frame, length: uint16): (b: seq<byte>)
    ensures |b| == UDP_HEADER
  {
    Pack16(f.srcPort) + Pack16(f.destPort) + Pack16(length) + Pack16(0)
  }

  /** `udp_packet::serialize`. The UDP length passes through a 16-bit parameter; when that
      truncates it, the UDP header would start before the buffer and the process aborts. */
  function Encode(f: Frame): Option<seq<byte>> {
    var length := UDP_HEADER + |f.payload|;
    if length > 0xffff then None
    else Some(EthernetHeader(f) + IpHeader(f, IP_HEADER + length) + UdpHeader(f, length) + f.payload)
  }

  // ---------- deserialization ----------

  function HeaderLength(input: seq<byte>): nat
    requires |input| >= 14
  {
    if Unpack16(input[12..]) == ETHERTYPE_VLAN then 18 else 14
  }

  function InnerEthertype(input: seq<byte>): uint16
    requires |input| >= 14 && |input| >= HeaderLength(input)
  {
    Unpack16(input[HeaderLength(input) - 2..])
  }

  function DecodeTag(tag: uint16): VlanTag {
    VlanTag(tag / 0x2000, tag / 0x1000 % 2 == 1, tag % 0x1000)
  }

  /** `raw_packet::deserialize` succeeds: the ethertype is known, and an IPv4 packet has a full
      header and carries ICMP, TCP or UDP. */
  predicate KnownPacket(input: seq<byte>) {
    && |input| >= 14 && |input| >= HeaderLength(input)
    && (|| InnerEthertype(input) == ETHERTYPE_ARP
        || InnerEthertype(input) == ETHERTYPE_IPV6
        || (&& InnerEthertype(input) == ETHERTYPE_IPV4
            && |input| >= HeaderLength(input) + IP_HEADER
            && KnownProtocol(input[HeaderLength(input) + 9])))
  }

  predicate KnownProtocol(protocol: byte) {
    protocol == 1 || protocol == 6 || protocol == 17
  }

  /** The deserializer reads IP and UDP headers of every known packet, and checks the length
      only for IPv4; it may be given other frames only when they are long enough for that. */
  predicate Readable(input: seq<byte>) {
    KnownPacket(input) ==> |input| >= HeaderLength(input) + IP_HEADER
  }

  function IpDecodable(ip: seq<byte>): bool
    requires |ip| >= IP_HEADER
  {
    && ip[0] == 0x45 && ip[6] < 0x80
    && Unpack16(ip[2..]) <= |ip|
  }

  /** `udp_packet::deserialize` on a packet object whose identification and payload fields hold
      the given values. The identification read from the wire goes into a local variable. An
      IP length below the header length wraps to a huge payload length, which no 16-bit UDP
      length matches. */
  function DecodeInto(identification: uint16, payload: seq<byte>, input: seq<byte>): Option<Frame>
    requires Readable(input)
  {
    if !KnownPacket(input) then None
    else
      var base := HeaderLength(input);
      var vlan := if base == 18 then Some(DecodeTag(Unpack16(input[14..]))) else None;
      DecodeDatagram(vlan, input[6..12], input[..6], identification, payload, input[base..])
  }

  /** The IP and UDP layers, given what the Ethernet layer found. */
  function DecodeDatagram(vlan: Option<VlanTag>, src: MacAddress, dest: MacAddress,
                          identification: uint16, payload: seq<byte>, ip: seq<byte>): Option<Frame>
    requires |ip| >= IP_HEADER
  {
    if !IpDecodable(ip) then None
    else
      var total := Unpack16(ip[2..]);
      if total < IP_HEADER + UDP_HEADER then None
      else
        var udp := ip[IP_HEADER..total];
        if Unpack16(udp[4..]) as nat != |udp| then None
        else
          Some(WithIpFields(
                 Frame(vlan, src, dest, 0, 0, identification, true, false, 0, 0, 0, [0, 0, 0, 0], [0, 0, 0, 0],
                       Unpack16(udp), Unpack16(udp[2..]), if |udp| > UDP_HEADER then udp[UDP_HEADER..] else payload), ip))
  }

  /** `f` with the fields `ip_packet::deserialize` takes from the IP header. */
  function WithIpFields(f: Frame, ip: seq<byte>): Frame
    requires |ip| >= IP_HEADER
  {
    f.(dscp := ip[1] / 4, ecn := ip[1] % 4,
       dontFragment := ip[6] / 0x40 % 2 == 1, moreFragments := ip[6] / 0x20 % 2 == 1,
       fragmentOffset := Word(ip[7], ip[6] % 0x20),
       ttl := ip[8], protocol := ip[9], srcIp := ip[12..16], destIp := ip[16..20])
  }

  function Decode(input: seq<byte>): Option<Frame>
    requires Readable(input)
  {
    DecodeInto(DEFAULT_IDENTIFICATION, [], input)
  }

  // ---------- round trip ----------

  /** What survives the trip: a dscp keeps two bits in the wrong place, a fragment offset comes
      back with its bytes swapped, and the identification is lost. */
  function Received(f: Frame): Frame {
    f.(vlan := if f.vlan.Some? then Some(VlanTag(f.vlan.value.pcp % 8, f.vlan.value.dei, f.vlan.value.id % 0x1000)) else None,
       dscp := f.dscp % 4 * 0x10,
       ecn := f.ecn % 4,
       fragmentOffset := Word(f.fragmentOffset % 0x100, f.fragmentOffset / 0x100 % 0x20),
       identification := DEFAULT_IDENTIFICATION)
  }

  lemma AddressesParse(dest: MacAddress, src: MacAddress, rest: seq<byte>)
    ensures var input := dest + src + rest;
            input[..6] == dest && input[6..12] == src && input[12..] == rest
  {
  }

  lemma UntaggedHeaderParses(f: Frame, rest: seq<byte>)
    requires f.vlan.None?
    ensures var input := EthernetHeader(f) + rest;
            && HeaderLength(input) == 14 && InnerEthertype(input) == ETHERTYPE_IPV4
            && input[..6] == f.destMac && input[6..12] == f.srcMac && input[14..] == rest
  {
    var input := EthernetHeader(f) + rest;
    assert input == f.destMac + f.srcMac + (Pack16(ETHERTYPE_IPV4) + rest);
    AddressesParse(f.destMac, f.srcMac, Pack16(ETHERTYPE_IPV4) + rest);
    Unpack16OfPack16(ETHERTYPE_IPV4, rest);
  }

  function TagBits(tag: VlanTag): uint16 {
    tag.pcp % 8 * 0x2000 + Bit(tag.dei, 0x1000) + tag.id % 0x1000
  }

  lemma TaggedHeaderParses(f: Frame, rest: seq<byte>)
    requires f.vlan.Some?
    ensures var input := EthernetHeader(f) + rest;
            && HeaderLength(input) == 18 && InnerEthertype(input) == ETHERTYPE_IPV4
            && input[..6] == f.destMac && input[6..12] == f.srcMac && input[18..] == rest
            && Unpack16(input[14..]) == TagBits(f.vlan.value)
  {
    var input := EthernetHeader(f) + rest;
    var inner := Pack16(ETHERTYPE_IPV4) + rest;
    var tagged := Pack16(TagBits(f.vlan.value)) + inner;
    assert input == f.destMac + f.srcMac + (Pack16(ETHERTYPE_VLAN) + tagged);
    AddressesParse(f.destMac, f.srcMac, Pack16(ETHERTYPE_VLAN) + tagged);
    Unpack16OfPack16(ETHERTYPE_VLAN, tagged);
    assert input[14..] == tagged;
    Unpack16OfPack16(TagBits(f.vlan.value), inner);
    assert input[16..] == inner;
    Unpack16OfPack16(ETHERTYPE_IPV4, rest);
  }

  lemma TagParses(pcp: byte, dei: bool, id: uint16)
    requires pcp < 8 && id < 0x1000
    ensures DecodeTag(pcp * 0x2000 + Bit(dei, 0x1000) + id) == VlanTag(pcp, dei, id)
  {
  }

  lemma LengthFieldsParse(f: Frame, total: uint16)
    ensures var b := LengthFields(f, total);
            && b[0] == 0x45 && b[1] == f.dscp % 4 * 0x40 + f.ecn % 4
            && Word(b[2], b[3]) == total && Word(b[4], b[5]) == f.identification
            && b[6] == f.fragmentOffset / 0x100 % 0x20 + Bit(f.dontFragment, 0x40) + Bit(f.moreFragments, 0x20)
            && b[7] == f.fragmentOffset % 0x100
  {
    var b := LengthFields(f, total);
    assert b[2] == Pack16(total)[0] && b[3] == Pack16(total)[1];
    assert b[4] == Pack16(f.identification)[0] && b[5] == Pack16(f.identification)[1];
  }

  lemma RoutingFieldsParse(f: Frame, checksum: uint16)
    ensures var b := RoutingFields(f, checksum);
            b[0] == f.ttl && b[1] == f.protocol && b[4..8] == f.srcIp && b[8..12] == f.destIp
  {
  }

  lemma IpHeaderParses(f: Frame, total: uint16, checksum: uint16, rest: seq<byte>)
    ensures var ip := IpHeaderWith(f, total, checksum) + rest;
            && ip[0] == 0x45 && ip[1] == f.dscp % 4 * 0x40 + f.ecn % 4
            && Unpack16(ip[2..]) == total && Word(ip[4], ip[5]) == f.identification
            && ip[6] == f.fragmentOffset / 0x100 % 0x20 + Bit(f.dontFragment, 0x40) + Bit(f.moreFragments, 0x20)
            && ip[7] == f.fragmentOffset % 0x100
            && ip[8] == f.ttl && ip[9] == f.protocol
            && ip[12..16] == f.srcIp && ip[16..20] == f.destIp && ip[20..] == rest
  {
    var front, back := LengthFields(f, total), RoutingFields(f, checksum);
    LengthFieldsParse(f, total);
    RoutingFieldsParse(f, checksum);
    Halves(front, back, rest);
  }

  lemma Halves(front: seq<byte>, back: seq<byte>, rest: seq<byte>)
    requires |front| == 8 && |back| == 12
    ensures var ip := front + back + rest;
            && (forall k :: 0 <= k < 8 ==> ip[k] == front[k])
            && Unpack16(ip[2..]) == Word(front[2], front[3])
            && ip[8] == back[0] && ip[9] == back[1]
            && ip[12..16] == back[4..8] && ip[16..20] == back[8..12] && ip[20..] == rest
  {
  }

  lemma UdpHeaderParses(f: Frame, length: uint16, rest: seq<byte>)
    ensures var udp := UdpHeader(f, length) + rest;
            && Unpack16(udp) == f.srcPort && Unpack16(udp[2..]) == f.destPort
            && Unpack16(udp[4..]) == length && udp[8..] == rest
  {
    var udp := UdpHeader(f, length) + rest;
    assert udp[0] == Pack16(f.srcPort)[0] && udp[1] == Pack16(f.srcPort)[1];
    assert udp[2] == Pack16(f.destPort)[0] && udp[3] == Pack16(f.destPort)[1];
    assert udp[4] == Pack16(length)[0] && udp[5] == Pack16(length)[1];
  }

  lemma ServiceByteParses(dscp: nat, ecn: nat)
    requires ecn < 4
    ensures (dscp * 0x40 + ecn) / 4 == dscp * 0x10 && (dscp * 0x40 + ecn) % 4 == ecn
  {
  }

  lemma FlagsParse(hi: byte, df: bool, mf: bool)
    requires hi < 0x20
    ensures var flags := hi + Bit(df, 0x40) + Bit(mf, 0x20);
            flags < 0x80 && (flags / 0x40 % 2 == 1) == df && (flags / 0x20 % 2 == 1) == mf && flags % 0x20 == hi
  {
  }

  /** The Ethernet layer hands the IP datagram on and keeps the addresses. */
  lemma EthernetParses(f: Frame, rest: seq<byte>)
    ensures var input := EthernetHeader(f) + rest;
            && HeaderLength(input) == EthernetLength(f) && InnerEthertype(input) == ETHERTYPE_IPV4
            && input[..6] == f.destMac && input[6..12] == f.srcMac && input[HeaderLength(input)..] == rest
            && Received(f).vlan == (if HeaderLength(input) == 18 then Some(DecodeTag(Unpack16(input[14..]))) else None)
  {
    if f.vlan.Some? {
      TaggedHeaderParses(f, rest);
      TagParses(f.vlan.value.pcp % 8, f.vlan.value.dei, f.vlan.value.id % 0x1000);
    } else {
      UntaggedHeaderParses(f, rest);
    }
  }

  /** Every encoded frame is readable, whatever its fields. */
  lemma EncodedIsReadable(f: Frame)
    requires Encode(f).Some?
    ensures Readable(Encode(f).value)
    ensures KnownPacket(Encode(f).value) <==> KnownProtocol(f.protocol)
  {
    var length := UDP_HEADER + |f.payload|;
    var datagram := IpHeader(f, IP_HEADER + length) + (UdpHeader(f, length) + f.payload);
    var input := EthernetHeader(f) + datagram;
    assert Encode(f).value == input;
    EthernetParses(f, datagram);
    assert input[HeaderLength(input) + 9] == datagram[9];
    var checksum := InternetChecksum.Rfc1071(IpHeaderWith(f, IP_HEADER + length, 0));
    assert IpHeader(f, IP_HEADER + length)[9] == f.protocol;
  }

  /** The facts about an IP header that carries `f`. */
  ghost predicate CarriesFields(ip: seq<byte>, f: Frame) {
    && |ip| >= IP_HEADER && ip[1] == f.dscp % 4 * 0x40 + f.ecn % 4
    && ip[6] == f.fragmentOffset / 0x100 % 0x20 + Bit(f.dontFragment, 0x40) + Bit(f.moreFragments, 0x20)
    && ip[7] == f.fragmentOffset % 0x100 && ip[8] == f.ttl && ip[9] == f.protocol
    && ip[12..16] == f.srcIp && ip[16..20] == f.destIp
  }

  lemma IpFieldsDecode(f: Frame, g: Frame, ip: seq<byte>)
    requires CarriesFields(ip, f)
    ensures ip[6] < 0x80
    ensures WithIpFields(g, ip) == Received(f).(vlan := g.vlan, srcMac := g.srcMac, destMac := g.destMac, identification := g.identification,
                                                srcPort := g.srcPort, destPort := g.destPort, payload := g.payload)
  {
    ServiceByteParses(f.dscp % 4, f.ecn % 4);
    FlagsParse(f.fragmentOffset / 0x100 % 0x20, f.dontFragment, f.moreFragments);
  }

  lemma FieldsDecode(f: Frame, vlan: Option<VlanTag>, ip: seq<byte>, udp: seq<byte>)
    requires |ip| == IP_HEADER + |udp| <= 0xffff && |udp| == UDP_HEADER + |f.payload| && ip[IP_HEADER..] == udp
    requires ip[0] == 0x45 && Unpack16(ip[2..]) == |ip| && CarriesFields(ip, f)
    requires Unpack16(udp) == f.srcPort && Unpack16(udp[2..]) == f.destPort
    requires Unpack16(udp[4..]) == |udp| && udp[8..] == f.payload
    ensures DecodeDatagram(vlan, f.srcMac, f.destMac, DEFAULT_IDENTIFICATION, [], ip) == Some(Received(f).(vlan := vlan))
  {
    var g := Frame(vlan, f.srcMac, f.destMac, 0, 0, DEFAULT_IDENTIFICATION, true, false, 0, 0, 0, [0, 0, 0, 0], [0, 0, 0, 0],
                   f.srcPort, f.destPort, f.payload);
    IpFieldsDecode(f, g, ip);
    assert ip[IP_HEADER..|ip|] == udp;
  }

  /** The datagram behind the Ethernet header, when the lengths fit into their fields. */
  lemma DatagramDecodes(f: Frame, vlan: Option<VlanTag>, checksum: uint16)
    requires IP_HEADER + UDP_HEADER + |f.payload| <= 0xffff
    ensures var length := UDP_HEADER + |f.payload|;
            DecodeDatagram(vlan, f.srcMac, f.destMac, DEFAULT_IDENTIFICATION, [],
                           IpHeaderWith(f, IP_HEADER + length, checksum) + (UdpHeader(f, length) + f.payload))
            == Some(Received(f).(vlan := vlan))
  {
    var length := UDP_HEADER + |f.payload|;
    var total := IP_HEADER + length;
    var udp := UdpHeader(f, length) + f.payload;
    IpHeaderParses(f, total, checksum, udp);
    UdpHeaderParses(f, length, f.payload);
    FieldsDecode(f, vlan, IpHeaderWith(f, total, checksum) + udp, udp);
  }

  /** A datagram whose total length does not fit into 16 bits is rejected. */
  lemma OversizedDatagramFails(f: Frame, vlan: Option<VlanTag>, checksum: uint16, total: nat, rest: seq<byte>)
    requires 0xffff < total < 0x1_0000 + IP_HEADER
    ensures DecodeDatagram(vlan, f.srcMac, f.destMac, DEFAULT_IDENTIFICATION, [], IpHeaderWith(f, total, checksum) + rest) == None
  {
    TotalIsTruncated(f, total, checksum);
    IpHeaderParses(f, total % 0x1_0000, checksum, rest);
  }

  /** What the receiver makes of an encoded frame. */
  lemma DecodeEncoded(f: Frame)
    requires Encode(f).Some?
    ensures Readable(Encode(f).value)
    ensures Decode(Encode(f).value)
            == if KnownProtocol(f.protocol) && IP_HEADER + UDP_HEADER + |f.payload| <= 0xffff then Some(Received(f)) else None
  {
    var length := UDP_HEADER + |f.payload|;
    var total := IP_HEADER + length;
    var checksum := InternetChecksum.Rfc1071(IpHeaderWith(f, total, 0));
    var udp := UdpHeader(f, length) + f.payload;
    EncodedIsReadable(f);
    assert Encode(f).value == EthernetHeader(f) + (IpHeaderWith(f, total, checksum) + udp);
    EthernetParses(f, IpHeaderWith(f, total, checksum) + udp);
    if total <= 0xffff {
      DatagramDecodes(f, Received(f).vlan, checksum);
    } else {
      OversizedDatagramFails(f, Received(f).vlan, checksum, total, udp);
    }
  }

  /** The frames the codec is faithful to. */
  predicate Faithful(f: Frame) {
    && f.dscp == 0 && f.ecn < 4
    && f.fragmentOffset / 0x100 == f.fragmentOffset % 0x100 < 0x20
    && f.identification == DEFAULT_IDENTIFICATION
    && KnownProtocol(f.protocol)
    && |f.payload| <= 0xffff - IP_HEADER - UDP_HEADER
    && (f.vlan.Some? ==> f.vlan.value.pcp < 8 && f.vlan.value.id < 0x1000)
  }

  lemma DscpSurvives(dscp: byte)
    ensures dscp % 4 * 0x10 == dscp <==> dscp == 0
  {
  }

  lemma OffsetSurvives(offset: uint16)
    ensures Word(offset % 0x100, offset / 0x100 % 0x20) == offset <==> offset / 0x100 == offset % 0x100 < 0x20
  {
    var hi, lo := offset / 0x100, offset % 0x100;
    assert offset == 0x100 * hi + lo;
  }

  lemma TagSurvives(tag: VlanTag)
    ensures VlanTag(tag.pcp % 8, tag.dei, tag.id % 0x1000) == tag <==> tag.pcp < 8 && tag.id < 0x1000
  {
  }

  lemma ReceivedUnchanged(f: Frame)
    requires KnownProtocol(f.protocol) && |f.payload| <= 0xffff - IP_HEADER - UDP_HEADER
    ensures Received(f) == f <==> Faithful(f)
  {
    DscpSurvives(f.dscp);
    OffsetSurvives(f.fragmentOffset);
    if f.vlan.Some? {
      TagSurvives(f.vlan.value);
    }
  }

  /** The exact domain of the round trip, over every value of every field. */
  lemma RoundTripExact(f: Frame)
    ensures Encode(f).Some? ==> Readable(Encode(f).value)
    ensures (Encode(f).Some? && Decode(Encode(f).value) == Some(f)) <==> Faithful(f)
  {
    if Encode(f).Some? {
      DecodeEncoded(f);
      if KnownProtocol(f.protocol) && |f.payload| <= 0xffff - IP_HEADER - UDP_HEADER {
        ReceivedUnchanged(f);
      }
    }
  }

  lemma FieldOfHeader(f: Frame, total: nat, checksum: uint16)
    ensures InternetChecksum.WithField(IpHeaderWith(f, total, 0), 10, checksum) == IpHeaderWith(f, total, checksum)
  {
    var front := LengthFields(f, total) + [f.ttl, f.protocol];
    assert |front| == 10;
    assert IpHeaderWith(f, total, 0) == front + Pack16(0) + (f.srcIp + f.destIp);
    assert IpHeaderWith(f, total, checksum) == front + Pack16(checksum) + (f.srcIp + f.destIp);
  }

  /** A receiver verifies every IP header the serializer writes. */
  lemma IpHeaderVerifies(f: Frame, total: nat)
    ensures InternetChecksum.OnesSum(IpHeader(f, total)) == 0xffff
  {
    var blank := IpHeaderWith(f, total, 0);
    FieldOfHeader(f, total, 0);
    FieldOfHeader(f, total, InternetChecksum.Rfc1071(blank));
    InternetChecksum.ChecksummedSumsToOnes(blank, 10);
  }

  // ---------- the wire format, byte by byte ----------

  /** Two bytes of `data` hold a number in network byte order. */
  predicate Holds16(data: seq<byte>, at: nat, v: int) {
    at + 2 <= |data| && 256 * (data[at] as int) + data[at + 1] as int == v
  }

  lemma PackedHolds(front: seq<byte>, v: uint16, back: seq<byte>)
    ensures Holds16(front + Pack16(v) + back, |front|, v)
  {
    var data := front + Pack16(v) + back;
    assert data[|front|] == Pack16(v)[0] && data[|front| + 1] == Pack16(v)[1];
  }

  /** Three bits of priority, the drop flag, twelve bits of identifier. */
  function TagNumber(tag: VlanTag): int {
    tag.pcp % 8 * 8192 + (if tag.dei then 4096 else 0) + tag.id % 4096
  }

  lemma EthernetLayout(f: Frame)
    ensures var b := EthernetHeader(f);
            && b[..6] == f.destMac && b[6..12] == f.srcMac
            && |b| == (if f.vlan.Some? then 18 else 14) && Holds16(b, |b| - 2, 0x0800)
            && (f.vlan.Some? ==> Holds16(b, 12, 0x8100) && Holds16(b, 14, TagNumber(f.vlan.value)))
  {
    var addresses := f.destMac + f.srcMac;
    if f.vlan.Some? {
      var inner := Pack16(ETHERTYPE_IPV4);
      var tag := Pack16(TagBits(f.vlan.value));
      assert EthernetHeader(f) == addresses + Pack16(ETHERTYPE_VLAN) + (tag + inner);
      PackedHolds(addresses, ETHERTYPE_VLAN, tag + inner);
      assert EthernetHeader(f) == (addresses + Pack16(ETHERTYPE_VLAN)) + tag + inner;
      PackedHolds(addresses + Pack16(ETHERTYPE_VLAN), TagBits(f.vlan.value), inner);
      assert EthernetHeader(f) == (addresses + Pack16(ETHERTYPE_VLAN) + tag) + inner + [];
      PackedHolds(addresses + Pack16(ETHERTYPE_VLAN) + tag, ETHERTYPE_IPV4, []);
    } else {
      assert EthernetHeader(f) == addresses + Pack16(ETHERTYPE_IPV4) + [];
      PackedHolds(addresses, ETHERTYPE_IPV4, []);
    }
  }

  /** The twenty bytes of an IP header, the checksum verifying. */
  ghost predicate IpBytes(b: seq<byte>, f: Frame, total: int) {
    && |b| >= 20 && b[0] == 0x45 && b[1] == f.dscp % 4 * 64 + f.ecn % 4
    && Holds16(b, 2, total) && Holds16(b, 4, f.identification)
    && b[6] == f.fragmentOffset / 256 % 32 + (if f.dontFragment then 64 else 0) + (if f.moreFragments then 32 else 0)
    && b[7] == f.fragmentOffset % 256 && b[8] == f.ttl && b[9] == f.protocol
    && b[12..16] == f.srcIp && b[16..20] == f.destIp
    && InternetChecksum.OnesSum(b[..20]) == 0xffff
  }

  lemma TotalIsTruncated(f: Frame, total: nat, checksum: uint16)
    ensures IpHeaderWith(f, total, checksum) == IpHeaderWith(f, total % 0x1_0000, checksum)
  {
  }

  lemma IpLayout(f: Frame, total: nat)
    ensures IpBytes(IpHeader(f, total), f, total % 65536)
  {
    var checksum := InternetChecksum.Rfc1071(IpHeaderWith(f, total, 0));
    var b := IpHeaderWith(f, total, checksum);
    assert b + [] == b && b[..20] == b;
    TotalIsTruncated(f, total, checksum);
    IpHeaderParses(f, total % 65536, checksum, []);
    IpHeaderVerifies(f, total);
  }

  lemma UdpLayout(f: Frame, length: uint16)
    ensures var b := UdpHeader(f, length);
            Holds16(b, 0, f.srcPort) && Holds16(b, 2, f.destPort) && Holds16(b, 4, length) && Holds16(b, 6, 0)
  {
    var b := UdpHeader(f, length);
    var ports := Pack16(f.srcPort) + Pack16(f.destPort);
    assert b == ports + Pack16(length) + Pack16(0);
    PackedHolds(ports, length, Pack16(0));
    assert b == (ports + Pack16(length)) + Pack16(0) + [];
    PackedHolds(ports + Pack16(length), 0, []);
    assert b == Pack16(f.srcPort) + Pack16(f.destPort) + (Pack16(length) + Pack16(0));
    PackedHolds(Pack16(f.srcPort), f.destPort, Pack16(length) + Pack16(0));
    assert b[0] == Pack16(f.srcPort)[0] && b[1] == Pack16(f.srcPort)[1];
  }

  /** The serializer aborts exactly on payloads that overflow the 16-bit UDP length. */
  lemma EncodesExactly(f: Frame)
    ensures Encode(f).Some? <==> |f.payload| <= 65527
  {
  }

  /** Where the four parts of an encoded frame lie. */
  lemma FrameParts(f: Frame)
    requires Encode(f).Some?
    ensures var w, base := Encode(f).value, if f.vlan.Some? then 18 else 14;
            && |w| == base + 28 + |f.payload|
            && w[..base] == EthernetHeader(f)
            && w[base..] == IpHeader(f, 28 + |f.payload|) + (UdpHeader(f, 8 + |f.payload|) + f.payload)
  {
    var rest := IpHeader(f, 28 + |f.payload|) + (UdpHeader(f, 8 + |f.payload|) + f.payload);
    assert Encode(f).value == EthernetHeader(f) + rest;
  }

  /** Reading a number inside a part reads it in the whole. */
  lemma HoldsInside(w: seq<byte>, from: nat, to: nat, at: nat, v: int)
    requires from <= to <= |w| && Holds16(w[from..to], at, v)
    ensures Holds16(w, from + at, v)
  {
    assert w[from..to][at] == w[from + at] && w[from..to][at + 1] == w[from + at + 1];
  }

  /** The link layer of an encoded frame, at absolute offsets. */
  lemma FrameLinkLayout(f: Frame)
    requires Encode(f).Some?
    ensures var w := Encode(f).value;
            && |w| == (if f.vlan.Some? then 18 else 14) + 28 + |f.payload|
            && w[..6] == f.destMac && w[6..12] == f.srcMac
            && Holds16(w, if f.vlan.Some? then 16 else 12, 0x0800)
            && (f.vlan.Some? ==> Holds16(w, 12, 0x8100) && Holds16(w, 14, TagNumber(f.vlan.value)))
  {
    var w, base := Encode(f).value, if f.vlan.Some? then 18 else 14;
    FrameParts(f);
    EthernetLayout(f);
    assert w[..6] == w[..base][..6] && w[6..12] == w[..base][6..12] && w[0..base] == w[..base];
    HoldsInside(w, 0, base, base - 2, 0x0800);
    if f.vlan.Some? {
      HoldsInside(w, 0, base, 12, 0x8100);
      HoldsInside(w, 0, base, 14, TagNumber(f.vlan.value));
    }
  }

  /** The IP datagram of an encoded frame; a total length beyond 16 bits is cut off. */
  lemma FrameDatagramLayout(f: Frame)
    requires Encode(f).Some?
    ensures var ip := Encode(f).value[if f.vlan.Some? then 18 else 14..];
            && IpBytes(ip, f, (28 + |f.payload|) % 65536)
            && Holds16(ip, 20, f.srcPort) && Holds16(ip, 22, f.destPort)
            && Holds16(ip, 24, 8 + |f.payload|) && Holds16(ip, 26, 0) && ip[28..] == f.payload
  {
    var w, base := Encode(f).value, if f.vlan.Some? then 18 else 14;
    var header, udp := IpHeader(f, 28 + |f.payload|), UdpHeader(f, 8 + |f.payload|);
    FrameParts(f);
    IpLayout(f, 28 + |f.payload|);
    IpBytesInside(header, udp + f.payload, f, (28 + |f.payload|) % 65536);
    UdpInside(f, header, udp);
  }

  lemma IpBytesInside(header: seq<byte>, rest: seq<byte>, f: Frame, total: int)
    requires |header| == 20 && IpBytes(header, f, total)
    ensures IpBytes(header + rest, f, total)
  {
    var ip := header + rest;
    assert ip[..20] == header == header[..20];
    assert ip[12..16] == header[12..16] && ip[16..20] == header[16..20];
  }

  lemma UdpInside(f: Frame, header: seq<byte>, udp: seq<byte>)
    requires 8 + |f.payload| <= 65535 && |header| == 20 && udp == UdpHeader(f, 8 + |f.payload|)
    ensures var ip := header + (udp + f.payload);
            && Holds16(ip, 20, f.srcPort) && Holds16(ip, 22, f.destPort)
            && Holds16(ip, 24, 8 + |f.payload|) && Holds16(ip, 26, 0) && ip[28..] == f.payload
  {
    var ip := header + (udp + f.payload);
    UdpLayout(f, 8 + |f.payload|);
    assert ip[20..28] == udp;
    HoldsInside(ip, 20, 28, 0, f.srcPort);
    HoldsInside(ip, 20, 28, 2, f.destPort);
    HoldsInside(ip, 20, 28, 4, 8 + |f.payload|);
    HoldsInside(ip, 20, 28, 6, 0);
  }

  // ---------- what a receiver reads from any input ----------

  /** The number two bytes hold in network byte order. */
  function Number16(data: seq<byte>, at: nat): int
    requires at + 2 <= |data|
  {
    256 * (data[at] as int) + data[at + 1] as int
  }

  /** The Ethernet layer accepts a frame: with a VLAN tag the IP packet starts at byte 18, otherwise
      at byte 14; ARP and IPv6 are let through, IPv4 only with ICMP, TCP or UDP inside. */
  predicate LinkAccepts(input: seq<byte>) {
    && |input| >= 14 && (Number16(input, 12) == 0x8100 ==> |input| >= 18)
    && var base := if Number16(input, 12) == 0x8100 then 18 else 14;
       var ethertype := Number16(input, base - 2);
       || ethertype == 0x0806 || ethertype == 0x86dd
       || (ethertype == 0x0800 && |input| >= base + 20
           && (input[base + 9] == 1 || input[base + 9] == 6 || input[base + 9] == 17))
  }

  /** The IP and UDP layers accept a datagram: version 4, no options, the reserved flag clear, a
      length that fits the input, and a UDP length that agrees with it. */
  predicate DatagramAccepted(ip: seq<byte>) {
    && |ip| >= 28 && ip[0] == 0x45 && ip[6] < 128
    && 28 <= Number16(ip, 2) <= |ip| && Number16(ip, 24) == Number16(ip, 2) - 20
  }

  lemma LinkAcceptsExactly(input: seq<byte>)
    ensures KnownPacket(input) <==> LinkAccepts(input)
    ensures |input| >= 14 ==> HeaderLength(input) == if Number16(input, 12) == 0x8100 then 18 else 14
  {
  }

  lemma DatagramAcceptedExactly(vlan: Option<VlanTag>, src: MacAddress, dest: MacAddress,
                                identification: uint16, payload: seq<byte>, ip: seq<byte>)
    requires |ip| >= 20
    ensures DecodeDatagram(vlan, src, dest, identification, payload, ip).Some? <==> DatagramAccepted(ip)
  {
    if IpDecodable(ip) && 28 <= Unpack16(ip[2..]) <= |ip| {
      var udp := ip[IP_HEADER..Unpack16(ip[2..])];
      assert udp[4] == ip[24] && udp[5] == ip[25];
    }
  }

  /** For every input: when the receiver accepts it. */
  lemma AcceptsExactly(input: seq<byte>, identification: uint16, payload: seq<byte>)
    requires Readable(input)
    ensures DecodeInto(identification, payload, input).Some?
            <==> LinkAccepts(input) && DatagramAccepted(input[if Number16(input, 12) == 0x8100 then 18 else 14..])
  {
    LinkAcceptsExactly(input);
    if KnownPacket(input) {
      var base := HeaderLength(input);
      DatagramAcceptedExactly(if base == 18 then Some(DecodeTag(Unpack16(input[14..]))) else None,
                              input[6..12], input[..6], identification, payload, input[base..]);
    }
  }

  /** For every accepted input: where each field comes from. */
  lemma FieldsRead(input: seq<byte>, identification: uint16, payload: seq<byte>)
    requires Readable(input) && DecodeInto(identification, payload, input).Some?
    requires LinkAccepts(input) && DatagramAccepted(input[if Number16(input, 12) == 0x8100 then 18 else 14..])
    ensures var f := DecodeInto(identification, payload, input).value;
            && f.destMac == input[..6] && f.srcMac == input[6..12]
            && (f.vlan.Some? <==> Number16(input, 12) == 0x8100)
            && (f.vlan.Some? ==> var tag := Number16(input, 14);
                                 f.vlan.value == VlanTag(tag / 8192, tag / 4096 % 2 == 1, tag % 4096))
            && f.identification == identification
            && DatagramFields(f, input[if Number16(input, 12) == 0x8100 then 18 else 14..], payload)
  {
    LinkAcceptsExactly(input);
    var base := HeaderLength(input);
    var vlan := if base == 18 then Some(DecodeTag(Unpack16(input[14..]))) else None;
    DatagramFieldsRead(vlan, input[6..12], input[..6], identification, payload, input[base..]);
  }

  /** The fields of a decoded datagram; an empty UDP payload leaves the old payload in place. */
  ghost predicate DatagramFields(f: Frame, ip: seq<byte>, payload: seq<byte>)
    requires DatagramAccepted(ip)
  {
    && f.dscp == ip[1] / 4 && f.ecn == ip[1] % 4
    && f.dontFragment == (ip[6] / 64 % 2 == 1) && f.moreFragments == (ip[6] / 32 % 2 == 1)
    && f.fragmentOffset as int == 256 * (ip[7] as int) + (ip[6] as int) % 32
    && f.ttl == ip[8] && f.protocol == ip[9] && f.srcIp == ip[12..16] && f.destIp == ip[16..20]
    && f.srcPort as int == Number16(ip, 20) && f.destPort as int == Number16(ip, 22)
    && f.payload == if Number16(ip, 2) > 28 then ip[28..Number16(ip, 2)] else payload
  }

  lemma DatagramFieldsRead(vlan: Option<VlanTag>, src: MacAddress, dest: MacAddress,
                           identification: uint16, payload: seq<byte>, ip: seq<byte>)
    requires DatagramAccepted(ip)
    ensures var d := DecodeDatagram(vlan, src, dest, identification, payload, ip);
            && d.Some? && d.value.vlan == vlan && d.value.srcMac == src && d.value.destMac == dest
            && d.value.identification == identification && DatagramFields(d.value, ip, payload)
  {
    var udp := ip[IP_HEADER..Unpack16(ip[2..])];
    assert forall k :: 0 <= k < 8 ==> udp[k] == ip[20 + k];
    assert udp[8..] == ip[28..Number16(ip, 2)];
  }

  lemma HeaderBits(first: byte, flags: byte)
    ensures first == 0x45 <==> first / 0x10 == 4 && first % 0x10 == 5
    ensures flags < 0x80 <==> flags / 0x80 != 1
  {
  }

  // ---------- the packet object ----------

  /** `memcpy` into a buffer, in the form that suits writing a header front to back. */
  method PutBytes(dest: array<byte>, at: nat, bytes: seq<byte>)
    requires at + |bytes| <= dest.Length
    modifies dest
    ensures dest[..at + |bytes|] == old(dest[..at]) + bytes
    ensures dest[at + |bytes|..] == old(dest[at + |bytes|..])
  {
    forall k | 0 <= k < |bytes| {
      dest[at + k] := bytes[k];
    }
  }

  class Packet {
    var hasVlanTag: bool
    var vlanTag: VlanTag
    var srcMac: MacAddress
    var destMac: MacAddress
    var dscp: byte
    var ecn: byte
    var identification: uint16
    var dontFragment: bool
    var moreFragments: bool
    var fragmentOffset: uint16
    var ttl: byte
    var protocol: byte
    var srcIp: IpAddress
    var destIp: IpAddress
    var srcPort: uint16
    var destPort: uint16
    var udpPayload: seq<byte>

    ghost function View(): Frame
      reads this
    {
      Frame(if hasVlanTag then Some(vlanTag) else None, srcMac, destMac, dscp, ecn, identification,
            dontFragment, moreFragments, fragmentOffset, ttl, protocol, srcIp, destIp, srcPort, destPort, udpPayload)
    }

    /** A fresh packet, as `udp_packet()` leaves it: the ports are not initialised. */
    constructor ()
      ensures View() == Frame(None, [0, 0, 0, 0, 0, 0], [0, 0, 0, 0, 0, 0], 0, 0, 54635,
                              true, false, 0, 64, 17, [0, 0, 0, 0], [0, 0, 0, 0], srcPort, destPort, [])
    {
      hasVlanTag, vlanTag := false, VlanTag(0, false, 1);
      srcMac, destMac := [0, 0, 0, 0, 0, 0], [0, 0, 0, 0, 0, 0];
      dscp, ecn, identification := 0, 0, DEFAULT_IDENTIFICATION;
      dontFragment, moreFragments, fragmentOffset := true, false, 0;
      ttl, protocol := 64, 17;
      srcIp, destIp := [0, 0, 0, 0], [0, 0, 0, 0];
      udpPayload := [];
    }

    method WriteEthernetHeader(dest: array<byte>) returns (size: nat)
      requires dest.Length >= EthernetLength(View())
      modifies dest
      ensures size == EthernetLength(View()) && dest[..size] == EthernetHeader(View())
    {
      PutBytes(dest, 0, destMac);
      PutBytes(dest, 6, srcMac);
      ghost var addresses := destMac + srcMac;
      assert dest[..12] == addresses;
      size := 12;
      if hasVlanTag {
        PutBytes(dest, 12, Pack16(ETHERTYPE_VLAN));
        PutBytes(dest, 14, Pack16(vlanTag.pcp % 8 * 0x2000 + Bit(vlanTag.dei, 0x1000) + vlanTag.id % 0x1000));
        size := 16;
        assert dest[..16] == addresses + VlanBytes(vlanTag);
      }
      PutBytes(dest, size, Pack16(ETHERTYPE_IPV4));
      size := size + 2;
    }

    /** `serialize_special`: the header is written with a blank checksum, which is then computed
        over it and filled in. */
    method WriteIpHeader(dest: array<byte>, base: nat, total: nat)
      requires base + IP_HEADER <= dest.Length
      modifies dest
      ensures dest[..base + IP_HEADER] == old(dest[..base]) + IpHeader(View(), total)
    {
      ghost var before := dest[..base];
      WriteIpFields(dest, base, total);
      ghost var blank := IpHeaderWith(View(), total, 0);
      var header := dest[base..base + IP_HEADER];
      assert header == blank;
      var checksum := InternetChecksum.ChecksumIp(header);
      FieldOfHeader(View(), total, 0);
      FieldOfHeader(View(), total, checksum);
      dest[base + 10] := checksum / 0x100;
      dest[base + 11] := checksum % 0x100;
      assert dest[..base + IP_HEADER] == before + InternetChecksum.WithField(blank, 10, checksum);
    }

    method WriteIpFields(dest: array<byte>, base: nat, total: nat)
      requires base + IP_HEADER <= dest.Length
      modifies dest
      ensures dest[..base + IP_HEADER] == old(dest[..base]) + IpHeaderWith(View(), total, 0)
    {
      ghost var before := dest[..base];
      WriteIpLengths(dest, base, total);
      ghost var h := LengthFields(View(), total);
      WriteIpRouting(dest, base + 8);
      assert dest[..base + IP_HEADER] == before + (h + RoutingFields(View(), 0));
    }

    method WriteIpLengths(dest: array<byte>, base: nat, total: nat)
      requires base + 8 <= dest.Length
      modifies dest
      ensures dest[..base + 8] == old(dest[..base]) + LengthFields(View(), total)
    {
      ghost var before, h := dest[..base], [0x45, dscp % 4 * 0x40 + ecn % 4];
      PutBytes(dest, base, [0x45, dscp % 4 * 0x40 + ecn % 4]);
      PutBytes(dest, base + 2, Pack16(total % 0x1_0000));
      h := h + Pack16(total % 0x1_0000);
      assert dest[..base + 4] == before + h;
      PutBytes(dest, base + 4, Pack16(identification));
      h := h + Pack16(identification);
      assert dest[..base + 6] == before + h;
      PutBytes(dest, base + 6, [fragmentOffset / 0x100 % 0x20 + Bit(dontFragment, 0x40) + Bit(moreFragments, 0x20), fragmentOffset % 0x100]);
    }

    method WriteIpRouting(dest: array<byte>, at: nat)
      requires at + 12 <= dest.Length
      modifies dest
      ensures dest[..at + 12] == old(dest[..at]) + RoutingFields(View(), 0)
    {
      ghost var before, h := dest[..at], [ttl, protocol];
      PutBytes(dest, at, [ttl, protocol]);
      PutBytes(dest, at + 2, Pack16(0));
      h := h + Pack16(0);
      assert dest[..at + 4] == before + h;
      PutBytes(dest, at + 4, srcIp);
      h := h + srcIp;
      assert dest[..at + 8] == before + h;
      PutBytes(dest, at + 8, destIp);
    }

    method WriteUdp(dest: array<byte>, at: nat, udpSize: uint16)
      requires udpSize == UDP_HEADER + |udpPayload| && at + udpSize <= dest.Length
      modifies dest
      ensures dest[..at + udpSize] == old(dest[..at]) + UdpHeader(View(), udpSize) + udpPayload
    {
      ghost var before, h := dest[..at], Pack16(srcPort) + Pack16(destPort);
      PutBytes(dest, at, Pack16(srcPort));
      PutBytes(dest, at + 2, Pack16(destPort));
      assert dest[..at + 4] == before + h;
      PutBytes(dest, at + 4, Pack16(udpSize));
      h := h + Pack16(udpSize);
      assert dest[..at + 6] == before + h;
      PutBytes(dest, at + 6, Pack16(0));
      assert dest[..at + 8] == before + UdpHeader(View(), udpSize);
      PutBytes(dest, at + 8, udpPayload);
    }

    /** `serialize`; `None` is the abort on a payload that overflows the 16-bit length. */
    method Serialize() returns (result: Option<array<byte>>)
      ensures result.Some? == Encode(View()).Some?
      ensures result.Some? ==> fresh(result.value) && result.value[..] == Encode(View()).value
    {
      var udpSize := UDP_HEADER + |udpPayload|;
      var base := if hasVlanTag then 18 else 14;
      var fullSize := base + IP_HEADER + udpSize % 0x1_0000;
      if fullSize < udpSize {
        return None;
      }
      var dest := new byte[fullSize];
      FillFrame(dest, base, udpSize);
      result := Some(dest);
    }

    method FillFrame(dest: array<byte>, base: nat, udpSize: uint16)
      requires base == EthernetLength(View()) && udpSize == UDP_HEADER + |udpPayload|
      requires dest.Length == base + IP_HEADER + udpSize
      modifies dest
      ensures dest[..] == EthernetHeader(View()) + IpHeader(View(), IP_HEADER + udpSize) + UdpHeader(View(), udpSize) + udpPayload
    {
      var size := WriteEthernetHeader(dest);
      ghost var headers := EthernetHeader(View());
      WriteIpHeader(dest, base, IP_HEADER + udpSize);
      headers := headers + IpHeader(View(), IP_HEADER + udpSize);
      assert dest[..base + IP_HEADER] == headers;
      WriteUdp(dest, base + IP_HEADER, udpSize);
      assert dest[..] == dest[..base + IP_HEADER + udpSize] == headers + UdpHeader(View(), udpSize) + udpPayload;
    }

    /** `deserialize`. Fields may have been assigned when it returns false. */
    method Deserialize(input: seq<byte>) returns (ok: bool)
      requires Readable(input)
      modifies this
      ensures ok == DecodeInto(old(identification), old(udpPayload), input).Some?
      ensures ok ==> View() == DecodeInto(old(identification), old(udpPayload), input).value
    {
      if |input| < 14 { return false; }
      destMac, srcMac := input[..6], input[6..12];
      var ethertype := Unpack16(input[12..]);
      var base := 14;
      hasVlanTag, vlanTag := false, VlanTag(0, false, 1);
      if ethertype == ETHERTYPE_VLAN {
        if |input| < 18 { return false; }
        base := 18;
        var tag := Unpack16(input[14..]);
        hasVlanTag, vlanTag := true, VlanTag(tag / 0x2000, tag / 0x1000 % 2 == 1, tag % 0x1000);
        ethertype := Unpack16(input[16..]);
      }
      if ethertype == ETHERTYPE_IPV4 {
        if |input| < base + IP_HEADER || !KnownProtocol(input[base + 9]) { return false; }
      } else if ethertype != ETHERTYPE_ARP && ethertype != ETHERTYPE_IPV6 {
        return false;
      }
      ok := DeserializeDatagram(input[base..]);
    }

    method DeserializeDatagram(ip: seq<byte>) returns (ok: bool)
      requires |ip| >= IP_HEADER
      modifies this
      ensures var decoded := DecodeDatagram(old(View()).vlan, old(srcMac), old(destMac), old(identification), old(udpPayload), ip);
              ok == decoded.Some? && (ok ==> View() == decoded.value)
    {
      var total := Unpack16(ip[2..]);
      ok := DeserializeIpHeader(ip, total);
      if !ok || total < IP_HEADER + UDP_HEADER { return false; }
      var udp := ip[IP_HEADER..total];
      srcPort, destPort := Unpack16(udp), Unpack16(udp[2..]);
      if Unpack16(udp[4..]) != |udp| { return false; }
      if |udp| > UDP_HEADER {
        udpPayload := udp[UDP_HEADER..];
      }
    }

    method DeserializeIpHeader(ip: seq<byte>, total: uint16) returns (ok: bool)
      requires |ip| >= IP_HEADER && total == Unpack16(ip[2..])
      modifies this
      ensures ok == IpDecodable(ip)
      ensures ok ==> View() == WithIpFields(old(View()), ip)
    {
      HeaderBits(ip[0], ip[6]);
      if ip[0] / 0x10 != 4 || ip[0] % 0x10 != 5 { return false; }
      if total > |ip| || ip[6] / 0x80 == 1 { return false; }
      AssignIpFields(ip);
      ok := true;
    }

    method AssignIpFields(ip: seq<byte>)
      requires |ip| >= IP_HEADER
      modifies this
      ensures View() == WithIpFields(old(View()), ip)
    {
      var src: IpAddress, dst: IpAddress := ip[12..16], ip[16..20];
      dscp, ecn := ip[1] / 4, ip[1] % 4;
      dontFragment, moreFragments := ip[6] / 0x40 % 2 == 1, ip[6] / 0x20 % 2 == 1;
      fragmentOffset := Word(ip[7], ip[6] % 0x20);
      ttl, protocol := ip[8], ip[9];
      srcIp, destIp := src, dst;
    }
  }
}
