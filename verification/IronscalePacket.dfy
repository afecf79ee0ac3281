/** Ironscale packets: a small header and a payload carried in a UDP packet between two fixed
    ports, under a masked source address.
    Source: common/ironscale_packet.cpp, common/ironscale_packet.h. */
module IronscalePacket {
  import opened Bytes
  import opened Common

  import opened UdpPacket

  datatype ServiceKind = Unknown | Probe | Hello | HelloReply | ServiceSetup

  datatype Ironscale = Ironscale(
    requestType: ServiceKind,
    requestId: uint32,
    srcMac: MacAddress,
    destMac: MacAddress,
    payload: seq<byte>)

  const PORT: uint16 := 10000
  const MASKED_MAC: seq<byte> := [0xaa, 0xaa, 0xaa, 0xaa, 0xaa, 0xaa]
  const HEADER: nat := 18
  /** The largest payload that fits below the UDP, IPv4 and Ironscale headers. */
  const MAX_PAYLOAD: nat := 65489

  function Code(kind: ServiceKind): uint16 {
    match kind
    case Unknown => 0
    case Probe => 1
    case Hello => 2
    case HelloReply => 3
    case ServiceSetup => 4
  }

  /** `uint16_to_service_type`: codes outside the enumeration become `Unknown`. */
  function KindOf(code: uint16): (kind: ServiceKind)
    ensures code <= 4 ==> Code(kind) == code
    ensures code > 4 ==> kind == Unknown
  {
    if code == 1 then Probe
    else if code == 2 then Hello
    else if code == 3 then HelloReply
    else if code == 4 then ServiceSetup
    else Unknown
  }

  function Body(p: Ironscale): seq<byte> {
    Pack16(Code(p.requestType)) + Pack32(p.requestId) + p.srcMac + p.destMac + p.payload
  }

  /** The UDP packet that carries `p`. */
  function Carrier(p: Ironscale): Frame {
    Frame(None, MASKED_MAC, p.destMac, 0, 0, DEFAULT_IDENTIFICATION, true, false, 0, 64, 17,
          [0, 0, 0, 0], [0, 0, 0, 0], PORT, PORT, Body(p))
  }

  function EncodeIronscale(p: Ironscale): Option<seq<byte>> {
    Encode(Carrier(p))
  }

  /** `is_ironscale_packet`. */
  predicate IsIronscale(f: Frame) {
    f.srcMac == MASKED_MAC && f.srcPort == PORT && f.destPort == PORT && |f.payload| >= HEADER
  }

  function ParseBody(body: seq<byte>): Ironscale
    requires |body| >= HEADER
  {
    Ironscale(KindOf(Unpack16(body)), Unpack32(body[2..]), body[6..12], body[12..18], body[18..])
  }

  function DecodeIronscale(buf: seq<byte>): Option<Ironscale>
    requires Readable(buf)
  {
    var f := Decode(buf);
    if f.Some? && IsIronscale(f.value) then Some(ParseBody(f.value.payload)) else None
  }

  /** The numbers of the service types on the wire. */
  lemma Codes()
    ensures Code(Unknown) == 0 && Code(Probe) == 1 && Code(Hello) == 2 && Code(HelloReply) == 3 && Code(ServiceSetup) == 4
    ensures KindOf(1) == Probe && KindOf(2) == Hello && KindOf(3) == HelloReply && KindOf(4) == ServiceSetup
  {
  }

  lemma KindSurvives(kind: ServiceKind)
    ensures KindOf(Code(kind)) == kind
  {
  }

  lemma BodyParses(p: Ironscale)
    ensures |Body(p)| == HEADER + |p.payload|
    ensures ParseBody(Body(p)) == p
  {
    var addressed := p.srcMac + p.destMac + p.payload;
    var numbered := Pack32(p.requestId) + addressed;
    assert Body(p) == Pack16(Code(p.requestType)) + numbered;
    Unpack16OfPack16(Code(p.requestType), numbered);
    Unpack32OfPack32(p.requestId, addressed);
    assert Body(p)[2..] == numbered;
    assert Body(p)[6..] == addressed;
    AddressesParse(p.srcMac, p.destMac, p.payload);
    assert Body(p)[6..12] == addressed[..6] && Body(p)[12..18] == addressed[6..12] && Body(p)[18..] == addressed[12..];
    KindSurvives(p.requestType);
  }

  /** The eighteen bytes of the Ironscale header, and the payload behind them. */
  lemma BodyLayout(p: Ironscale)
    ensures var b := Body(p);
            && |b| == 18 + |p.payload| && Holds16(b, 0, Code(p.requestType))
            && b[2] == p.requestId / 0x100_0000 && b[3] == p.requestId / 0x1_0000 % 256
            && b[4] == p.requestId / 256 % 256 && b[5] == p.requestId % 256
            && b[6..12] == p.srcMac && b[12..18] == p.destMac && b[18..] == p.payload
  {
    var b, code, id := Body(p), Pack16(Code(p.requestType)), Pack32(p.requestId);
    BigEndian32(p.requestId, []);
    assert b[0] == code[0] && b[1] == code[1];
    assert forall k :: 0 <= k < 4 ==> b[2 + k] == id[k];
  }

  /** On the wire: no VLAN tag, the masked source address, UDP between the two ports from and to
      0.0.0.0, and the body. */
  lemma CarrierLayout(p: Ironscale)
    requires EncodeIronscale(p).Some?
    ensures var w := EncodeIronscale(p).value;
            && |w| == 42 + 18 + |p.payload|
            && w[..6] == p.destMac && w[6..12] == [0xaa, 0xaa, 0xaa, 0xaa, 0xaa, 0xaa] && Holds16(w, 12, 0x0800)
            && w[14..][9] == 17 && w[14..][12..16] == [0, 0, 0, 0] && w[14..][16..20] == [0, 0, 0, 0]
            && Holds16(w[14..], 20, 10000) && Holds16(w[14..], 22, 10000) && w[14..][28..] == Body(p)
  {
    FrameLinkLayout(Carrier(p));
    FrameDatagramLayout(Carrier(p));
    BodyParses(p);
  }

  /** For every input: a buffer is an Ironscale packet if and only if it decodes to a UDP packet with
      the masked source address, both ports 10000, and room for the header. */
  lemma IronscaleExactly(buf: seq<byte>)
    requires Readable(buf)
    ensures DecodeIronscale(buf).Some?
            <==> Decode(buf).Some? && (var f := Decode(buf).value;
                 f.srcMac == [0xaa, 0xaa, 0xaa, 0xaa, 0xaa, 0xaa] && f.srcPort == 10000 && f.destPort == 10000 && |f.payload| >= 18)
    ensures DecodeIronscale(buf).Some? ==>
              var body, p := Decode(buf).value.payload, DecodeIronscale(buf).value;
              && p.requestType == KindOf(Number16(body, 0))
              && p.requestId as int == 0x1_0000 * Number16(body, 2) + Number16(body, 4)
              && p.srcMac == body[6..12] && p.destMac == body[12..18] && p.payload == body[18..]
  {
    if DecodeIronscale(buf).Some? {
      var body := Decode(buf).value.payload;
      assert body[2..][0] == body[2] && body[2..][1] == body[3] && body[2..][2..][0] == body[4] && body[2..][2..][1] == body[5];
    }
  }

  /** The layered round trip, and the exact payload limit: up to it every field comes back
      through the UDP, IPv4 and Ethernet layers; beyond it, serialization aborts or the
      receiver rejects the frame. */
  lemma LayeredRoundTrip(p: Ironscale)
    ensures EncodeIronscale(p).Some? ==> Readable(EncodeIronscale(p).value)
    ensures (EncodeIronscale(p).Some? && DecodeIronscale(EncodeIronscale(p).value) == Some(p)) <==> |p.payload| <= MAX_PAYLOAD
    ensures EncodeIronscale(p).Some? && |p.payload| > MAX_PAYLOAD ==> DecodeIronscale(EncodeIronscale(p).value) == None
  {
    BodyParses(p);
    RoundTripExact(Carrier(p));
    if EncodeIronscale(p).Some? {
      DecodeEncoded(Carrier(p));
    }
  }

  class Packet {
    var requestType: ServiceKind
    var requestId: uint32
    var srcMac: MacAddress
    var destMac: MacAddress
    var payload: seq<byte>

    ghost function View(): Ironscale
      reads this
    {
      Ironscale(requestType, requestId, srcMac, destMac, payload)
    }

    constructor ()
      ensures View() == Ironscale(Unknown, 0, [0, 0, 0, 0, 0, 0], [0, 0, 0, 0, 0, 0], [])
    {
      requestType, requestId := Unknown, 0;
      srcMac, destMac := [0, 0, 0, 0, 0, 0], [0, 0, 0, 0, 0, 0];
      payload := [];
    }

    method Serialize() returns (result: Option<array<byte>>)
      ensures result.Some? == EncodeIronscale(View()).Some?
      ensures result.Some? ==> fresh(result.value) && result.value[..] == EncodeIronscale(View()).value
    {
      var pkt := new UdpPacket.Packet();
      pkt.srcMac := MASKED_MAC;
      pkt.destMac := destMac;
      pkt.srcIp, pkt.destIp := [0, 0, 0, 0], [0, 0, 0, 0];
      pkt.srcPort, pkt.destPort := PORT, PORT;
      var header := Pack16(Code(requestType)) + Pack32(requestId) + srcMac + destMac;
      pkt.udpPayload := header + payload;
      assert pkt.View() == Carrier(View());
      result := pkt.Serialize();
    }

    method Deserialize(buf: seq<byte>) returns (ok: bool)
      requires Readable(buf)
      modifies this
      ensures ok == DecodeIronscale(buf).Some?
      ensures View() == if ok then DecodeIronscale(buf).value else old(View())
    {
      var pkt := new UdpPacket.Packet();
      ok := pkt.Deserialize(buf);
      if !ok || pkt.srcMac != MASKED_MAC || pkt.srcPort != PORT || pkt.destPort != PORT || |pkt.udpPayload| < HEADER {
        return false;
      }
      var hdr := pkt.udpPayload;
      requestType := KindOf(Unpack16(hdr));
      requestId := Unpack32(hdr[2..]);
      srcMac := hdr[6..12];
      destMac := hdr[12..18];
      if |hdr| - HEADER > 0 {
        payload := hdr[HEADER..];
      } else {
        payload := [];
      }
    }
  }
}
