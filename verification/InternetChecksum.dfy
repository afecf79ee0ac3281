/** The three Internet checksums: a 32-bit accumulator folded twice, against end-around-carry
    addition as RFC 1071 defines it.
    Source: common/std_packet.cpp (`checksum_ip`, `checksum_tcp`, `checksum_icmp`). */
module InternetChecksum {
  import opened Bytes

  // ---------- RFC 1071 ----------

  /** One's complement addition of 16-bit words: the carry out is added back in. */
  function EndAround(a: uint16, b: uint16): uint16 {
    if a + b > 0xffff then a + b - 0xffff else a + b
  }

  /** The one's complement sum of the big-endian words of `data`; an odd tail is padded with
      a zero byte on the right. */
  function OnesSum(data: seq<byte>): uint16 {
    if data == [] then 0
    else if |data| == 1 then Word(data[0], 0)
    else EndAround(Unpack16(data), OnesSum(data[2..]))
  }

  /** The checksum of RFC 1071: the complement of that sum. */
  function Rfc1071(data: seq<byte>): uint16 {
    0xffff - OnesSum(data)
  }

  lemma SumOfTwoWords(a: byte, b: byte, rest: seq<byte>)
    ensures OnesSum([a, b] + rest)
            == var word, sum := 256 * (a as int) + b as int, OnesSum(rest) as int;
               if word + sum > 65535 then word + sum - 65535 else word + sum
  {
    assert ([a, b] + rest)[2..] == rest;
  }

  /** The numerical example of section 3 of RFC 1071. */
  lemma Rfc1071Example()
    ensures OnesSum([0x00, 0x01, 0xf2, 0x03, 0xf4, 0xf5, 0xf6, 0xf7]) == 0xddf2
    ensures Rfc1071([0x00, 0x01, 0xf2, 0x03, 0xf4, 0xf5, 0xf6, 0xf7]) == 0x220d
  {
    var d1, d2, d3 := [0xf6, 0xf7], [0xf4, 0xf5, 0xf6, 0xf7], [0xf2, 0x03, 0xf4, 0xf5, 0xf6, 0xf7];
    SumOfTwoWords(0xf6, 0xf7, []);
    assert [0xf6, 0xf7] + [] == d1 && [0xf4, 0xf5] + d1 == d2 && [0xf2, 0x03] + d2 == d3;
    SumOfTwoWords(0xf4, 0xf5, d1);
    SumOfTwoWords(0xf2, 0x03, d2);
    SumOfTwoWords(0x00, 0x01, d3);
    assert [0x00, 0x01] + d3 == [0x00, 0x01, 0xf2, 0x03, 0xf4, 0xf5, 0xf6, 0xf7];
  }

  // ---------- plain sums, and the folding of a 32-bit accumulator ----------

  function SumBigEndian(data: seq<byte>): nat {
    if |data| < 2 then 0 else Unpack16(data) + SumBigEndian(data[2..])
  }

  function SumLittleEndian(data: seq<byte>): nat {
    if |data| < 2 then 0 else Word(data[1], data[0]) + SumLittleEndian(data[2..])
  }

  /** What an odd last byte contributes when it is padded with a zero byte on the right. */
  function PaddedTail(data: seq<byte>): nat {
    if |data| % 2 == 1 then Word(data[|data| - 1], 0) else 0
  }

  /** The representative of `n` modulo 65535 in 1..65535, and 0 for 0 only. */
  function Residue(n: nat): (r: uint16)
    ensures r == 0 <==> n == 0
  {
    if n <= 0xffff then n else Residue(n - 0xffff)
  }

  function FoldOnce(n: nat): nat {
    n % 0x1_0000 + n / 0x1_0000
  }

  lemma {:induction false} ResidueUnique(r: nat, n: nat, k: int)
    requires 0 < r <= 0xffff && 0 < n && n - r == 0xffff * k
    ensures Residue(n) == r
  {
    if n > 0xffff {
      ResidueUnique(r, n - 0xffff, k - 1);
    }
  }

  lemma {:induction false} ResidueWitness(n: nat) returns (k: nat)
    ensures n == Residue(n) + 0xffff * k
  {
    k := 0;
    if n > 0xffff {
      k := ResidueWitness(n - 0xffff);
      k := k + 1;
    }
  }

  /** Two folds always bring a 32-bit sum into 16 bits, with the right residue. */
  lemma TwoFoldsSuffice(n: uint32)
    ensures FoldOnce(n) < 0x2_0000
    ensures FoldOnce(FoldOnce(n)) == Residue(n)
  {
    var once := FoldOnce(n);
    var twice := FoldOnce(once);
    var high, carry := n / 0x1_0000, once / 0x1_0000;
    assert n - once == 0xffff * high && once - twice == 0xffff * carry;
    assert n - twice == 0xffff * (high + carry);
    if n > 0 {
      ResidueUnique(twice, n, high + carry);
    }
  }

  lemma ResidueOfSum(a: nat, b: nat)
    ensures Residue(a + b) == EndAround(Residue(a), Residue(b))
  {
    var k := ResidueWitness(a);
    var l := ResidueWitness(b);
    var r := EndAround(Residue(a), Residue(b));
    var carry := if Residue(a) + Residue(b) > 0xffff then 1 else 0;
    assert a + b - r == 0xffff * (k + l + carry);
    if a + b > 0 {
      ResidueUnique(r, a + b, k + l + carry);
    }
  }

  lemma CarryStep(w: uint16, n: nat)
    ensures EndAround(w, Residue(n)) == Residue(w + n)
  {
    ResidueOfSum(w, n);
  }

  /** Deferring the carries does not change the sum (section 2 of RFC 1071). */
  lemma {:induction false} DeferredCarries(data: seq<byte>)
    ensures OnesSum(data) == Residue(SumBigEndian(data) + PaddedTail(data))
  {
    if |data| >= 2 {
      DeferredCarries(data[2..]);
      TailOfRest(data);
      CarryStep(Unpack16(data), SumBigEndian(data[2..]) + PaddedTail(data));
    }
  }

  lemma TailOfRest(data: seq<byte>)
    requires |data| >= 2
    ensures PaddedTail(data[2..]) == PaddedTail(data)
  {
  }

  lemma {:induction false} SumBounds(data: seq<byte>)
    ensures SumBigEndian(data) <= 0xffff * (|data| / 2)
    ensures SumLittleEndian(data) <= 0xffff * (|data| / 2)
  {
    if |data| >= 2 {
      SumBounds(data[2..]);
    }
  }

  lemma {:induction false} SumsOfAppend(data: seq<byte>, more: seq<byte>)
    requires |data| % 2 == 0
    ensures SumBigEndian(data + more) == SumBigEndian(data) + SumBigEndian(more)
    ensures SumLittleEndian(data + more) == SumLittleEndian(data) + SumLittleEndian(more)
  {
    if data == [] {
      assert data + more == more;
    } else {
      assert (data + more)[2..] == data[2..] + more;
      SumsOfAppend(data[2..], more);
    }
  }

  // ---------- byte order independence ----------

  function Swapped(v: uint16): uint16 {
    v % 0x100 * 0x100 + v / 0x100
  }

  /** Swapping the bytes of every word multiplies the sum by 256 modulo 65535. */
  lemma {:induction false} LittleEndianResidue(data: seq<byte>) returns (k: int)
    ensures 0x100 * SumBigEndian(data) - SumLittleEndian(data) == 0xffff * k
    ensures SumBigEndian(data) == 0 <==> SumLittleEndian(data) == 0
  {
    if |data| >= 2 {
      k := LittleEndianResidue(data[2..]);
      k := k + data[0];
    } else {
      k := 0;
    }
  }

  lemma SwappedResidue(v: uint16)
    ensures 0x100 * v - Swapped(v) == 0xffff * (v / 0x100)
    ensures v == 0 <==> Swapped(v) == 0
    ensures Swapped(0xffff - v) == 0xffff - Swapped(v)
    ensures Pack16(Swapped(v)) == [Pack16(v)[1], Pack16(v)[0]]
  {
  }

  /** Byte order independence (section 2 of RFC 1071), on the sums. */
  lemma ByteOrderIndependence(data: seq<byte>)
    ensures Residue(SumLittleEndian(data)) == Swapped(Residue(SumBigEndian(data)))
  {
    var little, big := SumLittleEndian(data), SumBigEndian(data);
    var k := LittleEndianResidue(data);
    var l := ResidueWitness(big);
    var r := Residue(big);
    SwappedResidue(r);
    if big > 0 {
      assert little - Swapped(r) == 0xffff * (0x100 * l - k + r / 0x100);
      ResidueUnique(Swapped(r), little, 0x100 * l - k + r / 0x100);
    }
  }

  // ---------- filling in and verifying a checksum field ----------

  function WithField(data: seq<byte>, at: nat, v: uint16): seq<byte>
    requires at + 2 <= |data|
  {
    data[at := v / 0x100][at + 1 := v % 0x100]
  }

  lemma SumWithField(data: seq<byte>, at: nat, v: uint16)
    requires at % 2 == 0 && at + 2 <= |data|
    ensures SumBigEndian(WithField(data, at, v)) == SumBigEndian(WithField(data, at, 0)) + v
  {
    var front, back := data[..at], data[at + 2..];
    assert WithField(data, at, v) == front + (Pack16(v) + back);
    assert WithField(data, at, 0) == front + (Pack16(0) + back);
    SumsOfAppend(front, Pack16(v) + back);
    SumsOfAppend(front, Pack16(0) + back);
    SumsOfAppend(Pack16(v), back);
    SumsOfAppend(Pack16(0), back);
    assert Pack16(v)[2..] == [] && Pack16(0)[2..] == [];
  }

  lemma TailWithField(data: seq<byte>, at: nat, v: uint16)
    requires at % 2 == 0 && at + 2 <= |data|
    ensures PaddedTail(WithField(data, at, v)) == PaddedTail(data)
  {
  }

  /** A receiver that sums data carrying the RFC 1071 checksum gets all ones. */
  lemma ChecksummedSumsToOnes(data: seq<byte>, at: nat)
    requires at % 2 == 0 && at + 2 <= |data|
    ensures OnesSum(WithField(data, at, Rfc1071(WithField(data, at, 0)))) == 0xffff
  {
    var blank := WithField(data, at, 0);
    var sum := Rfc1071(blank);
    var n := SumBigEndian(blank) + PaddedTail(data);
    SumWithField(data, at, sum);
    TailWithField(data, at, 0);
    TailWithField(data, at, sum);
    DeferredCarries(blank);
    DeferredCarries(WithField(data, at, sum));
    ComplementSums(n);
  }

  lemma ComplementSums(n: nat)
    ensures Residue(n + (0xffff - Residue(n))) == 0xffff
  {
    ResidueOfSum(n, 0xffff - Residue(n));
  }

  // ---------- the three checksum routines ----------

  lemma SumOfNextWord(data: seq<byte>, k: nat)
    requires 2 * k + 2 <= |data|
    ensures SumBigEndian(data[..2 * k + 2]) == SumBigEndian(data[..2 * k]) + Unpack16(data[2 * k..])
    ensures SumLittleEndian(data[..2 * k + 2]) == SumLittleEndian(data[..2 * k]) + Word(data[2 * k + 1], data[2 * k])
  {
    var word := data[2 * k..2 * k + 2];
    assert data[..2 * k + 2] == data[..2 * k] + word;
    SumsOfAppend(data[..2 * k], word);
    assert word[2..] == [];
  }

  lemma SumOfEvenPrefix(data: seq<byte>, n: nat)
    requires n % 2 == 0 && n <= |data| < n + 2
    ensures SumBigEndian(data[..n]) == SumBigEndian(data)
    ensures SumLittleEndian(data[..n]) == SumLittleEndian(data)
  {
    SumsOfAppend(data[..n], data[n..]);
    assert data[..n] + data[n..] == data;
  }

  /** The last lines of all three routines: fold twice and complement. */
  method OnesComplement(sum: uint32) returns (result: uint16)
    ensures result == 0xffff - Residue(sum)
  {
    TwoFoldsSuffice(sum);
    var checksum := sum;
    result := checksum % 0x1_0000;
    checksum := result + checksum / 0x1_0000;
    result := checksum % 0x1_0000;
    checksum := result + checksum / 0x1_0000;
    result := 0xffff - checksum % 0x1_0000;
  }

  method AccumulateWords(data: seq<byte>, start: uint32) returns (checksum: uint32)
    requires start + 0xffff * (|data| / 2) < 0x1_0000_0000
    ensures checksum == start + SumBigEndian(data)
  {
    checksum := start;
    var iterations := |data| / 2;
    for counter := 0 to iterations
      invariant checksum == start + SumBigEndian(data[..2 * counter])
    {
      SumOfNextWord(data, counter);
      SumBounds(data[..2 * counter + 2]);
      checksum := checksum + Unpack16(data[2 * counter..]);
    }
    SumOfEvenPrefix(data, 2 * iterations);
  }

  const IP_HEADER: nat := 20
  const IP_CHECKSUM_AT: nat := 10

  /** `checksum_ip`: the header with its checksum field blanked. */
  method ChecksumIp(hdr: seq<byte>) returns (result: uint16)
    requires |hdr| == IP_HEADER
    ensures result == Rfc1071(WithField(hdr, IP_CHECKSUM_AT, 0))
    ensures OnesSum(WithField(hdr, IP_CHECKSUM_AT, result)) == 0xffff
    ensures OnesSum(hdr[10 := result / 256][11 := result % 256]) == 0xffff
  {
    var summed := hdr;
    if hdr[IP_CHECKSUM_AT] != 0 || hdr[IP_CHECKSUM_AT + 1] != 0 {
      summed := hdr[IP_CHECKSUM_AT := 0][IP_CHECKSUM_AT + 1 := 0];
    }
    assert summed == WithField(hdr, IP_CHECKSUM_AT, 0);
    var checksum: uint32 := AccumulateWords(summed, 0);
    result := OnesComplement(checksum);
    DeferredCarries(summed);
    ChecksummedSumsToOnes(hdr, IP_CHECKSUM_AT);
  }

  /** Adding less than a full turn changes the residue. */
  lemma ResidueDistinguishes(n: nat, d: nat)
    requires 0 < d < 0xffff
    ensures Residue(n) != Residue(n + d)
  {
    var k := ResidueWitness(n);
    var l := ResidueWitness(n + d);
    assert Residue(n + d) - Residue(n) == d - 0xffff * (l - k);
  }

  const TCP_HEADER: nat := 20
  const TCP_CHECKSUM_AT: nat := 16
  const TCP_PROTOCOL: byte := 6

  /** The pseudo header of section 3.1 of RFC 793, from the eight address bytes. */
  function TcpPseudoHeader(addresses: seq<byte>, length: uint16): seq<byte>
    requires |addresses| == 8
  {
    addresses + [0, TCP_PROTOCOL] + Pack16(length)
  }

  /** Everything the TCP checksum covers, with the checksum field blank. */
  function TcpCovered(addresses: seq<byte>, hdr: seq<byte>, payload: seq<byte>): (covered: seq<byte>)
    requires |addresses| == 8 && |hdr| == TCP_HEADER && |payload| <= 0xffff - TCP_HEADER
    ensures |covered| == 32 + |payload|
  {
    TcpPseudoHeader(addresses, TCP_HEADER + |payload|) + WithField(hdr, TCP_CHECKSUM_AT, 0) + payload
  }

  lemma CoveredIgnoresOldChecksum(addresses: seq<byte>, hdr: seq<byte>, payload: seq<byte>, v: uint16)
    requires |addresses| == 8 && |hdr| == TCP_HEADER && |payload| <= 0xffff - TCP_HEADER
    ensures TcpCovered(addresses, WithField(hdr, TCP_CHECKSUM_AT, v), payload) == TcpCovered(addresses, hdr, payload)
  {
    assert WithField(WithField(hdr, TCP_CHECKSUM_AT, v), TCP_CHECKSUM_AT, 0) == WithField(hdr, TCP_CHECKSUM_AT, 0);
  }

  /** What a receiver sums: the pseudo header, the segment header with its checksum, the payload. */
  function TcpReceived(addresses: seq<byte>, hdr: seq<byte>, payload: seq<byte>, checksum: uint16): seq<byte>
    requires |addresses| == 8 && |hdr| == TCP_HEADER && |payload| <= 0xffff - TCP_HEADER
  {
    TcpPseudoHeader(addresses, TCP_HEADER + |payload|) + WithField(hdr, TCP_CHECKSUM_AT, checksum) + payload
  }

  /** Byte by byte: addresses, a zero byte, protocol 6, the segment length, the header with the
      checksum in bytes 16 and 17, the payload. */
  lemma TcpLayout(addresses: seq<byte>, hdr: seq<byte>, payload: seq<byte>, checksum: uint16)
    requires |addresses| == 8 && |hdr| == 20 && |payload| <= 65515
    ensures var data, length := TcpReceived(addresses, hdr, payload, checksum), 20 + |payload|;
            && |data| == 12 + length
            && data[..8] == addresses && data[8] == 0 && data[9] == 6
            && data[10] == length / 256 && data[11] == length % 256
            && data[12..28] == hdr[..16] && data[28] == checksum / 256 && data[29] == checksum % 256
            && data[30..32] == hdr[18..20] && data[32..] == payload
    ensures TcpCovered(addresses, hdr, payload) == TcpReceived(addresses, hdr, payload, 0)
  {
    var data := TcpReceived(addresses, hdr, payload, checksum);
    var field := WithField(hdr, TCP_CHECKSUM_AT, checksum);
    assert data[12..32] == field;
    assert field[..16] == hdr[..16] && field[18..20] == hdr[18..20];
    assert data[12..28] == field[..16] && data[30..32] == field[18..20] && data[28] == field[16] && data[29] == field[17];
  }

  /** `checksum_tcp`. An odd last byte is added as the low byte of a word although it is the
      high byte of the padded word, so the result is the checksum of RFC 793, and the segment
      verifies, exactly when the payload is even or ends in a zero byte. */
  method ChecksumTcp(addresses: seq<byte>, hdr: seq<byte>, payload: seq<byte>) returns (result: uint16)
    requires |addresses| == 8 && |hdr| == TCP_HEADER && |payload| <= 0xffff - TCP_HEADER
    ensures result == Rfc1071(TcpCovered(addresses, hdr, payload))
            <==> |payload| % 2 == 0 || payload[|payload| - 1] == 0
    ensures OnesSum(TcpReceived(addresses, hdr, payload, result)) == 0xffff
            <==> |payload| % 2 == 0 || payload[|payload| - 1] == 0
  {
    var head := TcpPseudoHeader(addresses, TCP_HEADER + |payload|) + WithField(hdr, TCP_CHECKSUM_AT, 0);
    var checksum: uint32 := AccumulateWords(head, 0);
    SumBounds(head);
    checksum := AccumulateWords(payload, checksum);
    SumBounds(payload);
    SumsOfAppend(head, payload);
    var tail: byte := 0;
    if |payload| % 2 == 1 {
      tail := payload[|payload| - 1];
      checksum := checksum + tail as int;
    }
    result := OnesComplement(checksum);
    TcpTail(head, payload, tail);
    TcpVerifies(TcpPseudoHeader(addresses, TCP_HEADER + |payload|), hdr, payload, tail, result);
  }

  /** Whether a receiver gets all ones from a segment with the computed checksum. */
  lemma TcpVerifies(pseudo: seq<byte>, hdr: seq<byte>, payload: seq<byte>, tail: byte, result: uint16)
    requires |pseudo| % 2 == 0 && |hdr| == TCP_HEADER && tail == if |payload| % 2 == 1 then payload[|payload| - 1] else 0
    requires result == 0xffff - Residue(SumBigEndian(pseudo + WithField(hdr, TCP_CHECKSUM_AT, 0) + payload) + tail as int)
    ensures OnesSum(pseudo + WithField(hdr, TCP_CHECKSUM_AT, result) + payload) == 0xffff <==> tail == 0
  {
    var blank := pseudo + WithField(hdr, TCP_CHECKSUM_AT, 0) + payload;
    var received := pseudo + WithField(hdr, TCP_CHECKSUM_AT, result) + payload;
    var n := SumBigEndian(blank) + tail as int;
    FieldInside(pseudo, hdr, payload, TCP_CHECKSUM_AT, 0);
    FieldInside(pseudo, hdr, payload, TCP_CHECKSUM_AT, result);
    SumWithField(pseudo + hdr + payload, |pseudo| + TCP_CHECKSUM_AT, result);
    DeferredCarries(received);
    assert PaddedTail(received) == Word(tail, 0);
    ComplementSums(n);
    if tail != 0 {
      ResidueDistinguishes(n + result as int, 0xff * (tail as int));
    }
  }

  lemma TcpTail(head: seq<byte>, payload: seq<byte>, tail: byte)
    requires |head| % 2 == 0 && tail == if |payload| % 2 == 1 then payload[|payload| - 1] else 0
    ensures 0xffff - Residue(SumBigEndian(head + payload) + tail as int) == Rfc1071(head + payload) <==> tail == 0
  {
    DeferredCarries(head + payload);
    assert PaddedTail(head + payload) == Word(tail, 0);
    if tail != 0 {
      ResidueDistinguishes(SumBigEndian(head + payload) + tail as int, 0xff * (tail as int));
    }
  }

  /** A receiver that sums `before`, a header carrying its checksum and `rest` gets all ones.
      For TCP, `before` is the pseudo header and `rest` the payload. */
  lemma CarriedChecksumVerifies(before: seq<byte>, data: seq<byte>, rest: seq<byte>, at: nat, v: uint16)
    requires |before| % 2 == 0 && at % 2 == 0 && at + 2 <= |data|
    requires v == Rfc1071(before + WithField(data, at, 0) + rest)
    ensures OnesSum(before + WithField(data, at, v) + rest) == 0xffff
  {
    var all := before + data + rest;
    FieldInside(before, data, rest, at, 0);
    FieldInside(before, data, rest, at, v);
    ChecksummedSumsToOnes(all, |before| + at);
  }

  lemma FieldInside(before: seq<byte>, data: seq<byte>, rest: seq<byte>, at: nat, v: uint16)
    requires at + 2 <= |data|
    ensures before + WithField(data, at, v) + rest == WithField(before + data + rest, |before| + at, v)
  {
  }

  const ICMP_HEADER: nat := 8
  const ICMP_CHECKSUM_AT: nat := 2

  method AccumulateLittleEndian(msg: array<byte>) returns (checksum: uint32)
    requires msg.Length <= 0xffff
    ensures checksum == SumLittleEndian(msg[..])
  {
    ghost var data := msg[..];
    checksum := 0;
    var iterations := msg.Length / 2;
    for counter := 0 to iterations
      invariant checksum == SumLittleEndian(data[..2 * counter])
    {
      SumOfNextWord(data, counter);
      SumBounds(data[..2 * counter + 2]);
      checksum := checksum + Word(msg[2 * counter + 1], msg[2 * counter]);
    }
    SumOfEvenPrefix(data, 2 * iterations);
  }

  /** `checksum_icmp` sums little-endian words of the message, whose checksum field it blanks
      first. An odd last byte is added as the high byte of a little-endian word although it is
      the low byte of the padded one. */
  method ChecksumIcmp(msg: array<byte>) returns (result: uint16)
    requires ICMP_HEADER <= msg.Length <= 0xffff
    modifies msg
    ensures msg[..] == WithField(old(msg[..]), ICMP_CHECKSUM_AT, 0)
    ensures Swapped(result) == Rfc1071(msg[..]) <==> msg.Length % 2 == 0 || msg[msg.Length - 1] == 0
  {
    ghost var was := msg[..];
    msg[ICMP_CHECKSUM_AT] := 0;
    msg[ICMP_CHECKSUM_AT + 1] := 0;
    ghost var data := msg[..];
    assert data == WithField(was, ICMP_CHECKSUM_AT, 0);
    var checksum: uint32 := AccumulateLittleEndian(msg);
    SumBounds(data);
    ghost var tail: byte := 0;
    if msg.Length % 2 == 1 {
      tail := msg[msg.Length - 1];
      checksum := checksum + Word(msg[msg.Length - 1], 0);
    }
    result := OnesComplement(checksum);
    IcmpTail(data, tail);
  }

  /** The message padded to even length sums to the same thing in either byte order; adding
      the tail as the wrong half of its word changes the residue unless it is zero. */
  lemma IcmpTail(data: seq<byte>, tail: byte)
    requires tail == if |data| % 2 == 1 then data[|data| - 1] else 0
    ensures Swapped(0xffff - Residue(SumLittleEndian(data) + 0x100 * (tail as int))) == Rfc1071(data) <==> tail == 0
  {
    var little := SumLittleEndian(data);
    var right := Residue(little + tail as int);
    var computed := Residue(little + 0x100 * (tail as int));
    WrongHalf(little, tail);
    LittleEndianSum(data, tail);
    SwappedResidue(computed);
    SwappedInjective(computed, right);
  }

  lemma WrongHalf(little: nat, tail: byte)
    ensures Residue(little + 0x100 * (tail as int)) == Residue(little + tail as int) <==> tail == 0
  {
    if tail != 0 {
      ResidueDistinguishes(little + tail as int, 0xff * (tail as int));
    }
  }

  lemma LittleEndianSum(data: seq<byte>, tail: byte)
    requires tail == if |data| % 2 == 1 then data[|data| - 1] else 0
    ensures OnesSum(data) == Swapped(Residue(SumLittleEndian(data) + tail as int))
  {
    PaddedByteOrder(data, tail);
    DeferredCarries(data);
    SwappedTwice(OnesSum(data));
  }

  lemma SwappedTwice(v: uint16)
    ensures Swapped(Swapped(v)) == v
  {
    SwappedWord(v / 0x100, v % 0x100);
    SwappedWord(v % 0x100, v / 0x100);
  }

  lemma SwappedWord(high: byte, low: byte)
    ensures Swapped(Word(high, low)) == Word(low, high)
  {
    var v: int := Word(high, low);
    assert v / 0x100 == high && v % 0x100 == low;
  }

  lemma SwappedInjective(v: uint16, w: uint16)
    ensures Swapped(v) == Swapped(w) <==> v == w
  {
    SwappedTwice(v);
    SwappedTwice(w);
  }

  lemma PaddedByteOrder(data: seq<byte>, tail: byte)
    requires tail == if |data| % 2 == 1 then data[|data| - 1] else 0
    ensures Residue(SumLittleEndian(data) + tail as int) == Swapped(Residue(SumBigEndian(data) + PaddedTail(data)))
  {
    if |data| % 2 == 0 {
      ByteOrderIndependence(data);
    } else {
      var front := data[..|data| - 1];
      SumOfEvenPrefix(data, |data| - 1);
      AppendedByteOrder(front, tail);
    }
  }

  lemma AppendedByteOrder(front: seq<byte>, tail: byte)
    requires |front| % 2 == 0
    ensures Residue(SumLittleEndian(front) + tail as int) == Swapped(Residue(SumBigEndian(front) + Word(tail, 0)))
  {
    SumsOfAppend(front, [tail, 0]);
    SumOfWord(tail, 0);
    ByteOrderIndependence(front + [tail, 0]);
  }

  lemma SumOfWord(high: byte, low: byte)
    ensures SumBigEndian([high, low]) == Word(high, low) && SumLittleEndian([high, low]) == Word(low, high)
  {
    assert [high, low][2..] == [];
  }

  /** The end of `icmp_packet::serialize`: the checksum is stored low byte first. For a message
      of even length that is the RFC 1071 checksum in network byte order, and the message
      verifies. */
  method StoreIcmpChecksum(msg: array<byte>)
    requires ICMP_HEADER <= msg.Length <= 0xffff
    modifies msg
    ensures var blank := WithField(old(msg[..]), ICMP_CHECKSUM_AT, 0);
            msg[..] == WithField(blank, ICMP_CHECKSUM_AT, Rfc1071(blank))
            <==> msg.Length % 2 == 0 || old(msg[msg.Length - 1]) == 0
    ensures msg.Length % 2 == 0 ==> OnesSum(msg[..]) == 0xffff
    ensures forall k :: 0 <= k < msg.Length && k != 2 && k != 3 ==> msg[k] == old(msg[k])
    ensures var blank := old(msg[..])[2 := 0][3 := 0];
            256 * (msg[2] as int) + msg[3] as int == Rfc1071(blank) <==> msg.Length % 2 == 0 || old(msg[msg.Length - 1]) == 0
  {
    ghost var blank := WithField(msg[..], ICMP_CHECKSUM_AT, 0);
    ghost var last := msg[msg.Length - 1];
    var checksum := ChecksumIcmp(msg);
    assert last == msg[..][msg.Length - 1];
    SwappedResidue(checksum);
    msg[ICMP_CHECKSUM_AT] := checksum % 0x100;
    msg[ICMP_CHECKSUM_AT + 1] := checksum / 0x100;
    ChecksummedSumsToOnes(blank, ICMP_CHECKSUM_AT);
    assert msg[..] == WithField(blank, ICMP_CHECKSUM_AT, Swapped(checksum));
    assert WithField(blank, ICMP_CHECKSUM_AT, 0) == blank;
  }
}
