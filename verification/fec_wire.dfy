/** What `custom_fec_packet_grammar` reads from an RTP header followed by a generator's output. */
module FecWire {
  import opened Wrappers
  import opened Octets
  import opened RtpPacket
  import opened Parity
  import G = FecGeneration

  /** `std::bitset<64>(mask).test(63 - u)`. */
  predicate MaskNames(mask: seq<byte>, u: nat)
  {
    u / 8 < |mask| && Bit(mask[u / 8], u % 8)
  }

  lemma {:induction false} LeadingOnesBits(n: nat, i: nat)
    requires i < 8
    ensures Bit(G.LeadingOnes(n), i) <==> i < n
  {
  }

  /** The sender's mask names exactly the first k members, in the short and in the long form. */
  lemma {:induction false} WireMaskNames(k: nat, u: nat)
    requires k <= G.MAX_MASK_BITS
    ensures MaskNames(G.WireMask(k) + seq(8 - |G.WireMask(k)|, _ => 0), u) <==> u < k
  {
    var mask := G.WireMask(k) + seq(8 - |G.WireMask(k)|, _ => 0);
    var j, i := u / 8, u % 8;
    assert u == 8 * j + i;
    if j < |G.WireMask(k)| {
      assert mask[j] == G.LeadingOnes(if k <= 8 * j then 0 else k - 8 * j);
      LeadingOnesBits(if k <= 8 * j then 0 else k - 8 * j, i);
    } else if j < 8 {
      LeadingOnesBits(0, i);
    }
  }

  /** Reading words and slices of a concatenation. */
  lemma {:induction false} Reads(a: seq<byte>, b: seq<byte>, i: nat)
    requires |a| <= i
    ensures i + 2 <= |a + b| ==> WordAt(a + b, i) == WordAt(b, i - |a|)
    ensures i + 4 <= |a + b| ==> DwordAt(a + b, i) == DwordAt(b, i - |a|)
  {
  }

  /** Octets in front of the levels do not matter to the level loop. */
  lemma {:induction false} DecodeLevelsShift(a: seq<byte>, b: seq<byte>, at: nat, size: nat)
    requires at <= |b| && 2 <= size <= 8
    ensures DecodeLevels(a + b, |a| + at, size) == DecodeLevels(b, at, size)
    decreases |b| - at
  {
    hide LevelAt;
    if at + size <= |b| {
      LevelShift(a, b, at, size);
      var next := at + size + LevelAt(b, at, size).protectionLength;
      if next <= |b| {
        DecodeLevelsShift(a, b, next, size);
      }
    }
  }

  lemma {:induction false} LevelShift(a: seq<byte>, b: seq<byte>, at: nat, size: nat)
    requires 2 <= size <= 8 && at + size <= |b|
    ensures LevelAt(a + b, |a| + at, size) == LevelAt(b, at, size)
  {
    Reads(a, b, |a| + at);
    assert (a + b)[|a| + at + 2..|a| + at + size] == b[at + 2..at + size];
    assert (a + b)[|a| + at + size..] == b[at + size..];
    hide WordAt;
  }

  function LevelOctets(bits: seq<byte>, k: nat, offset: nat): seq<byte>
    requires |bits| >= G.MIN_PACKET + 2 && offset <= G.MIN_PACKET
  {
    Word((|bits| - 2 - offset) % 0x1_0000) + G.WireMask(k) + bits[offset + 2..]
  }

  function LevelOf(bits: seq<byte>, k: nat, offset: nat): FecLevel
    requires G.MIN_PACKET + 2 <= |bits| < 0x1_0000 + 2 + offset && offset <= G.MIN_PACKET
  {
    FecLevel(|bits| - 2 - offset, G.WireMask(k) + seq(8 - |G.WireMask(k)|, _ => 0), bits[offset + 2..])
  }

  lemma {:induction false} SingleLevel(bits: seq<byte>, k: nat, offset: nat)
    requires G.MIN_PACKET + 2 <= |bits| < 0x1_0000 + 2 + offset && offset <= G.MIN_PACKET
    ensures DecodeLevels(LevelOctets(bits, k, offset), 0, LevelHeaderSize(k > 16)) == Some([LevelOf(bits, k, offset)])
  {
    var b, size := LevelOctets(bits, k, offset), LevelHeaderSize(k > 16);
    var mask, payload := G.WireMask(k), bits[offset + 2..];
    assert |mask| == size - 2;
    WordRoundTrip(|payload|, b, 0);
    hide WordAt, Word, G.MaskOctets;
    assert b[0..2] == Word(|payload|);
    assert b[2..size] == mask;
    assert b[size..] == payload;
    assert |b| == size + |payload|;
    ExtendNone([LevelOf(bits, k, offset)]);
  }

  /** The ten octets of a packetised bit string's FEC header. */
  function FecHeaderOctets(bits: seq<byte>, base: uint16, k: nat): (r: seq<byte>)
    requires |bits| >= 10
    ensures |r| == 10
  {
    [bits[0] % 64 + (if k > 16 then 64 else 0), bits[1]] + Word(base) + bits[4..10]
  }

  /** Octet `i` of the FEC header, outside the base sequence number field. */
  function HeaderOctet(bits: seq<byte>, k: nat, i: nat): byte
    requires |bits| >= 10 && i < 10
  {
    if i == 0 then bits[0] % 64 + (if k > 16 then 64 else 0) else bits[i]
  }

  lemma {:induction false} HeaderOctetAt(bits: seq<byte>, base: uint16, k: nat, i: nat)
    requires |bits| >= 10 && (i < 2 || 4 <= i < 10)
    ensures FecHeaderOctets(bits, base, k)[i] == HeaderOctet(bits, k, i)
  {
  }

  /** The L bit and the version bits drop out of an XOR of two FEC headers of equally large groups. */
  lemma {:induction false} HeaderOctetsXor(s: seq<byte>, t: seq<byte>, k: nat, i: nat)
    requires |s| >= 10 && |t| >= 10 && i < 10
    ensures var r := Xor(HeaderOctet(s, k, i), HeaderOctet(t, k, i));
      if i == 0 then r % 64 == Xor(s[0], t[0]) % 64 else r == Xor(s[i], t[i])
  {
    if i == 0 {
      XorLowSix(HeaderOctet(s, k, 0), HeaderOctet(t, k, 0));
      XorLowSix(s[0], t[0]);
      hide Xor;
      SameLowSix(s, k);
      SameLowSix(t, k);
    }
  }

  lemma {:induction false} SameLowSix(s: seq<byte>, k: nat)
    requires |s| >= 10
    ensures HeaderOctet(s, k, 0) % 64 == s[0] % 64
  {
  }

  lemma {:induction false} PacketisedParts(bits: seq<byte>, base: uint16, k: nat, offset: nat)
    requires |bits| >= G.MIN_PACKET + 2 && offset <= G.MIN_PACKET
    ensures G.Packetised(bits, base, k, offset) == FecHeaderOctets(bits, base, k) + LevelOctets(bits, k, offset)
  {
  }

  lemma {:induction false} FecPacketParts(group: seq<G.Media>, k: nat, offset: nat)
    requires G.AllMedia(group) && group != [] && offset <= G.MIN_PACKET
    ensures |G.Folded(group)| >= G.MIN_PACKET + 2
    ensures G.FecPacketOf(group, k, offset)
         == FecHeaderOctets(G.Folded(group), G.GroupBase(group), k) + LevelOctets(G.Folded(group), k, offset)
  {
    G.FoldedLength(group);
    hide G.Folded, G.GroupBase, G.Packetised, FecHeaderOctets, LevelOctets;
    PacketisedParts(G.Folded(group), G.GroupBase(group), k, offset);
  }

  // ---- the parity packet, octet by octet ----

  /** The XOR of octet `i` of all members, those that are too short not counting. */
  function Column(ms: seq<G.Media>, i: nat): byte
  {
    if ms == [] then 0 else Xor(Column(ms[..|ms| - 1], i), At(ms[|ms| - 1].octets, i))
  }

  /** The XOR of the members' lengths without the fixed header, its upper octet first. */
  function LengthColumn(ms: seq<G.Media>, upper: bool): byte
    requires G.AllMedia(ms)
  {
    if ms == [] then 0
    else
      var n := (|ms[|ms| - 1].octets| - 12) % 65536;
      Xor(LengthColumn(ms[..|ms| - 1], upper), if upper then n / 256 else n % 256)
  }

  lemma {:induction false} ProtectedColumn(ms: seq<G.Media>, i: nat)
    requires G.AllMedia(ms)
    ensures ParityAt(G.ProtectedAll(ms), i)
         == if i < 8 then Column(ms, i)
            else if i < 10 then LengthColumn(ms, i == 8)
            else Column(ms, i - 2)
  {
    if ms != [] {
      var n := |ms| - 1;
      ProtectedColumn(ms[..n], i);
      var ps := G.ProtectedAll(ms);
      assert ps[..n] == G.ProtectedAll(ms[..n]);
      assert ms[n] in ms;
      ProtectedOctet(ms[n].octets, i);
      hide G.ProtectedAll, G.Protected, Xor;
    }
  }

  lemma {:induction false} ProtectedOctet(m: seq<byte>, i: nat)
    requires |m| >= 12
    ensures At(G.Protected(m), i)
         == if i < 8 then m[i]
            else if i == 8 then (|m| - 12) % 65536 / 256
            else if i == 9 then (|m| - 12) % 65536 % 256
            else At(m, i - 2)
  {
  }

  lemma {:induction false} FoldedOctet(ms: seq<G.Media>, i: nat)
    requires G.AllMedia(ms) && i < |G.Folded(ms)|
    ensures G.Folded(ms)[i]
         == if i < 8 then Column(ms, i)
            else if i < 10 then LengthColumn(ms, i == 8)
            else Column(ms, i - 2)
  {
    ProtectedColumn(ms, i);
    hide Column, LengthColumn;
  }

  /**
   * Every octet of a group's parity packet in terms of its members' (section 7.3 of RFC 5109): the six low bits of the
   * first octets with the L bit above them, the second octets, the base, the timestamps, the lengths, the protection
   * length, and behind the mask the members' octets from the generator's offset on.
   */
  lemma {:induction false} ParityOnWire(group: seq<G.Media>, k: nat, offset: nat, i: nat)
    requires G.AllMedia(group) && group != [] && 1 <= k <= 48 && 8 <= offset <= 12
    ensures var o, size := G.FecPacketOf(group, k, offset), if k > 16 then 18 else 14;
      && |G.Folded(group)| >= 14 && |o| == size + (|G.Folded(group)| - 2 - offset)
      && o[0] == Column(group, 0) % 64 + (if k > 16 then 64 else 0)
      && o[1] == Column(group, 1)
      && WordAt(o, 2) == G.GroupBase(group)
      && (4 <= i < 8 ==> o[i] == Column(group, i))
      && o[8] == LengthColumn(group, true) && o[9] == LengthColumn(group, false)
      && WordAt(o, 10) == (|G.Folded(group)| - 2 - offset) % 65536
      && (i < |o| - size ==> o[size + i] == Column(group, offset + i))
  {
    assert G.MIN_PACKET == 12;
    hide *;
    FecPacketParts(group, k, offset);
    HeadColumns(group, i);
    PayloadColumns(group, offset, i);
    PartsAt(G.Folded(group), G.GroupBase(group), k, offset, i);
  }

  lemma {:induction false} HeadColumns(group: seq<G.Media>, i: nat)
    requires G.AllMedia(group) && |G.Folded(group)| >= 14
    ensures var bits := G.Folded(group);
      && bits[0] == Column(group, 0) && bits[1] == Column(group, 1)
      && (4 <= i < 8 ==> bits[i] == Column(group, i))
      && bits[8] == LengthColumn(group, true) && bits[9] == LengthColumn(group, false)
  {
    hide *;
    FoldedOctet(group, 0);
    FoldedOctet(group, 1);
    FoldedOctet(group, 8);
    FoldedOctet(group, 9);
    if 4 <= i < 8 {
      FoldedOctet(group, i);
    }
  }

  lemma {:induction false} PayloadColumns(group: seq<G.Media>, offset: nat, i: nat)
    requires G.AllMedia(group) && 8 <= offset
    ensures offset + 2 + i < |G.Folded(group)| ==> G.Folded(group)[offset + 2 + i] == Column(group, offset + i)
  {
    hide *;
    if offset + 2 + i < |G.Folded(group)| {
      FoldedOctet(group, offset + 2 + i);
    }
  }

  lemma {:induction false} PartsAt(bits: seq<byte>, base: uint16, k: nat, offset: nat, i: nat)
    requires |bits| >= 14 && 1 <= k <= 48 && 8 <= offset <= 12
    ensures var o, size := FecHeaderOctets(bits, base, k) + LevelOctets(bits, k, offset), if k > 16 then 18 else 14;
      && |o| == size + (|bits| - 2 - offset)
      && o[0] == bits[0] % 64 + (if k > 16 then 64 else 0) && o[1] == bits[1]
      && WordAt(o, 2) == base
      && (4 <= i < 8 ==> o[i] == bits[i])
      && o[8] == bits[8] && o[9] == bits[9]
      && WordAt(o, 10) == (|bits| - 2 - offset) % 65536
      && (i < |o| - size ==> o[size + i] == bits[offset + 2 + i])
  {
    var head, tail := FecHeaderOctets(bits, base, k), LevelOctets(bits, k, offset);
    var o := head + tail;
    WordRoundTrip(base, o, 2);
    WordRoundTrip((|bits| - 2 - offset) % 65536, o, 10);
    hide WordAt, G.MaskOctets;
    assert o[2..4] == Word(base);
    assert o[10..12] == tail[..2] == Word((|bits| - 2 - offset) % 65536);
  }

  lemma {:induction false} FecHeaderReads(bits: seq<byte>, base: uint16, k: nat)
    requires |bits| >= 10
    ensures WordAt(FecHeaderOctets(bits, base, k), 2) == base
    ensures DwordAt(FecHeaderOctets(bits, base, k), 4) == DwordAt(bits, 4)
    ensures WordAt(FecHeaderOctets(bits, base, k), 8) == WordAt(bits, 8)
  {
    WordRoundTrip(base, FecHeaderOctets(bits, base, k), 2);
  }

  /** The packet `send_next_packet_handler` puts together, and what the receiver's grammar makes of it. */
  function OnWire(h: RtpHeader, bits: seq<byte>, base: uint16, k: nat, offset: nat): seq<byte>
    requires |bits| >= G.MIN_PACKET + 2 && offset <= G.MIN_PACKET
  {
    EncodeHeader(h) + G.Packetised(bits, base, k, offset)
  }

  function Recovered(h: RtpHeader, bits: seq<byte>, base: uint16, k: nat, offset: nat): FecPacket
    requires G.MIN_PACKET + 2 <= |bits| < 0x1_0000 + 2 + offset && offset <= G.MIN_PACKET
  {
    FecPacket(h, false, k > 16, bits[0] / 32 % 2 == 1, bits[0] / 16 % 2 == 1, bits[0] % 16,
              bits[1] / 128 == 1, bits[1] % 128, base, DwordAt(bits, 4), WordAt(bits, 8),
              [LevelOf(bits, k, offset)])
  }

  /**
   * The parse of a sent FEC packet is one level whose payload, protection length and recovery fields are the
   * generator's, as long as the protection length fits its sixteen bits.
   */
  lemma {:induction false} FecWireRoundTrip(h: RtpHeader, bits: seq<byte>, base: uint16, k: nat, offset: nat)
    requires PlainHeader(h)
    requires G.MIN_PACKET + 2 <= |bits| < 0x1_0000 + 2 + offset && offset <= G.MIN_PACKET
    ensures DecodeFec(OnWire(h, bits, base, k, offset)) == Some(Recovered(h, bits, base, k, offset))
  {
    var b, c := OnWire(h, bits, base, k, offset), FIXED_HEADER + 4 * h.csrc;
    hide *;
    WireHeader(h, bits, base, k, offset);
    WireOctets(h, bits, base, k, offset, b, c);
    WireLevels(h, bits, base, k, offset);
    LongMaskBit(bits[0], k);
    DecodesTo(b, h, c, k > 16, [LevelOf(bits, k, offset)]);
    FieldsRecovered(h, bits, base, k, offset);
  }

  lemma {:induction false} LongMaskBit(o: byte, k: nat)
    ensures (o % 64 + (if k > 16 then 64 else 0)) / 64 % 2 == 1 <==> k > 16
  {
  }

  /** The FEC grammar on octets whose header and levels are read. */
  lemma {:induction false} DecodesTo(b: seq<byte>, h: RtpHeader, c: nat, longMask: bool, levels: seq<FecLevel>)
    requires DecodeHeader(b) == HeaderParse(true, h, c) && c + 10 <= |b|
    requires b[c] / 64 % 2 == 1 <==> longMask
    requires DecodeLevels(b, c + 10, LevelHeaderSize(longMask)) == Some(levels)
    ensures DecodeFec(b) == Some(FecFields(h, b[c], b[c + 1], WordAt(b, c + 2), DwordAt(b, c + 4), WordAt(b, c + 8), levels))
  {
    hide DecodeHeader, DecodeLevels, WordAt, DwordAt, FecFields;
  }

  lemma {:induction false} FieldsRecovered(h: RtpHeader, bits: seq<byte>, base: uint16, k: nat, offset: nat)
    requires G.MIN_PACKET + 2 <= |bits| < 0x1_0000 + 2 + offset && offset <= G.MIN_PACKET
    ensures FecFields(h, bits[0] % 64 + (if k > 16 then 64 else 0), bits[1], base, DwordAt(bits, 4), WordAt(bits, 8),
                      [LevelOf(bits, k, offset)])
         == Recovered(h, bits, base, k, offset)
  {
    hide WordAt, DwordAt, LevelOf;
    FirstFecOctet(bits[0], k);
  }

  /** An RTP header the grammar reads back: version 2, no extension, fields within their widths. */
  predicate PlainHeader(h: RtpHeader)
  {
    && h.version == 2 && !h.extension && h.headerExtension == []
    && h.csrc == |h.csrcs| <= 15 && h.payloadType < 128
  }

  lemma {:induction false} WireHeader(h: RtpHeader, bits: seq<byte>, base: uint16, k: nat, offset: nat)
    requires PlainHeader(h) && |bits| >= G.MIN_PACKET + 2 && offset <= G.MIN_PACKET
    ensures var b, c := OnWire(h, bits, base, k, offset), FIXED_HEADER + 4 * h.csrc;
      DecodeHeader(b) == HeaderParse(true, h, c) && c + 10 <= |b|
  {
    hide DecodeHeader, EncodeHeader, LevelOctets, FecHeaderOctets, OnWire;
    WireParts(h, bits, base, k, offset);
    HeaderLength(h);
    HeaderRoundTrip(h, FecHeaderOctets(bits, base, k) + LevelOctets(bits, k, offset));
  }

  lemma {:induction false} WireOctets(h: RtpHeader, bits: seq<byte>, base: uint16, k: nat, offset: nat, b: seq<byte>,
                                      c: nat)
    requires PlainHeader(h) && |bits| >= G.MIN_PACKET + 2 && offset <= G.MIN_PACKET
    requires b == OnWire(h, bits, base, k, offset) && c == FIXED_HEADER + 4 * h.csrc && c + 10 <= |b|
    ensures b[c] == bits[0] % 64 + (if k > 16 then 64 else 0) && b[c + 1] == bits[1]
    ensures WordAt(b, c + 2) == base && DwordAt(b, c + 4) == DwordAt(bits, 4) && WordAt(b, c + 8) == WordAt(bits, 8)
  {
    var fec := FecHeaderOctets(bits, base, k);
    FecHeaderReads(bits, base, k);
    assert fec[0] == bits[0] % 64 + (if k > 16 then 64 else 0) && fec[1] == bits[1];
    HeaderLength(h);
    hide EncodeHeader, LevelOctets, FecHeaderOctets, OnWire, WordAt, DwordAt;
    WireParts(h, bits, base, k, offset);
    FecHeaderOnWire(EncodeHeader(h), fec, LevelOctets(bits, k, offset));
  }

  lemma {:induction false} WireLevels(h: RtpHeader, bits: seq<byte>, base: uint16, k: nat, offset: nat)
    requires PlainHeader(h)
    requires G.MIN_PACKET + 2 <= |bits| < 0x1_0000 + 2 + offset && offset <= G.MIN_PACKET
    ensures var b, c := OnWire(h, bits, base, k, offset), FIXED_HEADER + 4 * h.csrc;
      c + 10 <= |b| && DecodeLevels(b, c + 10, LevelHeaderSize(k > 16)) == Some([LevelOf(bits, k, offset)])
  {
    HeaderLength(h);
    hide EncodeHeader, LevelOctets, FecHeaderOctets, OnWire, LevelOf, DecodeLevels;
    WireParts(h, bits, base, k, offset);
    LevelsOnWire(EncodeHeader(h) + FecHeaderOctets(bits, base, k), bits, k, offset);
  }

  lemma {:induction false} WireParts(h: RtpHeader, bits: seq<byte>, base: uint16, k: nat, offset: nat)
    requires |bits| >= G.MIN_PACKET + 2 && offset <= G.MIN_PACKET
    ensures var head, fec, level := EncodeHeader(h), FecHeaderOctets(bits, base, k), LevelOctets(bits, k, offset);
      OnWire(h, bits, base, k, offset) == head + (fec + level) == (head + fec) + level
  {
    PacketisedParts(bits, base, k, offset);
    hide EncodeHeader, FecHeaderOctets, LevelOctets, G.Packetised;
  }

  lemma {:induction false} FirstFecOctet(o: byte, k: nat)
    ensures var f := o % 64 + (if k > 16 then 64 else 0);
      && f / 128 == 0 && (f / 64 % 2 == 1 <==> k > 16)
      && f / 32 % 2 == o / 32 % 2 && f / 16 % 2 == o / 16 % 2 && f % 16 == o % 16
  {
    HighBitsIrrelevant(o / 64, o % 64);
    HighBitsIrrelevant(if k > 16 then 1 else 0, o % 64);
  }

  lemma {:induction false} HighBitsIrrelevant(q: nat, r: nat)
    requires r < 64
    ensures (64 * q + r) / 32 % 2 == r / 32 && (64 * q + r) / 16 % 2 == r / 16 % 2 && (64 * q + r) % 16 == r % 16
  {
    By32(2 * q + r / 32, r % 32);
    By16(4 * q + r / 16, r % 16);
    assert 64 * q + r == 32 * (2 * q + r / 32) + r % 32 == 16 * (4 * q + r / 16) + r % 16;
    assert 4 * q + r / 16 == 2 * (2 * q + r / 32) + r / 16 % 2;
  }

  lemma {:induction false} By32(q: nat, r: nat)
    requires r < 32
    ensures (32 * q + r) / 32 == q
  {
  }

  lemma {:induction false} By16(q: nat, r: nat)
    requires r < 16
    ensures (16 * q + r) / 16 == q && (16 * q + r) % 16 == r
  {
  }

  lemma {:induction false} LevelsOnWire(front: seq<byte>, bits: seq<byte>, k: nat, offset: nat)
    requires G.MIN_PACKET + 2 <= |bits| < 0x1_0000 + 2 + offset && offset <= G.MIN_PACKET
    ensures DecodeLevels(front + LevelOctets(bits, k, offset), |front|, LevelHeaderSize(k > 16))
         == Some([LevelOf(bits, k, offset)])
  {
    DecodeLevelsShift(front, LevelOctets(bits, k, offset), 0, LevelHeaderSize(k > 16));
    SingleLevel(bits, k, offset);
  }

  lemma {:induction false} FecHeaderOnWire(head: seq<byte>, fec: seq<byte>, level: seq<byte>)
    requires |fec| == 10
    ensures var b := head + fec + level; var c := |head|;
      && b[c] == fec[0] && b[c + 1] == fec[1]
      && WordAt(b, c + 2) == WordAt(fec, 2) && DwordAt(b, c + 4) == DwordAt(fec, 4)
      && WordAt(b, c + 8) == WordAt(fec, 8)
  {
  }

  // ---- several levels ----

  /** One level as it stands on the wire. */
  datatype Part = Part(mask: seq<byte>, body: seq<byte>)

  predicate Parts(ps: seq<Part>, size: nat)
  {
    2 <= size <= 8 && forall i :: 0 <= i < |ps| ==> |ps[i].mask| == size - 2 && |ps[i].body| < 65536
  }

  /** The levels one behind the other, and what is left of the packet. */
  function PartsOctets(ps: seq<Part>, size: nat, tail: seq<byte>): seq<byte>
    requires Parts(ps, size)
  {
    if ps == [] then tail
    else Word(|ps[0].body|) + ps[0].mask + ps[0].body + PartsOctets(ps[1..], size, tail)
  }

  /** What is read of them: each payload goes on to the end of the packet, over all levels behind its own. */
  function PartsRead(ps: seq<Part>, size: nat, tail: seq<byte>): (r: seq<FecLevel>)
    requires Parts(ps, size)
    ensures |r| == |ps|
  {
    if ps == [] then []
    else
      [FecLevel(|ps[0].body|, ps[0].mask + seq(10 - size, _ => 0), ps[0].body + PartsOctets(ps[1..], size, tail))]
      + PartsRead(ps[1..], size, tail)
  }

  /** Any number of levels is read back, whatever too short a rest follows them. */
  lemma {:induction false} LevelsReadBack(ps: seq<Part>, size: nat, tail: seq<byte>)
    requires Parts(ps, size) && |tail| < size
    ensures DecodeLevels(PartsOctets(ps, size, tail), 0, size) == Some(PartsRead(ps, size, tail))
  {
    if ps != [] {
      var rest := PartsOctets(ps[1..], size, tail);
      LevelsReadBack(ps[1..], size, tail);
      hide PartsOctets, PartsRead;
      LevelInFront(ps[0], size, rest, PartsRead(ps[1..], size, tail));
      FirstPart(ps, size, tail);
    }
  }

  lemma {:induction false} FirstPart(ps: seq<Part>, size: nat, tail: seq<byte>)
    requires Parts(ps, size) && ps != []
    ensures PartsOctets(ps, size, tail)
         == Word(|ps[0].body|) + ps[0].mask + ps[0].body + PartsOctets(ps[1..], size, tail)
    ensures PartsRead(ps, size, tail)
         == [FecLevel(|ps[0].body|, ps[0].mask + seq(10 - size, _ => 0), ps[0].body + PartsOctets(ps[1..], size, tail))]
            + PartsRead(ps[1..], size, tail)
  {
  }

  lemma {:induction false} LevelInFront(p: Part, size: nat, rest: seq<byte>, levels: seq<FecLevel>)
    requires 2 <= size <= 8 && |p.mask| == size - 2 && |p.body| < 65536
    requires DecodeLevels(rest, 0, size) == Some(levels)
    ensures DecodeLevels(Word(|p.body|) + p.mask + p.body + rest, 0, size)
         == Some([FecLevel(|p.body|, p.mask + seq(10 - size, _ => 0), p.body + rest)] + levels)
  {
    var front := Word(|p.body|) + p.mask + p.body;
    DecodeLevelsShift(front, rest, 0, size);
    PartIs(p, size, rest);
    hide LevelAt, Word;
  }

  lemma {:induction false} PartIs(p: Part, size: nat, rest: seq<byte>)
    requires 2 <= size <= 8 && |p.mask| == size - 2 && |p.body| < 65536
    ensures LevelAt(Word(|p.body|) + p.mask + p.body + rest, 0, size)
         == FecLevel(|p.body|, p.mask + seq(10 - size, _ => 0), p.body + rest)
  {
    var b := Word(|p.body|) + p.mask + p.body + rest;
    WordRoundTrip(|p.body|, b, 0);
    hide WordAt, Word;
    assert b[0..2] == Word(|p.body|);
    assert b[2..size] == p.mask;
    assert b[size..] == p.body + rest;
  }
}
