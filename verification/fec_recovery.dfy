/** `fec_reconstruction` and the padding cut of `recover_packet_by_fec`, and what they give back. */
module FecRecovery {
  import opened Octets
  import opened Parity
  import opened RtpPacket
  import opened FecGeneration
  import FecWire

  /** A buffered media packet: its parse and its raw octets. */
  datatype Received = Received(packet: JpegPacket, octets: seq<byte>)

  /** The ways the C++ leaves the function without a packet. */
  datatype Reason =
    | ShortPacket      // logic_error from the generator
    | NoMedia          // media_packets.at(0) throws
    | MaskOverflow     // mask.at throws
    | NoLevel          // levels.at(0) throws
    | OversizedPayload // the fill count underflows size_t
    | OutOfBounds      // undefined access past a buffer

  datatype Rebuild = Rebuilt(packet: JpegPacket, octets: seq<byte>) | Fault(reason: Reason)

  /** Media octet from which `fec_reconstruction` XORs the survivors as shipped. */
  const SHIPPED_SURVIVOR_OFFSET := 12
  const ZEROS: seq<byte> := [0, 0, 0, 0, 0, 0, 0, 0, 0, 0, 0, 0]

  // ---- closed form ----

  function AsMedia(media: seq<Received>): (r: seq<Media>)
    ensures |r| == |media|
  {
    seq(|media|, i requires 0 <= i < |media| => Media(media[i].octets, media[i].packet.header.sequenceNumber))
  }

  /** The ten header octets of the second generator's packet, XORed with the received ones. */
  function HeaderColumns(raw: seq<byte>, at: nat, media: seq<Media>, first: uint16): (r: seq<byte>)
    requires at + 10 <= |raw| && AllMedia(media)
    ensures |r| == 10
  {
    var group := media + [Media(ZEROS, first)];
    AllMediaSnoc(media, Media(ZEROS, first));
    FecPacketLength(group, |group|, SHIPPED_EMIT_OFFSET);
    XorTen(FecPacketOf(group, |group|, SHIPPED_EMIT_OFFSET), raw, at)
  }

  function XorTen(a: seq<byte>, b: seq<byte>, at: nat): (r: seq<byte>)
    requires |a| >= 10 && at + 10 <= |b|
    ensures |r| == 10
  {
    seq(10, i requires 0 <= i < 10 => Xor(a[i], b[at + i]))
  }

  lemma {:induction false} FecPacketLength(group: seq<Media>, k: nat, offset: nat)
    requires AllMedia(group) && group != [] && offset <= MIN_PACKET
    ensures |FecPacketOf(group, k, offset)| >= 10
  {
  }

  /** Sequence number, SSRC and CSRC list keep their initial values. */
  function RebuiltHeader(columns: seq<byte>): RtpHeader
    requires |columns| == 10
  {
    INITIAL_HEADER.(
      padding := columns[0] / 32 % 2 == 1, extension := columns[0] / 16 % 2 == 1, csrc := columns[0] % 16,
      marker := columns[1] / 128 == 1, payloadType := columns[1] % 128, timestamp := DwordAt(columns, 4))
  }

  function Tails(media: seq<Media>, offset: nat): (r: seq<seq<byte>>)
    requires AllMedia(media) && offset <= MIN_PACKET
    ensures |r| == |media|
  {
    seq(|media|, i requires 0 <= i < |media| => assert media[i] in media; media[i].octets[offset..])
  }

  function RebuiltPayload(level: FecLevel, media: seq<Media>, offset: nat): (r: seq<byte>)
    requires AllMedia(media) && offset <= MIN_PACKET
    ensures |r| == level.protectionLength
  {
    seq(level.protectionLength, i requires 0 <= i => Xor(At(level.payload, i), ParityAt(Tails(media, offset), i)))
  }

  function RebuiltOctets(fec: FecPacket, raw: seq<byte>, media: seq<Media>, offset: nat): seq<byte>
    requires AllMedia(media) && media != [] && offset <= MIN_PACKET
    requires FIXED_HEADER + 4 * fec.header.csrc + 10 <= |raw| && fec.levels != []
  {
    EncodeFixed(RebuiltHeader(HeaderColumns(raw, FIXED_HEADER + 4 * fec.header.csrc, media, media[0].number)))
    + RebuiltPayload(fec.levels[0], media, offset)
  }

  predicate Fits(media: seq<Media>, offset: nat, length: nat)
  {
    forall m :: m in media ==> |m.octets| <= length + offset
  }

  lemma {:induction false} DataWithin(octets: seq<byte>)
    ensures |DecodeJpeg(octets).packet.data| <= |octets|
  {
  }

  function Reconstruct(fec: FecPacket, raw: seq<byte>, media: seq<Media>, offset: nat): (r: Rebuild)
    requires offset <= MIN_PACKET
    ensures r.Rebuilt? ==> |r.packet.data| <= |r.octets|
  {
    if !AllMedia(media) then Fault(ShortPacket)
    else if media == [] then Fault(NoMedia)
    else if |media| + 1 > MAX_MASK_BITS then Fault(MaskOverflow)
    else if FIXED_HEADER + 4 * fec.header.csrc + 10 > |raw| then Fault(OutOfBounds)
    else if fec.levels == [] then Fault(NoLevel)
    else if |fec.levels[0].payload| > fec.levels[0].protectionLength then Fault(OversizedPayload)
    else if !Fits(media, offset, fec.levels[0].protectionLength) then Fault(OutOfBounds)
    else
      var octets := RebuiltOctets(fec, raw, media, offset);
      DataWithin(octets);
      Rebuilt(DecodeJpeg(octets).packet, octets)
  }

  lemma {:induction false} ReconstructRebuilds(fec: FecPacket, raw: seq<byte>, media: seq<Media>, offset: nat)
    requires offset <= MIN_PACKET && AllMedia(media) && 0 < |media| < MAX_MASK_BITS
    requires FIXED_HEADER + 4 * fec.header.csrc + 10 <= |raw| && fec.levels != []
    requires |fec.levels[0].payload| <= fec.levels[0].protectionLength
    requires Fits(media, offset, fec.levels[0].protectionLength)
    ensures var octets := RebuiltOctets(fec, raw, media, offset);
      Reconstruct(fec, raw, media, offset) == Rebuilt(DecodeJpeg(octets).packet, octets)
  {
    hide RebuiltOctets, DecodeJpeg, Fits, AllMedia;
  }

  // ---- the algorithm ----

  /** Runs a fresh generator over the survivors and twelve zero octets. */
  method SecondRun(media: seq<Received>) returns (r: Emission)
    requires |media| < 0xFFFF && media != []
    ensures r.LogicError? <==> !AllMedia(AsMedia(media))
    ensures AllMedia(AsMedia(media)) && |media| + 1 > MAX_MASK_BITS ==> r == OutOfRange
    ensures AllMedia(AsMedia(media)) && |media| + 1 <= MAX_MASK_BITS ==>
      var group := AsMedia(media) + [Media(ZEROS, AsMedia(media)[0].number)];
      AllMedia(group) && r == Emitted(FecPacketOf(group, |group|, SHIPPED_EMIT_OFFSET))
  {
    hide FecPacketOf, Reflects, Expected;
    var k := |media| + 1;
    var generator := new FecGenerator(k, SHIPPED_EMIT_OFFSET);
    ghost var all := AsMedia(media);
    var i := 0;
    while i < |media|
      invariant 0 <= i <= |media|
      invariant fresh(generator) && generator.Valid() && generator.fecK == k
      invariant generator.payloadOffset == SHIPPED_EMIT_OFFSET
      invariant generator.fed == all[..i] && AllMedia(all[..i])
    {
      r := generator.Generate(media[i].octets, media[i].packet.header.sequenceNumber);
      if |all[i].octets| >= MIN_PACKET {
        FirstGroup(generator.fed, k, SHIPPED_EMIT_OFFSET);
      }
      if r == LogicError {
        assert all[i] in all && |all[i].octets| < MIN_PACKET;
        return;
      }
      assert all[..i + 1] == all[..i] + [all[i]];
      i := i + 1;
    }
    assert all[..i] == all;
    AllMediaSnoc(all, Media(ZEROS, all[0].number));
    r := generator.Generate(ZEROS, media[0].packet.header.sequenceNumber);
    FirstGroup(generator.fed, k, SHIPPED_EMIT_OFFSET);
  }

  /** XORs every survivor, from `offset` on, over the zero-filled level payload. */
  method FoldSurvivors(level: FecLevel, media: seq<Received>, offset: nat) returns (bits: seq<byte>)
    requires AllMedia(AsMedia(media)) && offset <= MIN_PACKET
    requires |level.payload| <= level.protectionLength && Fits(AsMedia(media), offset, level.protectionLength)
    ensures bits == RebuiltPayload(level, AsMedia(media), offset)
  {
    ghost var all := AsMedia(media);
    bits := level.payload + seq(level.protectionLength - |level.payload|, _ => 0);
    ghost var tails := Tails(all, offset);
    forall i | 0 <= i < |bits| ensures bits[i] == Xor(At(level.payload, i), ParityAt(tails[..0], i)) {
      XorLaws(At(level.payload, i), 0, 0);
    }
    var j := 0;
    while j < |media|
      invariant 0 <= j <= |media| && |bits| == level.protectionLength
      invariant forall i :: 0 <= i < |bits| ==> bits[i] == Xor(At(level.payload, i), ParityAt(tails[..j], i))
    {
      assert all[j] in all;
      ghost var before := bits;
      bits := XorRange(bits, 0, media[j].octets[offset..]);
      forall i | 0 <= i < |bits| ensures bits[i] == Xor(At(level.payload, i), ParityAt(tails[..j + 1], i)) {
        ParitySnoc(tails, j, i);
        XorLaws(At(level.payload, i), ParityAt(tails[..j], i), At(tails[j], i));
        XorLaws(before[i], 0, 0);
      }
      j := j + 1;
    }
    assert tails[..j] == tails;
  }

  lemma {:induction false} ParitySnoc(ss: seq<seq<byte>>, j: nat, i: nat)
    requires j < |ss|
    ensures ParityAt(ss[..j + 1], i) == Xor(ParityAt(ss[..j], i), At(ss[j], i))
  {
    assert ss[..j + 1][..j] == ss[..j];
  }

  /** XORs the first ten octets of the second run's packet over the received FEC header. */
  method XorHeaders(second: seq<byte>, raw: seq<byte>, at: nat) returns (columns: seq<byte>)
    requires |second| >= 10 && at + 10 <= |raw|
    ensures columns == XorTen(second, raw, at)
  {
    columns := XorRange(second[..10], 0, raw[at..at + 10]);
  }

  /** `fec_reconstruction`; at most one survivor per bit of the 64-bit mask. */
  method FecReconstruction(fec: FecPacket, raw: seq<byte>, media: seq<Received>, offset: nat) returns (r: Rebuild)
    requires offset <= MIN_PACKET && |media| <= 64
    ensures r == Reconstruct(fec, raw, AsMedia(media), offset)
  {
    hide FecPacketOf, RebuiltOctets, DecodeJpeg, XorTen;
    if media == [] {
      return Fault(NoMedia);
    }
    var step1 := SecondRun(media);
    if step1 == LogicError {
      return Fault(ShortPacket);
    }
    if step1 == OutOfRange {
      return Fault(MaskOverflow);
    }
    var at := FIXED_HEADER + 4 * fec.header.csrc;
    if at + 10 > |raw| {
      return Fault(OutOfBounds);
    }
    ghost var group := AsMedia(media) + [Media(ZEROS, AsMedia(media)[0].number)];
    FecPacketLength(group, |group|, SHIPPED_EMIT_OFFSET);
    var columns := XorHeaders(step1.octets, raw, at);
    r := Assemble(fec, raw, media, offset, columns);
  }

  /** The part after the header columns: zero-filled payload, header octets, and the parse of both. */
  method Assemble(fec: FecPacket, ghost raw: seq<byte>, media: seq<Received>, offset: nat, columns: seq<byte>)
    returns (r: Rebuild)
    requires offset <= MIN_PACKET && 0 < |media| < MAX_MASK_BITS && AllMedia(AsMedia(media))
    requires FIXED_HEADER + 4 * fec.header.csrc + 10 <= |raw|
    requires columns
          == HeaderColumns(raw, FIXED_HEADER + 4 * fec.header.csrc, AsMedia(media), AsMedia(media)[0].number)
    ensures r == Reconstruct(fec, raw, AsMedia(media), offset)
  {
    hide HeaderColumns, DecodeJpeg, EncodeFixed;
    if fec.levels == [] {
      return Fault(NoLevel);
    }
    var level := fec.levels[0];
    if |level.payload| > level.protectionLength {
      return Fault(OversizedPayload);
    }
    var i := 0;
    while i < |media|
      invariant 0 <= i <= |media|
      invariant Fits(AsMedia(media)[..i], offset, level.protectionLength)
    {
      if |media[i].octets| > level.protectionLength + offset {
        assert AsMedia(media)[i] in AsMedia(media);
        return Fault(OutOfBounds);
      }
      assert AsMedia(media)[..i + 1] == AsMedia(media)[..i] + [AsMedia(media)[i]];
      i := i + 1;
    }
    assert AsMedia(media)[..i] == AsMedia(media);
    var bits := FoldSurvivors(level, media, offset);
    var ok, buffer := GenerateHeader(RebuiltHeader(columns));
    assert buffer == EncodeFixed(RebuiltHeader(columns));
    buffer := buffer + bits;
    var parse := ParseJpeg(buffer);
    return Rebuilt(parse.packet, buffer);
  }
}
