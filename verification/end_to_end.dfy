/** From a lost media packet to the packet the receiver puts back in its buffer. */
module EndToEnd {
  import opened Wrappers
  import opened Octets
  import opened Parity
  import opened RtpPacket
  import opened FecGeneration
  import opened FecRecovery
  import opened RecoveryTheorems
  import FecWire

  // ---- cutting the padding ----

  /** The JPEG end-of-image marker at index `i`. */
  predicate MarkerAt(data: seq<byte>, i: int)
  {
    0 <= i && i + 2 <= |data| && data[i] == 0xFF && data[i + 1] == 0xD9
  }

  /** `std::find_end` for FF D9: its last occurrence, or -1. */
  function LastMarker(data: seq<byte>): (r: int)
    ensures r == -1 || MarkerAt(data, r)
    ensures forall i :: MarkerAt(data, i) ==> i <= r
  {
    if |data| < 2 then -1
    else if MarkerAt(data, |data| - 2) then |data| - 2
    else
      var front := data[..|data| - 1];
      assert forall i :: MarkerAt(data, i) ==> MarkerAt(front, i);
      LastMarker(front)
  }

  /** Everything after the last marker is taken for padding, in the parse and in the raw octets. */
  function Trim(packet: JpegPacket, octets: seq<byte>): Received
    requires |packet.data| <= |octets|
  {
    var end := LastMarker(packet.data);
    if end < 0 then Received(packet, octets)
    else
      var padding := |packet.data| - (end + 2);
      Received(packet.(data := packet.data[..end + 2]), octets[..|octets| - padding])
  }

  predicate MarkerFree(s: seq<byte>)
  {
    forall i :: 0 <= i < |s| ==> !MarkerAt(s, i)
  }

  lemma {:induction false} MarkerInTail(data: seq<byte>, tail: seq<byte>, i: nat)
    ensures MarkerAt(data + tail, |data| + i) <==> MarkerAt(tail, i)
  {
  }

  /** Past a final marker, the last marker is that one iff what follows holds none. */
  lemma {:induction false} LastMarkerStays(data: seq<byte>, tail: seq<byte>)
    requires MarkerAt(data, |data| - 2)
    ensures LastMarker(data + tail) == |data| - 2 <==> MarkerFree(tail)
  {
    var whole, end := data + tail, |data| - 2;
    assert MarkerAt(whole, end) && !MarkerAt(whole, end + 1);
    var last := LastMarker(whole);
    if MarkerFree(tail) {
      if last > end + 1 {
        MarkerInTail(data, tail, last - |data|);
      }
    } else {
      var i :| 0 <= i < |tail| && MarkerAt(tail, i);
      MarkerInTail(data, tail, i);
    }
  }

  lemma {:induction false} ZerosAreMarkerFree(n: nat)
    ensures MarkerFree(Zeros(n))
  {
  }

  // ---- parsing a cleared, padded packet ----

  /** Same octets after the fixed header, possibly followed by more. */
  predicate SameBody(b: seq<byte>, c: seq<byte>)
  {
    |b| <= |c| && forall i :: FIXED_HEADER <= i < |b| ==> c[i] == b[i]
  }

  lemma {:induction false} SameCsrcs(b: seq<byte>, c: seq<byte>, n: nat)
    requires SameBody(b, c) && FIXED_HEADER + 4 * n <= |b|
    ensures DecodeCsrcs(c, FIXED_HEADER, n) == DecodeCsrcs(b, FIXED_HEADER, n)
  {
  }

  lemma {:induction false} SameExtension(b: seq<byte>, c: seq<byte>, h: RtpHeader, at: nat)
    requires SameBody(b, c) && FIXED_HEADER <= at <= |b|
    requires DecodeExtension(b, h, at).ok && DecodeExtension(b, h, at).cursor + 8 <= |b|
    ensures DecodeExtension(c, h, at) == DecodeExtension(b, h, at)
  {
    assert at + 6 <= |b|;
    assert WordAt(c, at + 4) == WordAt(b, at + 4);
    var rest, words := at + 6, WordAt(b, at + 4);
    assert c[at..at + 4] == b[at..at + 4];
    assert c[rest..rest + 4 * words] == b[rest..rest + 4 * words];
  }

  function ClearedHeader(h: RtpHeader): RtpHeader
  {
    h.(sequenceNumber := 0, ssrc := 0)
  }

  lemma {:induction false} ExtensionIgnoresFixed(b: seq<byte>, h: RtpHeader, at: nat)
    requires at <= |b|
    ensures DecodeExtension(b, ClearedHeader(h), at)
         == DecodeExtension(b, h, at).(header := ClearedHeader(DecodeExtension(b, h, at).header))
  {
  }

  lemma {:induction false} ClearedFixed(m: seq<byte>, tail: seq<byte>)
    requires |m| >= MIN_PACKET
    ensures DecodeFixed(Cleared(m) + tail) == ClearedHeader(DecodeFixed(m))
  {
    var b := Cleared(m) + tail;
    assert b[0] == m[0] && b[1] == m[1] && b[2] == 0 && b[3] == 0;
    assert b[4] == m[4] && b[5] == m[5] && b[6] == m[6] && b[7] == m[7];
    assert b[8] == 0 && b[9] == 0 && b[10] == 0 && b[11] == 0;
  }

  lemma {:induction false} ClearedBody(m: seq<byte>, tail: seq<byte>)
    requires |m| >= MIN_PACKET
    ensures SameBody(m, Cleared(m) + tail)
  {
  }

  lemma {:induction false} ClearedHeaderParse(m: seq<byte>, tail: seq<byte>)
    requires DecodeHeader(m).ok && DecodeHeader(m).cursor + 8 <= |m|
    ensures DecodeHeader(Cleared(m) + tail) == DecodeHeader(m).(header := ClearedHeader(DecodeHeader(m).header))
  {
    var c, h := Cleared(m) + tail, DecodeFixed(m);
    ClearedFixed(m, tail);
    ClearedBody(m, tail);
    SameCsrcs(m, c, h.csrc);
    var full, at := h.(csrcs := DecodeCsrcs(m, FIXED_HEADER, h.csrc)), FIXED_HEADER + 4 * h.csrc;
    hide DecodeFixed, DecodeExtension, DecodeCsrcs, Cleared, SameBody;
    if h.extension {
      SameExtension(m, c, full, at);
      ExtensionIgnoresFixed(c, full, at);
    }
  }

  function ClearedPacket(p: JpegPacket): JpegPacket
  {
    p.(header := ClearedHeader(p.header))
  }

  /** The packet with header `h` and the octets behind it. */
  function JpegOf(h: RtpHeader, rest: seq<byte>): JpegPacket
    requires |rest| >= 8
  {
    JpegPacket(h, rest[0], 0x1_0000 * (rest[1] as int) + WordAt(rest, 2), rest[4], rest[5], rest[6], rest[7], rest[8..])
  }

  lemma {:induction false} DecodesAs(b: seq<byte>, h: RtpHeader, at: nat)
    requires DecodeHeader(b) == HeaderParse(true, h, at) && h.payloadType == JPEG_PAYLOAD_TYPE && at + 8 <= |b|
    ensures DecodeJpeg(b) == JpegParse(true, JpegOf(h, b[at..]))
  {
    hide DecodeHeader;
    assert b[at..][8..] == b[at + 8..];
  }

  lemma {:induction false} JpegOfTail(h: RtpHeader, rest: seq<byte>, tail: seq<byte>)
    requires |rest| >= 8
    ensures JpegOf(ClearedHeader(h), rest + tail) == ClearedPacket(JpegOf(h, rest)).(data := rest[8..] + tail)
  {
    assert (rest + tail)[8..] == rest[8..] + tail;
  }

  lemma {:induction false} ClearedParse(m: seq<byte>, p: JpegPacket, tail: seq<byte>)
    requires DecodeJpeg(m) == JpegParse(true, p)
    ensures |m| >= MIN_PACKET && m[0] / 64 == 2 && |p.data| <= |m|
    ensures DecodeJpeg(Cleared(m) + tail) == JpegParse(true, ClearedPacket(p).(data := p.data + tail))
  {
    ParsedVersion(m);
    var h, at := DecodeHeader(m).header, DecodeHeader(m).cursor;
    assert DecodeHeader(m) == HeaderParse(true, h, at) && h.payloadType == JPEG_PAYLOAD_TYPE && at + 8 <= |m|;
    hide DecodeHeader, DecodeJpeg, Cleared, JpegOf;
    ClearedHeaderParse(m, tail);
    TailOfCleared(m, tail, at);
    DecodesAs(m, h, at);
    DecodesAs(Cleared(m) + tail, ClearedHeader(h), at);
    JpegOfTail(h, m[at..], tail);
    DataOf(h, m[at..]);
  }

  lemma {:induction false} DataOf(h: RtpHeader, rest: seq<byte>)
    requires |rest| >= 8
    ensures JpegOf(h, rest).data == rest[8..]
  {
  }

  lemma {:induction false} TailOfCleared(m: seq<byte>, tail: seq<byte>, at: nat)
    requires MIN_PACKET <= at <= |m|
    ensures (Cleared(m) + tail)[at..] == m[at..] + tail
  {
  }

  // ---- the theorem ----

  /** What `recover_packet_by_fec` inserts after a reconstruction that did not fail. */
  function Restored(r: Rebuild): Option<Received>
  {
    match r
    case Fault(_) => None
    case Rebuilt(packet, octets) => if |packet.data| <= |octets| then Some(Trim(packet, octets)) else None
  }

  /** From the parity packet and the other members of the group, member `x` comes back as `received`. */
  predicate RestoredAs(h: RtpHeader, group: seq<Media>, x: nat, received: Received)
  {
    && OneMissing(h, group, x, RFC_OFFSET)
    && Restored(Reconstruct(ParsedFec(h, group, x, RFC_OFFSET), RawFec(h, group, x, RFC_OFFSET),
                            Survivors(h, group, x, RFC_OFFSET), RFC_OFFSET)) == Some(received)
  }

  /**
   * With generator and reconstruction sharing offset 12, any single lost packet of any sent group comes back in
   * every field except sequence number and SSRC, however much zero padding the group's longest packet causes.
   * The packet may carry CSRCs or an extension; it only has to parse and to end with the end-of-image marker.
   */
  lemma {:induction false} EndToEndRecovery(h: RtpHeader, group: seq<Media>, x: nat, p: JpegPacket)
    requires OneMissing(h, group, x, RFC_OFFSET)
    requires DecodeJpeg(group[x].octets) == JpegParse(true, p)
    requires MarkerAt(p.data, |p.data| - 2)
    ensures |group[x].octets| >= MIN_PACKET
    ensures RestoredAs(h, group, x, Received(ClearedPacket(p), Cleared(group[x].octets)))
  {
    var m := group[x].octets;
    ParsedVersion(m);
    ExactRecovery(h, group, x);
    var n := |Folded(group)| - 2 - |m|;
    var octets := Cleared(m) + Zeros(n);
    assert octets[..|m|] == Cleared(m) && octets[|m|..] == Zeros(n);
    ZerosAreMarkerFree(n);
    hide *;
    RestoredIff(p, m, octets);
  }

  /** Rebuilt octets give the packet back, after the cut, iff they start with it and hold no marker behind it. */
  lemma {:induction false} RestoredIff(p: JpegPacket, m: seq<byte>, octets: seq<byte>)
    requires DecodeJpeg(m) == JpegParse(true, p) && MarkerAt(p.data, |p.data| - 2)
    requires |m| <= |octets|
    ensures |m| >= MIN_PACKET
    ensures Restored(Rebuilt(DecodeJpeg(octets).packet, octets)) == Some(Received(ClearedPacket(p), Cleared(m)))
       <==> octets[..|m|] == Cleared(m) && MarkerFree(octets[|m|..])
  {
    ParsedVersion(m);
    hide DecodeJpeg, Cleared, MarkerFree, LastMarker, MarkerAt;
    if octets[..|m|] == Cleared(m) {
      var tail := octets[|m|..];
      assert octets == Cleared(m) + tail;
      ClearedParse(m, p, tail);
      LastMarkerStays(p.data, tail);
      TrimmedTail(p, m, tail);
    } else {
      RestoredStarts(DecodeJpeg(octets).packet, octets);
    }
  }

  lemma {:induction false} RestoredStarts(packet: JpegPacket, octets: seq<byte>)
    ensures var r := Restored(Rebuilt(packet, octets)); r.Some? ==> r.value.octets <= octets
  {
    hide Trim;
    if |packet.data| <= |octets| {
      TrimIsPrefix(packet, octets);
    }
  }

  /** Cutting never touches the front of the octets. */
  lemma {:induction false} TrimIsPrefix(packet: JpegPacket, octets: seq<byte>)
    requires |packet.data| <= |octets|
    ensures Trim(packet, octets).octets <= octets
  {
    hide LastMarker;
  }

  lemma {:induction false} TrimmedTail(p: JpegPacket, m: seq<byte>, tail: seq<byte>)
    requires |p.data| <= |m| && MIN_PACKET <= |m| && MarkerAt(p.data, |p.data| - 2)
    requires LastMarker(p.data + tail) == |p.data| - 2 <==> MarkerFree(tail)
    ensures Restored(Rebuilt(ClearedPacket(p).(data := p.data + tail), Cleared(m) + tail))
              == Some(Received(ClearedPacket(p), Cleared(m)))
       <==> MarkerFree(tail)
  {
    hide Cleared, LastMarker, MarkerFree;
    assert (p.data + tail)[..|p.data|] == p.data;
    assert (Cleared(m) + tail)[..|m|] == Cleared(m);
    assert MarkerAt(p.data + tail, |p.data| - 2);
  }

  lemma {:induction false} ParsedVersion(m: seq<byte>)
    requires DecodeJpeg(m).ok
    ensures |m| >= MIN_PACKET && m[0] / 64 == 2
    ensures |DecodeJpeg(m).packet.data| <= |m|
  {
  }

  // ---- the code as it stands ----

  /**
   * As shipped, a generator run over a whole group and one over its survivors and twelve zeros cancel to the lost
   * packet's octets from 10 on, zero-padded.
   */
  lemma {:induction false} LevelPayloadsCancel(group: seq<Media>, x: nat, number: uint16, i: nat)
    requires AllMedia(group) && x < |group|
    ensures AllMedia(Without(group, x) + [Media(ZEROS, number)])
    ensures var second := Without(group, x) + [Media(ZEROS, number)];
      && SHIPPED_EMIT_OFFSET + 2 <= |Folded(group)| && SHIPPED_EMIT_OFFSET + 2 <= |Folded(second)|
      && Xor(At(Folded(second)[SHIPPED_EMIT_OFFSET + 2..], i), At(Folded(group)[SHIPPED_EMIT_OFFSET + 2..], i))
         == At(group[x].octets, SHIPPED_EMIT_OFFSET + i)
  {
    hide Folded, Protected, Xor, Without, At;
    var second := Without(group, x) + [Media(ZEROS, number)];
    RunsCancel(group, x, number, SHIPPED_EMIT_OFFSET + 2 + i);
    ProtectedAt(group[x].octets, SHIPPED_EMIT_OFFSET + i);
    FoldedLength(group);
    FoldedLength(second);
    AtTail(Folded(group), SHIPPED_EMIT_OFFSET + 2, i);
    AtTail(Folded(second), SHIPPED_EMIT_OFFSET + 2, i);
  }

  function ShippedLevel(h: RtpHeader, group: seq<Media>, x: nat): seq<byte>
    requires OneMissing(h, group, x, SHIPPED_EMIT_OFFSET)
  {
    ParsedFec(h, group, x, SHIPPED_EMIT_OFFSET).levels[0].payload
  }

  /** The payload the shipped pair rebuilds. */
  function ShippedPayload(h: RtpHeader, group: seq<Media>, x: nat): seq<byte>
    requires OneMissing(h, group, x, SHIPPED_EMIT_OFFSET)
  {
    RebuiltPayload(ParsedFec(h, group, x, SHIPPED_EMIT_OFFSET).levels[0],
                   Survivors(h, group, x, SHIPPED_EMIT_OFFSET), SHIPPED_SURVIVOR_OFFSET)
  }

  function ShippedRebuild(h: RtpHeader, group: seq<Media>, x: nat): Rebuild
    requires OneMissing(h, group, x, SHIPPED_EMIT_OFFSET)
  {
    Reconstruct(ParsedFec(h, group, x, SHIPPED_EMIT_OFFSET), RawFec(h, group, x, SHIPPED_EMIT_OFFSET),
                Survivors(h, group, x, SHIPPED_EMIT_OFFSET), SHIPPED_SURVIVOR_OFFSET)
  }

  lemma {:induction false} LevelOctet(h: RtpHeader, group: seq<Media>, x: nat, i: nat)
    requires OneMissing(h, group, x, SHIPPED_EMIT_OFFSET)
    ensures |ShippedLevel(h, group, x)| == |Folded(group)| - 12 && |Folded(group)| >= 14
    ensures At(ShippedLevel(h, group, x), i) == Column(group, 10 + i)
  {
    LevelLength(h, group, x, SHIPPED_EMIT_OFFSET);
    FoldedLength(group);
    LevelColumn(group, |group|, SHIPPED_EMIT_OFFSET, i);
    hide Column, Folded, FecWire.LevelOf, At;
  }

  lemma {:induction false} ShippedLengths(h: RtpHeader, group: seq<Media>, x: nat)
    requires OneMissing(h, group, x, SHIPPED_EMIT_OFFSET)
    ensures |ShippedPayload(h, group, x)| == |ShippedLevel(h, group, x)| == |Folded(group)| - 12
    ensures MIN_PACKET <= |group[x].octets| <= |Folded(group)| - 2
  {
    LevelLength(h, group, x, SHIPPED_EMIT_OFFSET);
    FoldedLength(group);
    assert group[x] in group;
    hide Folded, ParsedFec, Survivors;
  }

  /** What stands between octet `i` of the shipped pair's payload and the lost packet's octet `12 + i`. */
  function Difference(level: seq<byte>, i: nat): byte
  {
    Xor(At(level, i), At(level, i + 2))
  }

  lemma {:induction false} ShippedOctet(h: RtpHeader, group: seq<Media>, x: nat, i: nat)
    requires OneMissing(h, group, x, SHIPPED_EMIT_OFFSET) && i < |ShippedPayload(h, group, x)|
    ensures ShippedPayload(h, group, x)[i] == Xor(At(group[x].octets, 12 + i), Difference(ShippedLevel(h, group, x), i))
  {
    ShippedLengths(h, group, x);
    ParsedShape(h, group, x, SHIPPED_EMIT_OFFSET);
    PayloadColumn(h, group, x, SHIPPED_EMIT_OFFSET, SHIPPED_SURVIVOR_OFFSET, i);
    LevelOctet(h, group, x, i);
    LevelOctet(h, group, x, i + 2);
    hide ParsedFec, RebuiltPayload, Folded, Survivors, Column, At, Xor, Without, ShippedLevel;
    ColumnCancels(group, x, 12 + i);
    Regrouped(Column(group, 10 + i), Column(group, 12 + i), Column(Without(group, x), 12 + i));
  }

  lemma {:induction false} Regrouped(a: byte, b: byte, c: byte)
    ensures Xor(a, c) == Xor(Xor(b, c), Xor(a, b))
  {
    XorLaws(b, c, 0);
    XorLaws(a, b, 0);
    XorLaws(c, b, Xor(a, b));
    XorLaws(b, a, b);
    XorLaws(a, c, 0);
    XorLaws(b, Xor(a, b), 0);
    hide Xor;
  }

  /** Reconstruction with the shipped offsets: the lost packet's cleared header, then the payload. */
  lemma {:induction false} ShippedOctets(h: RtpHeader, group: seq<Media>, x: nat, octets: seq<byte>)
    requires OneMissing(h, group, x, SHIPPED_EMIT_OFFSET)
    requires |group[x].octets| >= MIN_PACKET && group[x].octets[0] / 64 == 2
    requires octets == Cleared(group[x].octets)[..12] + ShippedPayload(h, group, x)
    ensures ShippedRebuild(h, group, x) == Rebuilt(DecodeJpeg(octets).packet, octets)
  {
    FixedRecovery(h, group, x, SHIPPED_EMIT_OFFSET);
    ReconstructionSucceeds(h, group, x, SHIPPED_EMIT_OFFSET, SHIPPED_SURVIVOR_OFFSET);
    hide EncodeFixed, RebuiltHeader, Columns, RebuiltPayload, ParsedFec, Survivors, RawFec, Reconstruct, DecodeJpeg,
         Cleared,
         OneMissing;
  }

  predicate AllZero(s: seq<byte>)
  {
    forall i :: 0 <= i < |s| ==> s[i] == 0
  }

  lemma {:induction false} DifferenceIsZero(level: seq<byte>, i: nat)
    ensures Difference(level, i) == 0 <==> At(level, i) == At(level, i + 2)
  {
    XorLaws(At(level, i), At(level, i + 2), 0);
    XorLaws(At(level, i + 2), 0, 0);
    hide Xor, At;
  }

  lemma {:induction false} VanishesFrom(level: seq<byte>, i: nat)
    requires forall j :: 0 <= j < |level| ==> Difference(level, j) == 0
    ensures At(level, i) == 0
    decreases |level| - i
  {
    if i < |level| {
      VanishesFrom(level, i + 2);
      DifferenceIsZero(level, i);
      hide Xor, Difference;
    }
  }

  lemma {:induction false} AllZeroIff(level: seq<byte>)
    ensures (forall i :: 0 <= i < |level| ==> Difference(level, i) == 0) <==> AllZero(level)
  {
    hide Difference;
    if forall i :: 0 <= i < |level| ==> Difference(level, i) == 0 {
      forall i | 0 <= i < |level| ensures level[i] == 0 {
        VanishesFrom(level, i);
      }
    }
    forall i | 0 <= i < |level| ensures AllZero(level) ==> Difference(level, i) == 0 {
      DifferenceIsZero(level, i);
    }
  }

  /** A payload that differs from the packet's body by `Difference(level, _)`. */
  predicate DiffersBy(payload: seq<byte>, m: seq<byte>, level: seq<byte>)
  {
    |payload| == |level| && forall i :: 0 <= i < |payload| ==> payload[i] == Xor(At(m, 12 + i), Difference(level, i))
  }

  lemma {:induction false} ShippedDiffers(h: RtpHeader, group: seq<Media>, x: nat)
    requires OneMissing(h, group, x, SHIPPED_EMIT_OFFSET)
    ensures DiffersBy(ShippedPayload(h, group, x), group[x].octets, ShippedLevel(h, group, x))
  {
    ShippedLengths(h, group, x);
    hide OneMissing, ShippedPayload, ShippedLevel, Difference, Xor, At, Folded;
    forall i | 0 <= i < |ShippedPayload(h, group, x)|
      ensures ShippedPayload(h, group, x)[i] == Xor(At(group[x].octets, 12 + i), Difference(ShippedLevel(h, group, x), i))
    {
      ShippedOctet(h, group, x, i);
    }
  }

  lemma {:induction false} RightIff(a: byte, d: byte)
    ensures Xor(a, d) == a <==> d == 0
  {
    XorLaws(a, d, 0);
    XorLaws(d, a, 0);
    XorLaws(a, a, d);
    hide Xor;
  }

  /** Which prefix of the body comes out right. */
  lemma {:induction false} PrefixRightIff(payload: seq<byte>, m: seq<byte>, level: seq<byte>, n: nat)
    requires DiffersBy(payload, m, level) && n <= |payload|
    ensures (forall i :: 0 <= i < n ==> payload[i] == At(m, 12 + i)) <==> forall i :: 0 <= i < n ==> Difference(level, i) == 0
  {
    hide Difference, Xor, At;
    forall i | 0 <= i < n ensures payload[i] == At(m, 12 + i) <==> Difference(level, i) == 0 {
      RightIff(At(m, 12 + i), Difference(level, i));
    }
  }

  /** The lost packet, number and SSRC apart, and zeros up to `length`. */
  predicate RebuiltPadded(octets: seq<byte>, m: seq<byte>, length: nat)
  {
    12 <= |m| <= length && octets == Cleared(m) + Zeros(length - |m|)
  }

  /**
   * `fec_reconstruction` alone, with the shipped pair of offsets (10 when emitting, 12 when folding the survivors in):
   * its octets are the lost packet's, zero-padded, exactly when the received level payload is all zero.
   */
  lemma {:induction false} ShippedPairRebuildsIff(h: RtpHeader, group: seq<Media>, x: nat)
    requires OneMissing(h, group, x, SHIPPED_EMIT_OFFSET)
    requires |group[x].octets| >= MIN_PACKET && group[x].octets[0] / 64 == 2
    ensures ShippedRebuild(h, group, x).Rebuilt?
    ensures RebuiltPadded(ShippedRebuild(h, group, x).octets, group[x].octets, |Folded(group)|)
       <==> AllZero(ShippedLevel(h, group, x))
  {
    var m, payload, level, length := group[x].octets, ShippedPayload(h, group, x), ShippedLevel(h, group, x),
                                                                     |Folded(group)|;
    hide *;
    ShippedLengths(h, group, x);
    ShippedOctets(h, group, x, Cleared(m)[..12] + payload);
    ShippedDiffers(h, group, x);
    PrefixRightIff(payload, m, level, |payload|);
    AllZeroIff(level);
    DifferentLength(payload, m, level);
    ComparePayloads(m, Cleared(m)[..12], payload, length);
  }

  lemma {:induction false} DifferentLength(payload: seq<byte>, m: seq<byte>, level: seq<byte>)
    requires DiffersBy(payload, m, level)
    ensures |payload| == |level|
  {
  }

  lemma {:induction false} ComparePayloads(m: seq<byte>, fixed: seq<byte>, payload: seq<byte>, length: nat)
    requires MIN_PACKET <= |m| <= length && |payload| == length - 12
    requires fixed == Cleared(m)[..12]
    ensures RebuiltPadded(fixed + payload, m, length)
       <==> forall i :: 0 <= i < |payload| ==> payload[i] == At(m, 12 + i)
  {
    var padded := Cleared(m) + Zeros(length - |m|);
    assert padded == fixed + padded[12..];
    assert forall i :: 0 <= i < length - 12 ==> padded[12..][i] == At(m, 12 + i);
    if fixed + payload == padded {
      assert payload == (fixed + payload)[12..] == padded[12..];
    }
    if forall i :: 0 <= i < |payload| ==> payload[i] == At(m, 12 + i) {
      assert payload == padded[12..];
    }
  }

  /**
   * What a receiver can read off the level payload and the recovered length: up to that length, octets two apart are
   * equal, and behind it their differences do not spell FF D9.
   */
  predicate Harmless(level: seq<byte>, length: nat)
  {
    && (forall i :: 0 <= i < length ==> At(level, i) == At(level, i + 2))
    && (forall i :: length <= i < |level| - 1 ==> !(Difference(level, i) == 0xFF && Difference(level, i + 1) == 0xD9))
  }

  /** The length field the receiver recovers (and the code reads but never uses). */
  function RecoveredLength(h: RtpHeader, group: seq<Media>, x: nat): uint16
    requires OneMissing(h, group, x, SHIPPED_EMIT_OFFSET)
  {
    WordAt(Columns(h, group, x, SHIPPED_EMIT_OFFSET), 8)
  }

  predicate EndsWithMarker(m: seq<byte>)
  {
    var parse := DecodeJpeg(m);
    parse.ok && MarkerAt(parse.packet.data, |parse.packet.data| - 2)
  }

  /** The code puts the lost packet back in the buffer, sequence number and SSRC apart. */
  predicate ShippedRestores(h: RtpHeader, group: seq<Media>, x: nat)
    requires OneMissing(h, group, x, SHIPPED_EMIT_OFFSET)
  {
    var m := group[x].octets;
    && |m| >= MIN_PACKET
    && Restored(ShippedRebuild(h, group, x)) == Some(Received(ClearedPacket(DecodeJpeg(m).packet), Cleared(m)))
  }

  predicate LooksHarmless(h: RtpHeader, group: seq<Media>, x: nat)
    requires OneMissing(h, group, x, SHIPPED_EMIT_OFFSET)
  {
    Harmless(ShippedLevel(h, group, x), RecoveredLength(h, group, x))
  }

  /**
   * The code as it stands, the cut at the last FF D9 included: a lost packet that ends with the end-of-image marker
   * comes back exactly when received level payload and recovered length look harmless.
   */
  lemma {:induction false} ShippedPairRestoresIff(h: RtpHeader, group: seq<Media>, x: nat)
    requires OneMissing(h, group, x, SHIPPED_EMIT_OFFSET) && EndsWithMarker(group[x].octets)
    ensures ShippedRestores(h, group, x) <==> LooksHarmless(h, group, x)
  {
    var m, payload, level := group[x].octets, ShippedPayload(h, group, x), ShippedLevel(h, group, x);
    hide *;
    LooksFrom(h, group, x, m, level);
    ShippedSizes(h, group, x, m, payload, level);
    ShippedDiffers(h, group, x);
    ShippedRestoresFrom(h, group, x, m, Cleared(m)[..12] + payload);
    HarmlessIff(m, payload, level);
  }

  lemma {:induction false} ShippedSizes(h: RtpHeader, group: seq<Media>, x: nat, m: seq<byte>, payload: seq<byte>,
                                        level: seq<byte>)
    requires OneMissing(h, group, x, SHIPPED_EMIT_OFFSET) && m == group[x].octets && EndsWithMarker(m)
    requires payload == ShippedPayload(h, group, x) && level == ShippedLevel(h, group, x)
    ensures 12 <= MIN_PACKET <= |m| <= |level| + 10 && |payload| == |level|
  {
    ShippedLengths(h, group, x);
    hide Folded, ShippedPayload, ShippedLevel;
  }

  lemma {:induction false} LooksFrom(h: RtpHeader, group: seq<Media>, x: nat, m: seq<byte>, level: seq<byte>)
    requires OneMissing(h, group, x, SHIPPED_EMIT_OFFSET) && m == group[x].octets && level == ShippedLevel(h, group, x)
    ensures 12 == MIN_PACKET <= |m|
    ensures LooksHarmless(h, group, x) <==> Harmless(level, |m| - MIN_PACKET)
  {
    ShippedLengths(h, group, x);
    LengthIsRecovered(h, group, x);
    hide Harmless, ShippedLevel, RecoveredLength;
  }

  lemma {:induction false} EndingVersion(m: seq<byte>)
    requires EndsWithMarker(m)
    ensures |m| >= MIN_PACKET && m[0] / 64 == 2
  {
    ParsedVersion(m);
    hide DecodeJpeg;
  }

  lemma {:induction false} ShippedRestoresFrom(h: RtpHeader, group: seq<Media>, x: nat, m: seq<byte>, octets: seq<byte>)
    requires OneMissing(h, group, x, SHIPPED_EMIT_OFFSET) && m == group[x].octets && EndsWithMarker(m)
    requires MIN_PACKET <= |m| <= |octets|
    requires octets == Cleared(m)[..12] + ShippedPayload(h, group, x)
    ensures ShippedRestores(h, group, x) <==> octets[..|m|] == Cleared(m) && MarkerFree(octets[|m|..])
  {
    hide OneMissing, ShippedPayload, ShippedRebuild, Cleared, DecodeJpeg, MarkerAt, Restored, ClearedPacket, MarkerFree;
    var p := DecodeJpeg(m).packet;
    assert DecodeJpeg(m) == JpegParse(true, p);
    EndingVersion(m);
    ShippedOctets(h, group, x, octets);
    RestoredIff(p, m, octets);
  }

  lemma {:induction false} LengthIsRecovered(h: RtpHeader, group: seq<Media>, x: nat)
    requires OneMissing(h, group, x, SHIPPED_EMIT_OFFSET)
    ensures RecoveredLength(h, group, x) == |group[x].octets| - MIN_PACKET
  {
    HeaderRecovery(h, group, x, SHIPPED_EMIT_OFFSET);
    assert group[x] in group;
    hide Columns;
    WordField(Columns(h, group, x, SHIPPED_EMIT_OFFSET), |group[x].octets| - MIN_PACKET);
  }

  lemma {:induction false} WordField(c: seq<byte>, n: nat)
    requires |c| == 10 && n < 0x1_0000 && c[8..10] == Word(n % 0x1_0000)
    ensures WordAt(c, 8) == n
  {
    WordRoundTrip(n, c, 8);
  }

  lemma {:induction false} HarmlessIff(m: seq<byte>, payload: seq<byte>, level: seq<byte>)
    requires DiffersBy(payload, m, level) && MIN_PACKET <= |m| <= |level| + 10
    ensures var octets := Cleared(m)[..12] + payload;
      octets[..|m|] == Cleared(m) && MarkerFree(octets[|m|..]) <==> Harmless(level, |m| - MIN_PACKET)
  {
    var n, octets := |m| - MIN_PACKET, Cleared(m)[..12] + payload;
    PrefixRightIff(payload, m, level, n);
    forall i | 0 <= i < n ensures Difference(level, i) == 0 <==> At(level, i) == At(level, i + 2) {
      DifferenceIsZero(level, i);
    }
    BodyIff(m, payload, n);
    assert octets[|m|..] == payload[n..];
    hide DiffersBy, Difference, Cleared;
    TailIff(m, payload, level, n);
  }

  lemma {:induction false} BodyIff(m: seq<byte>, payload: seq<byte>, n: nat)
    requires |m| == 12 + n && n <= |payload|
    ensures (Cleared(m)[..12] + payload)[..|m|] == Cleared(m) <==> forall i :: 0 <= i < n ==> payload[i] == At(m, 12 + i)
  {
    var front := (Cleared(m)[..12] + payload)[..|m|];
    assert front == Cleared(m)[..12] + payload[..n] && Cleared(m) == Cleared(m)[..12] + m[12..];
    if front == Cleared(m) {
      assert payload[..n] == front[12..] == m[12..];
    }
    if forall i :: 0 <= i < n ==> payload[i] == At(m, 12 + i) {
      assert payload[..n] == m[12..];
    }
  }

  lemma {:induction false} TailIff(m: seq<byte>, payload: seq<byte>, level: seq<byte>, n: nat)
    requires DiffersBy(payload, m, level) && |m| == 12 + n && n <= |payload|
    ensures MarkerFree(payload[n..])
       <==> forall i :: n <= i < |level| - 1 ==> !(Difference(level, i) == 0xFF && Difference(level, i + 1) == 0xD9)
  {
    var tail := payload[n..];
    forall i | 0 <= i < |tail| ensures tail[i] == Difference(level, n + i) {
      XorLaws(Difference(level, n + i), 0, 0);
    }
    hide Difference, DiffersBy;
    if MarkerFree(tail) {
      forall i | n <= i < |level| - 1 ensures !(Difference(level, i) == 0xFF && Difference(level, i + 1) == 0xD9) {
        assert !MarkerAt(tail, i - n);
        assert tail[i - n] == Difference(level, n + (i - n)) && tail[i - n + 1] == Difference(level, n + (i - n + 1));
      }
    }
  }

  // ---- one group the shipped pair does not recover, and one it does ----

  const MARKER: seq<byte> := [0xFF, 0xD9]

  /** A small media packet: fixed header, JPEG header, data. */
  function Frame(number: byte, data: seq<byte>): seq<byte>
  {
    [128, 154, 0, number, 0, 0, 14, 16, 0, 0, 0, 1, 0, 0, 0, 0, 0, 0, 48, 36] + data
  }

  predicate IsPair(group: seq<Media>)
  {
    group == [Media(Frame(1, [7] + MARKER), 1), Media(Frame(2, [5] + MARKER), 2)]
  }

  predicate IsFour(group: seq<Media>)
  {
    group == [Media(Frame(1, MARKER), 1), Media(Frame(2, MARKER), 2),
              Media(Frame(3, MARKER + [1] + MARKER), 3), Media(Frame(4, MARKER + [2] + MARKER), 4)]
  }

  lemma {:induction false} FrameParses(number: byte, data: seq<byte>)
    ensures var r := DecodeJpeg(Frame(number, data)); r.ok && r.packet.data == data
  {
    var b := Frame(number, data);
    assert b[0] == 128 && b[1] == 154;
    assert b[20..] == data;
  }

  predicate ExampleHeader(h: RtpHeader)
  {
    h == INITIAL_HEADER.(payloadType := FEC_PAYLOAD_TYPE)
  }

  /** The small packets of a group, without their contents. */
  predicate SmallGroup(group: seq<Media>, n: nat, longest: nat)
  {
    |group| == n && (forall m :: m in group ==> 22 <= |m.octets| <= longest) && exists m :: m in group && |m.octets| == longest
  }

  lemma {:induction false} SmallGroupSent(h: RtpHeader, group: seq<Media>, n: nat, longest: nat)
    requires ExampleHeader(h) && SmallGroup(group, n, longest) && 2 <= n <= 4 && longest <= 25
    ensures OneMissing(h, group, 0, SHIPPED_EMIT_OFFSET) && |Folded(group)| == longest + 2
  {
    FoldedLength(group);
    hide Folded;
  }

  lemma {:induction false} FrameLength(number: byte, data: seq<byte>)
    ensures |Frame(number, data)| == 20 + |data|
    ensures forall j :: 10 <= j < 20 ==> Frame(number, data)[j] == Frame(1, [])[j]
    ensures forall j :: 20 <= j < 20 + |data| ==> Frame(number, data)[j] == data[j - 20]
  {
  }

  lemma {:induction false} TwoColumns(ms: seq<Media>, j: nat)
    requires |ms| == 2
    ensures Column(ms, j) == Xor(At(ms[0].octets, j), At(ms[1].octets, j))
  {
    var ss := OctetsOf(ms);
    var one: seq<seq<byte>> := ss[..1];
    assert one[..0] == [] && one[0] == ms[0].octets;
    XorLaws(At(ms[0].octets, j), 0, 0);
    hide Xor, At;
    assert ParityAt(one, j) == Xor(0, At(ms[0].octets, j));
  }

  lemma {:induction false} FourColumns(ms: seq<Media>, j: nat)
    requires |ms| == 4
    ensures Column(ms, j) == Xor(Xor(Xor(At(ms[0].octets, j), At(ms[1].octets, j)), At(ms[2].octets, j)), At(ms[3].octets, j))
  {
    hide Xor, At;
    TwoColumns(ms[..2], j);
    assert OctetsOf(ms[..2]) == OctetsOf(ms)[..2] && OctetsOf(ms)[..3][..2] == OctetsOf(ms)[..2];
    assert ParityAt(OctetsOf(ms)[..3], j) == Xor(Column(ms[..2], j), At(ms[2].octets, j));
  }

  lemma {:induction false} PairColumns(group: seq<Media>)
    requires IsPair(group)
    ensures SmallGroup(group, 2, 23) && group[0].octets == Frame(1, [7] + MARKER)
    ensures Column(group, 18) == 0 && Column(group, 20) == 2
  {
    FrameLength(1, [7] + MARKER);
    FrameLength(2, [5] + MARKER);
    assert Frame(1, [])[18] == 48;
    hide Frame, Column;
    assert group[0] in group && |group[0].octets| == 23;
    TwoColumns(group, 18);
    TwoColumns(group, 20);
    XorLaws(48, 48, 0);
    assert XorNat(7, 5) == 2;
  }

  /** Two frames that differ in one octet of JPEG data: losing the first, the code puts something else in the buffer. */
  lemma {:induction false} ShippedPairLosesPayload(h: RtpHeader, group: seq<Media>)
    requires ExampleHeader(h) && IsPair(group)
    ensures OneMissing(h, group, 0, SHIPPED_EMIT_OFFSET) && EndsWithMarker(group[0].octets)
    ensures !ShippedRestores(h, group, 0)
  {
    PairColumns(group);
    FrameEnds(1, [7]);
    SmallGroupSent(h, group, 2, 23);
    LengthIsRecovered(h, group, 0);
    hide *;
    LevelOctet(h, group, 0, 8);
    LevelOctet(h, group, 0, 10);
    ShippedPairRestoresIff(h, group, 0);
    UnequalIsHarmful(h, group, 0, 8);
  }

  lemma {:induction false} UnequalIsHarmful(h: RtpHeader, group: seq<Media>, x: nat, i: nat)
    requires OneMissing(h, group, x, SHIPPED_EMIT_OFFSET) && i < RecoveredLength(h, group, x)
    requires At(ShippedLevel(h, group, x), i) != At(ShippedLevel(h, group, x), i + 2)
    ensures !LooksHarmless(h, group, x)
  {
    hide ShippedLevel, RecoveredLength, At;
  }

  lemma {:induction false} FrameEnds(number: byte, data: seq<byte>)
    ensures EndsWithMarker(Frame(number, data + MARKER)) && |Frame(number, data + MARKER)| == 22 + |data|
  {
    FrameParses(number, data + MARKER);
    FrameLength(number, data + MARKER);
    hide DecodeJpeg, Frame;
  }

  lemma {:induction false} PairsVanish(a: byte, b: byte)
    ensures Xor(Xor(Xor(a, a), b), b) == 0
  {
    XorLaws(a, a, 0);
    XorLaws(b, b, 0);
    hide Xor;
  }

  lemma {:induction false} FourOctets(group: seq<Media>, j: nat)
    requires IsFour(group) && 10 <= j
    ensures SmallGroup(group, 4, 25) && group[0].octets == Frame(1, MARKER)
    ensures At(group[0].octets, j) == At(group[1].octets, j)
    ensures if j == 22 then At(group[0].octets, j) == 0 && At(group[2].octets, j) == 1 && At(group[3].octets, j) == 2
            else At(group[2].octets, j) == At(group[3].octets, j)
  {
    FrameLength(1, MARKER);
    FrameLength(2, MARKER);
    FrameLength(3, MARKER + [1] + MARKER);
    FrameLength(4, MARKER + [2] + MARKER);
    hide Frame;
    assert group[2] in group && |group[2].octets| == 25;
  }

  /** Octet `j` of the four frames' parity, from 10 on. */
  lemma {:induction false} FourColumn(group: seq<Media>, j: nat)
    requires IsFour(group) && 10 <= j
    ensures Column(group, j) == if j == 22 then 3 else 0
  {
    FourOctets(group, j);
    FourColumns(group, j);
    if j == 22 {
      hide At, Column, IsFour, SmallGroup;
      XorLaws(0, 0, 0);
      XorLaws(1, 0, 0);
      assert XorNat(1, 2) == 3;
    } else {
      hide Xor, At, Column, IsFour, SmallGroup;
      PairsVanish(At(group[0].octets, j), At(group[2].octets, j));
    }
  }

  /** Four frames whose level payload is not zero, and yet losing the first is repaired: the cut hides the damage. */
  lemma {:induction false} ShippedPairMayRestore(h: RtpHeader, group: seq<Media>)
    requires ExampleHeader(h) && IsFour(group)
    ensures OneMissing(h, group, 0, SHIPPED_EMIT_OFFSET) && EndsWithMarker(group[0].octets)
    ensures !AllZero(ShippedLevel(h, group, 0)) && ShippedRestores(h, group, 0)
  {
    FourOctets(group, 22);
    assert [] + MARKER == MARKER;
    FrameEnds(1, []);
    SmallGroupSent(h, group, 4, 25);
    LengthIsRecovered(h, group, 0);
    hide *;
    FourLevel(h, group);
    OneOddOctetIsHarmless(ShippedLevel(h, group, 0));
    ShippedPairRestoresIff(h, group, 0);
    LooksFrom(h, group, 0, group[0].octets, ShippedLevel(h, group, 0));
  }

  lemma {:induction false} FourLevel(h: RtpHeader, group: seq<Media>)
    requires IsFour(group) && OneMissing(h, group, 0, SHIPPED_EMIT_OFFSET) && |Folded(group)| == 27
    ensures OneOddOctet(ShippedLevel(h, group, 0))
  {
    hide OneMissing, ShippedLevel, Folded, IsFour, Column, At;
    ShippedLengths(h, group, 0);
    forall i: nat ensures At(ShippedLevel(h, group, 0), i) == if i == 12 then 3 else 0 {
      LevelOctet(h, group, 0, i);
      FourColumn(group, 10 + i);
    }
  }

  ghost predicate OneOddOctet(level: seq<byte>)
  {
    |level| == 15 && forall i: nat :: At(level, i) == if i == 12 then 3 else 0
  }

  lemma {:induction false} OneOddOctetIsHarmless(level: seq<byte>)
    requires OneOddOctet(level)
    ensures Harmless(level, 10) && !AllZero(level)
  {
    assert level[12] == At(level, 12);
    XorLaws(3, 0, 0);
    XorLaws(0, 0, 0);
    hide Xor;
  }
}
