/** The sending side: consecutive numbering, one parity packet every k frames, and what each parity packet covers. */
module Sending {
  import opened Wrappers
  import opened Octets
  import opened Parity
  import opened RtpPacket
  import opened FecGeneration
  import opened FecRecovery
  import opened RecoveryTheorems
  import opened EndToEnd
  import FecWire

  // ---- which numbers a parity packet names ----

  predicate Consecutive(ms: seq<Media>, first: uint16)
  {
    forall i :: 0 <= i < |ms| ==> ms[i].number == (first + i) % 0x1_0000
  }

  /** The base is the first number, unless that is 0 (it reads as "unset") or the numbers wrap inside the group. */
  lemma {:induction false} BaseOfConsecutive(ms: seq<Media>, first: uint16)
    requires Consecutive(ms, first) && 0 < |ms| <= MAX_MASK_BITS
    ensures |ms| == 1 || (first >= 1 && first + |ms| <= 0x1_0000) ==> GroupBase(ms) == first
    ensures |ms| > 1 && first == 0 ==> GroupBase(ms) == 1
    ensures first + |ms| > 0x1_0000 ==> GroupBase(ms) <= 1
  {
    var n := |ms| - 1;
    if n == 0 {
      assert GroupBase(ms[..0]) == 0;
    } else {
      BaseOfConsecutive(ms[..n], first);
    }
  }

  /** The numbers a receiver reads out of base and mask: no wraparound there either. */
  predicate Names(base: uint16, k: nat, number: int)
  {
    base <= number && FecWire.MaskNames(WireMask(k) + seq(8 - |WireMask(k)|, _ => 0), number - base)
  }

  lemma {:induction false} NamesRange(base: uint16, k: nat, number: int)
    requires k <= MAX_MASK_BITS
    ensures Names(base, k, number) <==> base <= number < base + k
  {
    if base <= number {
      FecWire.WireMaskNames(k, number - base);
    }
  }

  predicate Carries(ms: seq<Media>, number: int)
  {
    exists i :: 0 <= i < |ms| && ms[i].number == number
  }

  /** A parity packet names exactly its group's numbers iff the group starts at 1 or above and does not wrap. */
  lemma {:induction false} CoverageIff(ms: seq<Media>, first: uint16)
    requires Consecutive(ms, first) && 0 < |ms| <= MAX_MASK_BITS
    ensures (forall n: int :: Names(GroupBase(ms), |ms|, n) <==> Carries(ms, n))
       <==> |ms| == 1 || (first >= 1 && first + |ms| <= 0x1_0000)
  {
    hide *;
    BaseOfConsecutive(ms, first);
    if |ms| == 1 || (first >= 1 && first + |ms| <= 0x1_0000) {
      forall n: int ensures Names(GroupBase(ms), |ms|, n) <==> Carries(ms, n) {
        NamesRange(GroupBase(ms), |ms|, n);
        CarriesRange(ms, first, n);
      }
    } else {
      FirstUnnamed(ms, first);
    }
  }

  lemma {:induction false} CarriesRange(ms: seq<Media>, first: uint16, n: int)
    requires Consecutive(ms, first) && first + |ms| <= 0x1_0000
    ensures Carries(ms, n) <==> first <= n < first + |ms|
  {
    if first <= n < first + |ms| {
      assert ms[n - first].number == n;
    }
  }

  lemma {:induction false} FirstUnnamed(ms: seq<Media>, first: uint16)
    requires Consecutive(ms, first) && 1 < |ms| <= MAX_MASK_BITS
    requires first == 0 || first + |ms| > 0x1_0000
    ensures Carries(ms, first) && !Names(GroupBase(ms), |ms|, first)
  {
    BaseOfConsecutive(ms, first);
    NamesRange(GroupBase(ms), |ms|, first);
    assert ms[0].number == first;
    hide Names, GroupBase;
  }

  // ---- cadence and coverage over a run ----

  /** What a receiver reads out of a FEC packet's base and mask fields: whether it protects `number`. */
  predicate NamedIn(octets: seq<byte>, number: int)
  {
    var size := if octets != [] && octets[0] / 64 % 2 == 1 then 6 else 2;
    && |octets| >= 12 + size && WordAt(octets, 2) <= number
    && FecWire.MaskNames(octets[12..12 + size] + seq(8 - size, _ => 0), number - WordAt(octets, 2))
  }

  lemma {:induction false} EmissionNames(group: seq<Media>, k: nat, offset: nat, number: int)
    requires AllMedia(group) && group != [] && 1 <= k <= MAX_MASK_BITS && offset <= MIN_PACKET
    ensures NamedIn(FecPacketOf(group, k, offset), number) <==> Names(GroupBase(group), k, number)
  {
    FecWire.FecPacketParts(group, k, offset);
    hide FecPacketOf, Folded, GroupBase, NamedIn, Names, FecWire.FecHeaderOctets, FecWire.LevelOctets;
    PartsName(Folded(group), GroupBase(group), k, offset, number);
  }

  lemma {:induction false} PartsName(bits: seq<byte>, base: uint16, k: nat, offset: nat, number: int)
    requires |bits| >= MIN_PACKET + 2 && 1 <= k <= MAX_MASK_BITS && offset <= MIN_PACKET
    ensures NamedIn(FecWire.FecHeaderOctets(bits, base, k) + FecWire.LevelOctets(bits, k, offset), number)
       <==> Names(base, k, number)
  {
    FecWire.FecHeaderReads(bits, base, k);
    FecWire.LongMaskBit(bits[0], k);
    var head, mask := FecWire.FecHeaderOctets(bits, base, k), WireMask(k);
    assert |mask| == if k > 16 then 6 else 2;
    var length, payload := Word((|bits| - 2 - offset) % 0x1_0000), bits[offset + 2..];
    assert FecWire.LevelOctets(bits, k, offset) == length + mask + payload;
    assert head[0] / 64 % 2 == 1 <==> k > 16;
    hide FecWire.FecHeaderOctets, FecWire.LevelOctets, WireMask, FecWire.MaskNames, NamedIn, WordAt, Word;
    OctetsName(head, length, mask, payload, number);
  }

  lemma {:induction false} OctetsName(head: seq<byte>, length: seq<byte>, mask: seq<byte>, payload: seq<byte>,
                                      number: int)
    requires |head| == 10 && |length| == 2 && |mask| == if head[0] / 64 % 2 == 1 then 6 else 2
    ensures NamedIn(head + (length + mask + payload), number)
       <==> WordAt(head, 2) <= number && FecWire.MaskNames(mask + seq(8 - |mask|, _ => 0), number - WordAt(head, 2))
  {
    var o := head + (length + mask + payload);
    assert o[0] == head[0] && o[2] == head[2] && o[3] == head[3];
    assert o[12..12 + |mask|] == mask;
    hide FecWire.MaskNames;
  }

  /**
   * Call n of a generator emits iff k divides n. Base and mask of what it then emits name exactly the numbers of the
   * last k packets iff these are one packet, or start at 1 or above and do not wrap.
   */
  lemma {:induction false} CadenceAndCoverage(fed: seq<Media>, first: uint16, k: nat, offset: nat, n: nat)
    requires AllMedia(fed) && Consecutive(fed, first)
    requires 1 <= k <= MAX_MASK_BITS && offset <= MIN_PACKET && 0 < n <= |fed|
    ensures Expected(fed[..n], k, offset) == Nothing || Expected(fed[..n], k, offset).Emitted?
    ensures Expected(fed[..n], k, offset).Emitted? <==> n % k == 0
    ensures n % k == 0 ==> n >= k
    ensures n % k == 0 ==>
      ((forall x: int :: NamedIn(Expected(fed[..n], k, offset).octets, x) <==> Carries(fed[n - k..n], x))
       <==> k == 1 || (fed[n - k].number >= 1 && fed[n - k].number + k <= 0x1_0000))
  {
    hide FecPacketOf, NamedIn, Carries, Names, GroupBase;
    assert Phase(n, Period(k)) == n % k;
    if n % k == 0 {
      EmittedGroup(fed, k, offset, n);
      var group := fed[n - k..n];
      GroupIsConsecutive(fed, first, n - k, k);
      forall x: int ensures NamedIn(FecPacketOf(group, k, offset), x) <==> Names(GroupBase(group), k, x) {
        EmissionNames(group, k, offset, x);
      }
      CoverageIff(group, fed[n - k].number);
    }
  }

  lemma {:induction false} GroupIsConsecutive(fed: seq<Media>, first: uint16, at: nat, k: nat)
    requires Consecutive(fed, first) && at + k <= |fed| && k > 0
    ensures Consecutive(fed[at..at + k], fed[at].number)
  {
    var group := fed[at..at + k];
    forall i | 0 <= i < |group| ensures group[i].number == (fed[at].number + i) % 0x1_0000 {
      assert fed[at + i].number == (first + (at + i)) % 0x1_0000;
    }
  }

  /** Call n emits the parity packet of the packets n - k to n. */
  lemma {:induction false} EmittedGroup(fed: seq<Media>, k: nat, offset: nat, n: nat)
    requires AllMedia(fed) && 1 <= k <= MAX_MASK_BITS && offset <= MIN_PACKET && 0 < n <= |fed| && n % k == 0
    ensures n >= k && AllMedia(fed[n - k..n])
    ensures Expected(fed[..n], k, offset) == Emitted(FecPacketOf(fed[n - k..n], k, offset))
  {
    assert Phase(n, Period(k)) == n % k;
    hide FecPacketOf, Expected;
    ExpectedEmission(fed[..n], k, offset);
    assert LastGroup(fed[..n], k) == fed[n - k..n];
  }

  /** Call n emits, for a group that packet i belongs to. */
  predicate Protects(fed: seq<Media>, k: nat, offset: nat, n: nat, i: nat)
    requires AllMedia(fed) && offset <= MIN_PACKET
  {
    k <= n <= |fed| && n > 0 && Expected(fed[..n], k, offset).Emitted? && n - k <= i < n
  }

  /** Every packet below the last multiple of k is protected by one call of the run, and by one only; no other is. */
  lemma {:induction false} ProtectedExactlyOnce(fed: seq<Media>, k: nat, offset: nat, i: nat)
    requires AllMedia(fed) && 1 <= k <= MAX_MASK_BITS && offset <= MIN_PACKET && i < |fed|
    ensures (exists n: nat :: Protects(fed, k, offset, n, i)) <==> i < |fed| - |fed| % k
    ensures forall m: nat, n: nat :: Protects(fed, k, offset, m, i) && Protects(fed, k, offset, n, i) ==> m == n
  {
    var last := (i / k + 1) * k;
    forall n: nat ensures Protects(fed, k, offset, n, i) <==> n == last && last <= |fed| {
      OneProtector(fed, k, offset, i, n);
    }
    BelowLastMultiple(|fed|, k, i);
    assert last <= |fed| ==> Protects(fed, k, offset, last, i);
    hide Protects;
  }

  lemma {:induction false} OneProtector(fed: seq<Media>, k: nat, offset: nat, i: nat, n: nat)
    requires AllMedia(fed) && 1 <= k <= MAX_MASK_BITS && offset <= MIN_PACKET && i < |fed|
    ensures Protects(fed, k, offset, n, i) <==> n == (i / k + 1) * k && (i / k + 1) * k <= |fed|
  {
    var last := (i / k + 1) * k;
    MultipleOf(i / k + 1, k);
    hide FecPacketOf;
    if 0 < n <= |fed| {
      assert Phase(n, Period(k)) == n % k;
      if n % k == 0 {
        MultipleInRange(i, n, k);
      }
    }
  }

  lemma {:induction false} MultipleOf(q: nat, k: nat)
    requires k > 0 && q > 0
    ensures q * k >= k && (q * k) % k == 0
  {
    Multiples(1, q, k);
    RemainderUnique(q * k, k, q, 0);
  }

  lemma {:induction false} BelowLastMultiple(size: nat, k: nat, i: nat)
    requires k > 0
    ensures (i / k + 1) * k <= size <==> i < size - size % k
  {
    assert size == (size / k) * k + size % k by {
      assert size == k * (size / k) + size % k;
    }
    assert i == (i / k) * k + i % k by {
      assert i == k * (i / k) + i % k;
    }
    BelowIff(size / k, i / k, i % k, size % k, k);
  }

  lemma {:induction false} BelowIff(q: nat, j: nat, r: nat, s: nat, k: nat)
    requires r < k && s < k
    ensures (j + 1) * k <= q * k + s <==> j * k + r < q * k
  {
    Multiples(j + 1, q, k);
    Multiples(q, j, k);
    Multiples(q + 1, j + 1, k);
    Multiples(j, q, k);
  }

  /** Among the multiples of k only one has i among the k numbers below it. */
  lemma {:induction false} MultipleInRange(i: nat, n: nat, k: nat)
    requires k > 0 && n > 0 && n % k == 0
    ensures n >= k
    ensures n - k <= i < n <==> n == (i / k + 1) * k
  {
    var q, j, r := n / k, i / k, i % k;
    assert n == q * k by {
      assert n == k * q + n % k;
    }
    assert i == j * k + r by {
      assert i == k * j + r;
    }
    assert q * k == 0 || q >= 1;
    Tile(q, j, r, k);
  }

  lemma {:induction false} Tile(q: nat, j: nat, r: nat, k: nat)
    requires q >= 1 && r < k
    ensures q * k >= k
    ensures q * k - k <= j * k + r < q * k <==> q * k == (j + 1) * k
  {
    Multiples(1, q, k);
    Multiples(q, j, k);
    Multiples(j, j + 1, k);
    Multiples(j + 2, q, k);
    Multiples(j + 1, j + 2, k);
  }

  lemma {:induction false} Multiples(a: nat, b: nat, k: nat)
    ensures a <= b ==> a * k <= b * k
    ensures (a + 1) * k == a * k + k
  {
    if a <= b {
      assert (b - a) * k == b * k - a * k;
    }
  }

  // ---- the sender ----

  const FRAME_PERIOD := 40
  const IMAGE_WIDTH := 384 / 8
  const IMAGE_HEIGHT := 288 / 8

  /** The media packet of one frame; the timestamp is recomputed from the sequence number. */
  function FramePacket(number: uint16, ssrc: uint32, frame: seq<byte>): JpegPacket
  {
    INITIAL_JPEG.(
      header := INITIAL_HEADER.(payloadType := JPEG_PAYLOAD_TYPE, ssrc := ssrc, marker := true, sequenceNumber := number,
                               timestamp := number * FRAME_PERIOD * 90),
      imageWidth := IMAGE_WIDTH, imageHeight := IMAGE_HEIGHT, data := frame)
  }

  function FecRtpHeader(number: uint16, ssrc: uint32, timestamp: uint32): RtpHeader
  {
    INITIAL_HEADER.(sequenceNumber := number, ssrc := ssrc, payloadType := FEC_PAYLOAD_TYPE, timestamp := timestamp)
  }

  function FrameMedia(number: uint16, ssrc: uint32, frame: seq<byte>): Media
  {
    Media(EncodeJpeg(FramePacket(number, ssrc, frame)), number)
  }

  /** `fed` is what a sender that started at `first` makes of `frames`. */
  predicate StreamOf(fed: seq<Media>, first: uint16, ssrc: uint32, frames: seq<seq<byte>>)
  {
    && |fed| == |frames|
    && forall i :: 0 <= i < |fed| ==> fed[i] == FrameMedia((first + i) % 0x1_0000, ssrc, frames[i])
  }

  lemma {:induction false} StreamSnoc(fed: seq<Media>, first: uint16, ssrc: uint32, frames: seq<seq<byte>>,
                                      frame: seq<byte>)
    requires StreamOf(fed, first, ssrc, frames)
    ensures StreamOf(fed + [FrameMedia((first + |frames|) % 0x1_0000, ssrc, frame)], first, ssrc, frames + [frame])
    ensures ((first + |frames|) % 0x1_0000 + 1) % 0x1_0000 == (first + |frames| + 1) % 0x1_0000
  {
    hide FrameMedia;
  }

  /** A sender's stream is numbered consecutively and long enough for the generator. */
  lemma {:induction false} StreamIsConsecutive(fed: seq<Media>, first: uint16, ssrc: uint32, frames: seq<seq<byte>>)
    requires StreamOf(fed, first, ssrc, frames)
    ensures AllMedia(fed) && Consecutive(fed, first)
  {
    hide EncodeJpeg;
    forall i | 0 <= i < |fed| ensures |fed[i].octets| >= MIN_PACKET && fed[i].number == (first + i) % 0x1_0000 {
      FrameIsExpressible((first + i) % 0x1_0000, ssrc, frames[i]);
    }
  }

  lemma {:induction false} FrameIsExpressible(number: uint16, ssrc: uint32, frame: seq<byte>)
    ensures Expressible(FramePacket(number, ssrc, frame))
    ensures |EncodeJpeg(FramePacket(number, ssrc, frame))| == 20 + |frame|
  {
    HeaderLength(FramePacket(number, ssrc, frame).header);
  }

  /**
   * Every octet of a frame's packet: version 2 without padding, extension or sources, marker and payload type 26, the
   * number, 3600 ticks of the clock per number, the SSRC, six octets of zeros, width 48 and height 36 in units of eight,
   * and the frame.
   */
  lemma {:induction false} FrameOnWire(number: uint16, ssrc: uint32, frame: seq<byte>)
    ensures var o := EncodeJpeg(FramePacket(number, ssrc, frame));
      && |o| == 20 + |frame|
      && o[0] == 0x80 && o[1] == 0x9A
      && 256 * (o[2] as int) + o[3] == number
      && 16777216 * (o[4] as int) + 65536 * (o[5] as int) + 256 * (o[6] as int) + o[7] == number * 3600
      && 16777216 * (o[8] as int) + 65536 * (o[9] as int) + 256 * (o[10] as int) + o[11] == ssrc
      && o[12..20] == [0, 0, 0, 0, 0, 0, 48, 36]
      && o[20..] == frame
  {
    var p := FramePacket(number, ssrc, frame);
    var o, head := EncodeJpeg(p), EncodeHeader(p.header);
    FrameIsExpressible(number, ssrc, frame);
    JpegOnWire(p);
    HeaderOnWire(p.header);
    hide EncodeJpeg, EncodeHeader, Expressible, WordAt, DwordAt;
    SameStart(o, head);
    BigEndian(o, 2);
    BigEndian(o, 4);
    BigEndian(o, 8);
    NullSum(o[13], o[14], o[15]);
    assert o[12..20] == [o[12], o[13], o[14], o[15], o[16], o[17], o[18], o[19]];
  }

  lemma {:induction false} SameStart(o: seq<byte>, head: seq<byte>)
    requires |o| >= 12 == |head| && o[..12] == head
    ensures o[0] == head[0] && o[1] == head[1]
    ensures WordAt(o, 2) == WordAt(head, 2) && DwordAt(o, 4) == DwordAt(head, 4) && DwordAt(o, 8) == DwordAt(head, 8)
  {
    assert forall i :: 0 <= i < 12 ==> o[i] == o[..12][i];
  }

  lemma {:induction false} NullSum(a: byte, b: byte, c: byte)
    requires 65536 * (a as int) + 256 * (b as int) + c == 0
    ensures a == 0 && b == 0 && c == 0
  {
  }

  /** The twelve octets in front of a parity packet: no marker, payload type 100. */
  lemma {:induction false} ParityHeaderOnWire(number: uint16, ssrc: uint32, timestamp: uint32)
    ensures var o := EncodeHeader(FecRtpHeader(number, ssrc, timestamp));
      && |o| == 12 && o[0] == 0x80 && o[1] == 0x64
      && WordAt(o, 2) == number && DwordAt(o, 4) == timestamp && DwordAt(o, 8) == ssrc
  {
    HeaderOnWire(FecRtpHeader(number, ssrc, timestamp));
    hide EncodeHeader, WordAt, DwordAt;
  }

  /** What one timer tick put on the socket, or that the handler was left by an exception. */
  datatype Sent = Sent(media: Option<seq<byte>>, fec: Option<seq<byte>>, threw: bool)

  class Sender {
    const ssrc: uint32
    var generator: FecGenerator?
    var currentSequenceNumber: uint16
    var currentFecSequenceNumber: uint16
    /** Whether the timer will call the handler again. */
    var armed: bool
    ghost var first: uint16
    ghost var frames: seq<seq<byte>>
    ghost var Repr: set<object>

    ghost predicate Valid()
      reads this, Repr
    {
      && this in Repr
      && (generator != null ==> generator in Repr && generator.Valid())
      && (armed ==>
            && currentSequenceNumber == (first + |frames|) % 0x1_0000
            && (generator != null ==> StreamOf(generator.fed, first, ssrc, frames)))
    }

    constructor (ssrc: uint32, sequenceNumber: uint16, fecSequenceNumber: uint16, fecK: uint16, payloadOffset: nat,
                 withFec: bool)
      requires payloadOffset <= MIN_PACKET
      ensures Valid() && fresh(Repr) && armed && frames == [] && first == sequenceNumber
      ensures this.ssrc == ssrc && currentFecSequenceNumber == fecSequenceNumber
      ensures withFec <==> generator != null
      ensures withFec ==> generator.fecK == fecK && generator.payloadOffset == payloadOffset
    {
      hide FrameMedia, EncodeJpeg, Reflects;
      this.ssrc := ssrc;
      currentSequenceNumber := sequenceNumber;
      currentFecSequenceNumber := fecSequenceNumber;
      armed := true;
      first := sequenceNumber;
      frames := [];
      if withFec {
        var g := new FecGenerator(fecK, payloadOffset);
        generator := g;
        Repr := {this, g};
      } else {
        generator := null;
        Repr := {this};
      }
    }

    /**
     * `send_next_packet_handler`. `frame` is None when the file gives no further frame; the two flags are the
     * simulated channel's verdicts. The FEC sequence number moves only when a parity packet is really sent.
     */
    method SendNext(frame: Option<seq<byte>>, dropMedia: bool, dropFec: bool) returns (r: Sent)
      requires Valid() && armed
      modifies Repr
      ensures Valid() && Repr == old(Repr) && generator == old(generator) && first == old(first)
      ensures frame.None? ==> r == Sent(None, None, false) && !armed && frames == old(frames)
      ensures frame.Some? ==> armed == !r.threw && frames == old(frames) + [frame.value]
      ensures frame.Some? ==> r.media == if dropMedia then None
        else Some(FrameMedia(old(currentSequenceNumber), ssrc, frame.value).octets)
      ensures frame.Some? && generator == null ==> r.fec == None && !r.threw
      ensures frame.Some? && generator != null ==>
        var fed, k, offset := generator.fed, generator.fecK, generator.payloadOffset;
        && StreamOf(fed, first, ssrc, frames) && AllMedia(fed) && offset <= MIN_PACKET
        && (r.threw <==> Expected(fed, k, offset) == OutOfRange)
        && (r.fec.Some? <==> Expected(fed, k, offset).Emitted? && !dropFec)
        && (r.fec.Some? ==>
              var header := FecRtpHeader(old(currentFecSequenceNumber), ssrc,
                                         old(currentSequenceNumber) * FRAME_PERIOD * 90);
              r.fec.value == EncodeHeader(header) + Expected(fed, k, offset).octets)
      ensures currentFecSequenceNumber
           == if r.fec.Some? then (old(currentFecSequenceNumber) + 1) % 0x1_0000 else old(currentFecSequenceNumber)
    {
      hide Reflects, Expected, EncodeJpeg, EncodeHeader, FecPacketOf, StreamOf, AllMedia;
      if frame.None? {
        armed := false;
        return Sent(None, None, false);
      }
      var number := currentSequenceNumber;
      var packet := FramePacket(number, ssrc, frame.value);
      FrameIsExpressible(number, ssrc, frame.value);
      var ok, buffer := GenerateJpeg(packet);
      var media := if dropMedia then None else Some(buffer);
      var fec := None;
      frames := frames + [frame.value];
      if generator != null {
        StreamSnoc(generator.fed, first, ssrc, old(frames), frame.value);
        var emission := generator.Generate(buffer, number);
        if emission == OutOfRange {
          armed := false;
          return Sent(media, None, true);
        }
        if emission.Emitted? && !dropFec {
          var header := FecRtpHeader(currentFecSequenceNumber, ssrc, packet.header.timestamp);
          currentFecSequenceNumber := (currentFecSequenceNumber + 1) % 0x1_0000;
          var generated, fullFecPacket := GenerateHeader(header);
          fec := Some(fullFecPacket + emission.octets);
        }
      }
      currentSequenceNumber := (currentSequenceNumber + 1) % 0x1_0000;
      return Sent(media, fec, false);
    }
  }

  // ---- a sender-made group survives any single loss ----

  predicate SendableFrames(frames: seq<seq<byte>>)
  {
    forall i :: 0 <= i < |frames| ==> |frames[i]| + 20 <= 0xFFFF && MarkerAt(frames[i], |frames[i]| - 2)
  }

  lemma {:induction false} GroupOctets(fed: seq<Media>, first: uint16, ssrc: uint32, frames: seq<seq<byte>>,
                                       at: nat, k: nat)
    requires StreamOf(fed, first, ssrc, frames) && SendableFrames(frames) && at + k <= |fed|
    ensures forall m :: m in fed[at..at + k] ==> MIN_PACKET <= |m.octets| <= 0xFFFF
  {
    hide EncodeJpeg, MarkerAt;
    forall m | m in fed[at..at + k] ensures MIN_PACKET <= |m.octets| <= 0xFFFF {
      var i :| at <= i < at + k && fed[i] == m;
      FrameIsExpressible((first + i) % 0x1_0000, ssrc, frames[i]);
    }
  }

  lemma {:induction false} SentGroupIsLost(h: RtpHeader, group: seq<Media>, x: nat, emitOffset: nat, number: uint16,
                                           ssrc: uint32, timestamp: uint32)
    requires h == FecRtpHeader(number, ssrc, timestamp)
    requires 2 <= |group| <= MAX_MASK_BITS && x < |group| && emitOffset <= MIN_PACKET
    requires forall m :: m in group ==> MIN_PACKET <= |m.octets| <= 0xFFFF
    ensures OneMissing(h, group, x, emitOffset)
  {
    FoldedLength(group);
    hide Folded;
  }

  /** The packet made of frame `i`. */
  function PacketAt(first: uint16, ssrc: uint32, frames: seq<seq<byte>>, i: nat): JpegPacket
    requires i < |frames|
  {
    FramePacket((first + i) % 0x1_0000, ssrc, frames[i])
  }

  lemma {:induction false} SentFrame(fed: seq<Media>, first: uint16, ssrc: uint32, frames: seq<seq<byte>>, i: nat)
    requires StreamOf(fed, first, ssrc, frames) && SendableFrames(frames) && i < |fed|
    ensures |frames| == |fed|
    ensures var p := PacketAt(first, ssrc, frames, i);
      DecodeJpeg(fed[i].octets) == JpegParse(true, p) && MarkerAt(p.data, |p.data| - 2)
  {
    hide EncodeJpeg, DecodeJpeg, MarkerAt, Expressible;
    FrameIsExpressible((first + i) % 0x1_0000, ssrc, frames[i]);
    assert fed[i] == FrameMedia((first + i) % 0x1_0000, ssrc, frames[i]);
    ParseAfterGenerate(FramePacket((first + i) % 0x1_0000, ssrc, frames[i]));
  }

  /** Any one frame of any k consecutive ones comes back from the other k - 1 and the parity packet. */
  lemma {:induction false} SenderGroupRecovers(
    fed: seq<Media>, first: uint16, ssrc: uint32, frames: seq<seq<byte>>, at: nat, k: nat, x: nat,
    fecNumber: uint16, timestamp: uint32)
    requires StreamOf(fed, first, ssrc, frames) && SendableFrames(frames)
    requires 2 <= k <= MAX_MASK_BITS && x < k && at + k <= |fed|
    ensures |fed[at + x].octets| >= MIN_PACKET
    ensures RestoredAs(FecRtpHeader(fecNumber, ssrc, timestamp), fed[at..at + k], x,
                       Received(ClearedPacket(PacketAt(first, ssrc, frames, at + x)), Cleared(fed[at + x].octets)))
  {
    hide OneMissing, DecodeJpeg, RestoredAs, Cleared, MarkerAt, PacketAt, FecRtpHeader, StreamOf, SendableFrames,
         ClearedPacket;
    var h, group := FecRtpHeader(fecNumber, ssrc, timestamp), fed[at..at + k];
    GroupOctets(fed, first, ssrc, frames, at, k);
    SentGroupIsLost(h, group, x, RFC_OFFSET, fecNumber, ssrc, timestamp);
    SentFrame(fed, first, ssrc, frames, at + x);
    assert group[x] == fed[at + x];
    EndToEndRecovery(h, group, x, PacketAt(first, ssrc, frames, at + x));
  }
}
