/** `unicast_jpeg_rtp_receiver`: the de-jitter buffer, its recovery point, and what is conserved over every run. */
module Receiving {
  import opened Wrappers
  import opened Octets
  import opened Parity
  import opened RtpPacket
  import opened FecGeneration
  import opened FecRecovery
  import opened RecoveryTheorems
  import opened EndToEnd
  import opened GroupSelection
  import opened SequenceTracking
  import FecWire
  import Sending

  // ---- a buffered group repairs its own gap ----

  /** Group members in buffer order up to `n`, without the missing one. */
  function WithoutUpTo(group: seq<Media>, missing: nat, n: nat): seq<Media>
    requires missing < |group| && n <= |group|
  {
    if n <= missing then group[..n] else group[..missing] + group[missing + 1..n]
  }

  /** All other members sit where `recover_packet_by_fec` looks for them. */
  predicate Buffered(buffer: seq<Received>, group: seq<Media>, missing: nat)
  {
    forall u :: 0 <= u < |group| && u != missing ==>
      && 0 <= SlotOf(|buffer|, missing, u) < |buffer|
      && buffer[SlotOf(|buffer|, missing, u)] == Received(DecodeJpeg(group[u].octets).packet, group[u].octets)
      && DecodeJpeg(group[u].octets).packet.header.sequenceNumber == group[u].number
  }

  lemma {:induction false} ChosenSurvivors(buffer: seq<Received>, mask: seq<byte>, group: seq<Media>, missing: nat,
                                           first: uint16, n: nat)
    requires LeadingMask(mask, |group|) && missing < |group|
    requires Sending.Consecutive(group, first) && first + |group| <= 0x1_0000 && Buffered(buffer, group, missing)
    ensures var r := SelectUpTo(buffer, mask, first, missing, n);
      r.Chosen? && AsMedia(r.media) == WithoutUpTo(group, missing, Min(n, |group|))
  {
    hide Buffered, LeadingMask, Sending.Consecutive, AsMedia, WithoutUpTo, TakeMember, DecodeJpeg;
    if n == 0 {
      NoneChosen(group, missing);
    } else {
      ChosenSurvivors(buffer, mask, group, missing, first, n - 1);
      ChosenStep(SelectUpTo(buffer, mask, first, missing, n - 1), buffer, mask, group, missing, first, n - 1);
    }
  }

  lemma {:induction false} NoneChosen(group: seq<Media>, missing: nat)
    requires missing < |group|
    ensures WithoutUpTo(group, missing, 0) == [] == AsMedia([])
  {
  }

  lemma {:induction false} ChosenStep(before: Selection, buffer: seq<Received>, mask: seq<byte>, group: seq<Media>,
                                      missing: nat, first: uint16, u: nat)
    requires LeadingMask(mask, |group|) && missing < |group|
    requires Sending.Consecutive(group, first) && first + |group| <= 0x1_0000 && Buffered(buffer, group, missing)
    requires before.Chosen? && AsMedia(before.media) == WithoutUpTo(group, missing, Min(u, |group|))
    ensures var r := TakeMember(before, buffer, mask, first, missing, u);
      r.Chosen? && AsMedia(r.media) == WithoutUpTo(group, missing, Min(u + 1, |group|))
  {
    hide DecodeJpeg, WithoutUpTo, AsMedia;
    if u < |group| {
      WithoutStep(group, missing, u);
      if u != missing {
        var slot := SlotOf(|buffer|, missing, u);
        assert buffer[slot].octets == group[u].octets && buffer[slot].packet.header.sequenceNumber == group[u].number;
        AsMediaSnoc(before.media, buffer[slot], group[u]);
      }
    }
  }

  lemma {:induction false} WithoutStep(group: seq<Media>, missing: nat, u: nat)
    requires missing < |group| && u < |group|
    ensures WithoutUpTo(group, missing, u + 1)
         == if u == missing then WithoutUpTo(group, missing, u) else WithoutUpTo(group, missing, u) + [group[u]]
  {
  }

  lemma {:induction false} AsMediaSnoc(media: seq<Received>, x: Received, m: Media)
    requires m == Media(x.octets, x.packet.header.sequenceNumber)
    ensures AsMedia(media + [x]) == AsMedia(media) + [m]
  {
  }

  lemma {:induction false} SentMaskLeads(h: RtpHeader, group: seq<Media>, missing: nat, emitOffset: nat)
    requires OneMissing(h, group, missing, emitOffset)
    ensures ParsedFec(h, group, missing, emitOffset).snBase == GroupBase(group)
    ensures LeadingMask(ParsedFec(h, group, missing, emitOffset).levels[0].mask, |group|)
  {
    hide Folded;
    var mask := ParsedFec(h, group, missing, emitOffset).levels[0].mask;
    forall u: nat ensures FecWire.MaskNames(mask, u) <==> u < |group| {
      FecWire.WireMaskNames(|group|, u);
    }
  }

  /** A one-packet gap before the decision point, the gap's parity packet found, the other members in their places. */
  predicate Repairable(buffer: seq<Received>, fecs: seq<ReceivedFec>, index: nat, h: RtpHeader, group: seq<Media>,
                       missing: nat, first: uint16, m: seq<byte>)
  {
    && |buffer| >= BUFFER_SIZE
    && OneMissing(h, group, missing, RFC_OFFSET)
    && Sending.Consecutive(group, first) && 1 <= first && first + |group| <= 0x1_0000
    && buffer[|buffer| - MEDIA_PACKET_DELAY].packet.header.sequenceNumber == first + missing + 1
    && FindCandidate(fecs, first + missing) == Found(index)
    && fecs[index] == ReceivedFec(ParsedFec(h, group, missing, RFC_OFFSET), RawFec(h, group, missing, RFC_OFFSET))
    && Buffered(buffer, group, missing)
    && m == group[missing].octets
  }

  /**
   * A full buffer whose gap is repairable: the lost packet comes back, sequence number and SSRC apart.
   */
  lemma {:induction false} GapIsRepaired(
    buffer: seq<Received>, fecs: seq<ReceivedFec>, index: nat, h: RtpHeader, group: seq<Media>, missing: nat,
    first: uint16, p: JpegPacket, m: seq<byte>)
    requires Repairable(buffer, fecs, index, h, group, missing, first, m)
    requires DecodeJpeg(m) == JpegParse(true, p) && MarkerAt(p.data, |p.data| - 2)
    ensures |m| >= MIN_PACKET && |buffer| >= BUFFER_SIZE && RFC_OFFSET <= MIN_PACKET
    ensures Recover(buffer, fecs, RFC_OFFSET) == Recovered(Received(ClearedPacket(p), Cleared(m)))
  {
    hide *;
    RepairableParts(buffer, fecs, index, h, group, missing, first, m);
    RestoredFrom(buffer, fecs, index, h, group, missing, first, p, m);
    RecoversWith(buffer, fecs[index], first + missing, missing, Survivors(h, group, missing, RFC_OFFSET), RFC_OFFSET,
                 Received(ClearedPacket(p), Cleared(m)));
  }

  lemma {:induction false} RestoredFrom(
    buffer: seq<Received>, fecs: seq<ReceivedFec>, index: nat, h: RtpHeader, group: seq<Media>, missing: nat,
    first: uint16, p: JpegPacket, m: seq<byte>)
    requires Repairable(buffer, fecs, index, h, group, missing, first, m)
    requires DecodeJpeg(m) == JpegParse(true, p) && MarkerAt(p.data, |p.data| - 2)
    ensures OneMissing(h, group, missing, RFC_OFFSET) && RFC_OFFSET <= MIN_PACKET
    ensures index < |fecs| && |m| >= MIN_PACKET
    ensures Restored(Reconstruct(fecs[index].packet, fecs[index].octets, Survivors(h, group, missing, RFC_OFFSET), RFC_OFFSET))
         == Some(Received(ClearedPacket(p), Cleared(m)))
  {
    EndToEndRecovery(h, group, missing, p);
    hide OneMissing, Buffered, Restored, Reconstruct, Survivors, ParsedFec, RawFec, DecodeJpeg, Cleared, MarkerAt;
  }

  lemma {:induction false} RepairableParts(
    buffer: seq<Received>, fecs: seq<ReceivedFec>, index: nat, h: RtpHeader, group: seq<Media>, missing: nat,
    first: uint16, m: seq<byte>)
    requires Repairable(buffer, fecs, index, h, group, missing, first, m)
    ensures OneMissing(h, group, missing, RFC_OFFSET) && RFC_OFFSET <= MIN_PACKET && BUFFER_SIZE <= |buffer|
    ensures index < |fecs| && fecs[index].packet.levels != [] && fecs[index].packet.snBase == first
    ensures Recover(buffer, fecs, RFC_OFFSET) == RecoverWith(buffer, fecs[index], first + missing, RFC_OFFSET)
    ensures var r := SelectUpTo(buffer, fecs[index].packet.levels[0].mask, first, missing, MASK_BITS);
      r.Chosen? && AsMedia(r.media) == Survivors(h, group, missing, RFC_OFFSET)
  {
    RepairableFinds(buffer, fecs, index, h, group, missing, first, m);
    RepairableFound(buffer, fecs, index, h, group, missing, first, m);
    RepairableSelects(buffer, fecs[index].packet.levels[0].mask, fecs, index, h, group, missing, first, m);
    hide *;
  }

  lemma {:induction false} RepairableFinds(
    buffer: seq<Received>, fecs: seq<ReceivedFec>, index: nat, h: RtpHeader, group: seq<Media>, missing: nat,
    first: uint16, m: seq<byte>)
    requires Repairable(buffer, fecs, index, h, group, missing, first, m)
    ensures index < |fecs| && fecs[index].packet.levels != []
    ensures Recover(buffer, fecs, RFC_OFFSET) == RecoverWith(buffer, fecs[index], first + missing, RFC_OFFSET)
  {
    hide OneMissing, Sending.Consecutive, ParsedFec, RawFec, Buffered, FindCandidate, Recover, RecoverWith;
    RecoversFrom(buffer, fecs, index, first + missing, RFC_OFFSET);
  }

  lemma {:induction false} RepairableFound(
    buffer: seq<Received>, fecs: seq<ReceivedFec>, index: nat, h: RtpHeader, group: seq<Media>, missing: nat,
    first: uint16, m: seq<byte>)
    requires Repairable(buffer, fecs, index, h, group, missing, first, m)
    ensures index < |fecs| && fecs[index].packet.levels != [] && fecs[index].packet.snBase == first
    ensures LeadingMask(fecs[index].packet.levels[0].mask, |group|)
  {
    hide OneMissing, Sending.Consecutive, ParsedFec, RawFec, Buffered, FindCandidate, LeadingMask;
    FoundPacket(fecs, index, h, group, missing, first);
  }

  lemma {:induction false} RepairableSelects(
    buffer: seq<Received>, mask: seq<byte>, fecs: seq<ReceivedFec>, index: nat, h: RtpHeader, group: seq<Media>,
    missing: nat, first: uint16, m: seq<byte>)
    requires Repairable(buffer, fecs, index, h, group, missing, first, m) && LeadingMask(mask, |group|)
    ensures OneMissing(h, group, missing, RFC_OFFSET)
    ensures var r := SelectUpTo(buffer, mask, first, missing, MASK_BITS);
      r.Chosen? && AsMedia(r.media) == Survivors(h, group, missing, RFC_OFFSET)
  {
    hide OneMissing, Sending.Consecutive, ParsedFec, RawFec, Buffered, FindCandidate, LeadingMask, SelectUpTo, AsMedia,
         Survivors;
    SurvivorsSelected(buffer, mask, h, group, missing, first);
  }

  lemma {:induction false} FoundPacket(fecs: seq<ReceivedFec>, index: nat, h: RtpHeader, group: seq<Media>,
                                       missing: nat,
                                       first: uint16)
    requires OneMissing(h, group, missing, RFC_OFFSET)
    requires Sending.Consecutive(group, first) && 1 <= first && first + |group| <= 0x1_0000
    requires FindCandidate(fecs, first + missing) == Found(index)
    requires fecs[index] == ReceivedFec(ParsedFec(h, group, missing, RFC_OFFSET), RawFec(h, group, missing, RFC_OFFSET))
    ensures index < |fecs| && fecs[index].packet.levels != [] && fecs[index].packet.snBase == first
    ensures LeadingMask(fecs[index].packet.levels[0].mask, |group|)
  {
    SentMaskLeads(h, group, missing, RFC_OFFSET);
    Sending.BaseOfConsecutive(group, first);
    hide ParsedFec, RawFec, Sending.Consecutive, GroupBase, LeadingMask, FindCandidate;
  }

  lemma {:induction false} SurvivorsSelected(buffer: seq<Received>, mask: seq<byte>, h: RtpHeader, group: seq<Media>,
                                             missing: nat, first: uint16)
    requires OneMissing(h, group, missing, RFC_OFFSET) && Buffered(buffer, group, missing)
    requires LeadingMask(mask, |group|)
    requires Sending.Consecutive(group, first) && first + |group| <= 0x1_0000
    ensures var r := SelectUpTo(buffer, mask, first, missing, MASK_BITS);
      r.Chosen? && AsMedia(r.media) == Survivors(h, group, missing, RFC_OFFSET)
  {
    ChosenSurvivors(buffer, mask, group, missing, first, MASK_BITS);
    SurvivorsAreWithout(h, group, missing);
    assert Min(MASK_BITS, |group|) == |group|;
    hide Buffered, LeadingMask, Sending.Consecutive, SelectUpTo, AsMedia, Survivors, WithoutUpTo;
  }

  lemma {:induction false} SurvivorsAreWithout(h: RtpHeader, group: seq<Media>, missing: nat)
    requires OneMissing(h, group, missing, RFC_OFFSET)
    ensures WithoutUpTo(group, missing, |group|) == Survivors(h, group, missing, RFC_OFFSET)
  {
    ParsedShape(h, group, missing, RFC_OFFSET);
    WithoutAll(group, missing);
    hide Folded, Survivors, Without, WithoutUpTo;
  }

  lemma {:induction false} WithoutAll(group: seq<Media>, missing: nat)
    requires missing < |group|
    ensures WithoutUpTo(group, missing, |group|) == Without(group, missing)
  {
  }

  lemma {:induction false} RecoversFrom(buffer: seq<Received>, fecs: seq<ReceivedFec>, index: nat, number: int,
                                        offset: nat)
    requires |buffer| >= BUFFER_SIZE && offset <= MIN_PACKET
    requires buffer[|buffer| - MEDIA_PACKET_DELAY].packet.header.sequenceNumber == number + 1
    requires FindCandidate(fecs, number) == Found(index)
    ensures Recover(buffer, fecs, offset) == RecoverWith(buffer, fecs[index], number, offset)
  {
    hide RecoverWith, FindCandidate;
  }

  lemma {:induction false} RecoversWith(buffer: seq<Received>, fec: ReceivedFec, number: int, missing: nat,
                                        survivors: seq<Media>, offset: nat, x: Received)
    requires fec.packet.levels != [] && offset <= MIN_PACKET && number == fec.packet.snBase + missing
    requires var r := SelectUpTo(buffer, fec.packet.levels[0].mask, fec.packet.snBase, missing, MASK_BITS);
      r.Chosen? && AsMedia(r.media) == survivors
    requires Restored(Reconstruct(fec.packet, fec.octets, survivors, offset)) == Some(x)
    ensures RecoverWith(buffer, fec, number, offset) == Recovered(x)
  {
    hide SelectUpTo, Reconstruct, Trim, AsMedia;
  }

  // ---- groups whose base is wrong ----

  /** A parity packet for `group`, as its base and mask fields come out of the generator and the grammar. */
  ghost predicate FecOf(fec: ReceivedFec, group: seq<Media>)
  {
    fec.packet.levels != [] && fec.packet.snBase == GroupBase(group) && LeadingMask(fec.packet.levels[0].mask, |group|)
  }

  predicate IsCandidate(fec: ReceivedFec, number: int)
    requires fec.packet.levels != []
  {
    InRange(fec, number) && FecWire.MaskNames(fec.packet.levels[0].mask, number - fec.packet.snBase)
  }

  /**
   * A group that starts at 0 or wraps is repaired with the wrong packets: its first member is never looked up in its own
   * parity packet; for any other number looked up there, a choice takes in numbers without that first member, and is
   * then counted as a correction unless reconstruction fails.
   */
  lemma {:induction false} MisnamedGroup(buffer: seq<Received>, fec: ReceivedFec, group: seq<Media>, first: uint16,
                                         number: int,
                                         offset: nat)
    requires Sending.Consecutive(group, first) && 1 < |group| <= MAX_MASK_BITS && offset <= MIN_PACKET
    requires first == 0 || first + |group| > 0x1_0000
    requires FecOf(fec, group) && IsCandidate(fec, number)
    ensures number != first && Sending.Carries(group, first) && number >= fec.packet.snBase
    ensures var missing := number - fec.packet.snBase;
      var r := SelectUpTo(buffer, fec.packet.levels[0].mask, fec.packet.snBase, missing, MASK_BITS);
      r.Chosen? ==>
        && NumbersOf(r.media) == NumbersWithout(fec.packet.snBase, missing, |group|)
        && first !in NumbersOf(r.media)
        && RecoverWith(buffer, fec, number, offset) != NotRecovered
  {
    Sending.FirstUnnamed(group, first);
    Sending.NamesRange(fec.packet.snBase, |group|, first);
    var missing := number - fec.packet.snBase;
    SelectionIsExact(buffer, fec.packet.levels[0].mask, fec.packet.snBase, missing, |group|, MASK_BITS);
    hide SelectUpTo, Sending.Consecutive, Sending.Names, LeadingMask, InPlace, Reconstruct, Trim, NumbersOf, GroupBase;
    WithinRange(fec.packet.snBase, missing, |group|);
  }

  lemma {:induction false} WithinRange(base: int, missing: nat, n: nat)
    ensures forall x :: x in NumbersWithout(base, missing, n) ==> base <= x < base + n
  {
    if n > 0 {
      WithinRange(base, missing, n - 1);
    }
  }

  // ---- the receiver's state ----

  function Packets(buffer: seq<Received>): (r: seq<JpegPacket>)
    ensures |r| == |buffer|
  {
    seq(|buffer|, i requires 0 <= i < |buffer| => buffer[i].packet)
  }

  /** The packets whose mark is not set, in order. */
  function Unmarked(packets: seq<JpegPacket>, marks: seq<bool>): seq<JpegPacket>
    requires |packets| == |marks|
  {
    if packets == [] then []
    else
      var n := |packets| - 1;
      Unmarked(packets[..n], marks[..n]) + if marks[n] then [] else [packets[n]]
  }

  function Marked(marks: seq<bool>): nat
  {
    if marks == [] then 0
    else Marked(marks[..|marks| - 1]) + if marks[|marks| - 1] then 1 else 0
  }

  lemma {:induction false} UnmarkedAppend(a: seq<JpegPacket>, ma: seq<bool>, b: seq<JpegPacket>, mb: seq<bool>)
    requires |a| == |ma| && |b| == |mb|
    ensures Unmarked(a + b, ma + mb) == Unmarked(a, ma) + Unmarked(b, mb)
    ensures Marked(ma + mb) == Marked(ma) + Marked(mb)
  {
    if b == [] {
      assert a + b == a && ma + mb == ma;
    } else {
      var n := |b| - 1;
      UnmarkedAppend(a, ma, b[..n], mb[..n]);
      assert (a + b)[..|a + b| - 1] == a + b[..n];
      assert (ma + mb)[..|ma + mb| - 1] == ma + mb[..n];
    }
  }

  /** Inserting a marked packet anywhere leaves the unmarked ones as they were. */
  lemma {:induction false} InsertMarked(packets: seq<JpegPacket>, marks: seq<bool>, at: nat, x: JpegPacket)
    requires |packets| == |marks| && at <= |packets|
    ensures Unmarked(packets[..at] + [x] + packets[at..], marks[..at] + [true] + marks[at..]) == Unmarked(packets, marks)
    ensures Marked(marks[..at] + [true] + marks[at..]) == Marked(marks) + 1
  {
    var a, b, ma, mb := packets[..at], packets[at..], marks[..at], marks[at..];
    assert packets == a + b && marks == ma + mb;
    UnmarkedAppend(a, ma, b, mb);
    UnmarkedAppend(a, ma, [x], [true]);
    UnmarkedAppend(a + [x], ma + [true], b, mb);
    assert Unmarked([x], [true]) == [] && Marked([true]) == 1 by {
      assert [x][..0] == [] && [true][..0] == [];
    }
  }

  lemma {:induction false} AppendUnmarked(packets: seq<JpegPacket>, marks: seq<bool>, x: JpegPacket)
    requires |packets| == |marks|
    ensures Unmarked(packets + [x], marks + [false]) == Unmarked(packets, marks) + [x]
    ensures Marked(marks + [false]) == Marked(marks)
  {
    assert (packets + [x])[..|packets|] == packets && (marks + [false])[..|marks|] == marks;
  }

  /** What a message did, or how its handling was left. */
  datatype Handling =
    | NotThisKind    // the grammar did not take it
    | WrongSsrc      // runtime_error
    | NoData         // data.at throws on fewer than two octets
    | BadNumber      // the sequence number was not accepted
    | Taken          // buffered
    | Left(reason: Reason) // an exception or undefined access inside recovery, after buffering

  /** The buffer after the newest packet when the gap before the decision point was repaired with `x`. */
  function WithRecovered(buffer: seq<Received>, x: Received): seq<Received>
    requires |buffer| >= BUFFER_SIZE
  {
    buffer[..|buffer| - MEDIA_PACKET_DELAY] + [x] + buffer[|buffer| - MEDIA_PACKET_DELAY..]
  }

  /** The distance between the two packets at the decision point. */
  function Gap(buffer: seq<Received>): int
    requires |buffer| >= BUFFER_SIZE
  {
    (buffer[|buffer| - MEDIA_PACKET_DELAY].packet.header.sequenceNumber as int)
    - buffer[|buffer| - (MEDIA_PACKET_DELAY + 1)].packet.header.sequenceNumber
  }

  datatype BufferState = BufferState(
    incoming: seq<Received>, frames: seq<JpegPacket>, corrected: nat, uncorrectable: nat, faults: nat, handling: Handling)

  /** The oldest packet moves on to the frame buffer. */
  function Released(held: seq<Received>, frames: seq<JpegPacket>, corrected: nat, uncorrectable: nat,
                    faults: nat): BufferState
    requires held != []
  {
    BufferState(held[1..], frames + [held[0].packet], corrected, uncorrectable, faults, Taken)
  }

  /**
   * The buffer after the newest packet of `held` came in: below fifty it only grows; from then on one packet is
   * released per packet, after a gap of exactly one packet twenty back was repaired or found unrepairable.
   */
  function AfterPacket(held: seq<Received>, frames: seq<JpegPacket>, corrected: nat, uncorrectable: nat, faults: nat,
                       fecs: seq<ReceivedFec>, offset: nat): BufferState
    requires offset <= MIN_PACKET
  {
    if |held| < BUFFER_SIZE then BufferState(held, frames, corrected, uncorrectable, faults, Taken)
    else if Gap(held) == 2 then
      match Recover(held, fecs, offset)
      case Recovered(x) => Released(WithRecovered(held, x), frames, corrected + 1, uncorrectable, faults)
      case NotRecovered => Released(held, frames, corrected, uncorrectable + 1, faults)
      case Faulted(reason) => BufferState(held, frames, corrected, uncorrectable, faults + 1, Left(reason))
    else Released(held, frames, corrected, uncorrectable + (if Gap(held) > 2 then 1 else 0), faults)
  }

  /** The receiver without its history. */
  datatype View = View(
    jpeg: Option<Tracker>, fec: Option<Tracker>, incoming: seq<Received>, frames: seq<JpegPacket>,
    fecs: seq<ReceivedFec>, corrected: nat, uncorrectable: nat, faults: nat)

  const EMPTY := View(None, None, [], [], [], 0, 0, 0)

  /** The first packet creates the sequence utility. */
  function Tracked(t: Option<Tracker>, number: uint16): Tracker
  {
    if t.None? then Initial(number) else t.value
  }

  /** `handle_new_jpeg_packet`. */
  function JpegHandled(v: View, message: seq<byte>, ssrc: uint32, offset: nat): (View, Handling)
    requires offset <= MIN_PACKET
  {
    var parse := DecodeJpeg(message);
    if !parse.ok then (v, NotThisKind)
    else if parse.packet.header.ssrc != ssrc then (v, WrongSsrc)
    else if |parse.packet.data| < 2 then (v, NoData)
    else
      var number := parse.packet.header.sequenceNumber;
      var before := Tracked(v.jpeg, number);
      var checked := v.(jpeg := Some(Step(before, number)));
      if Judge(before, number).Accepting() then PacketTaken(checked, Received(parse.packet, message), offset)
      else (checked, BadNumber)
  }

  function PacketTaken(v: View, x: Received, offset: nat): (View, Handling)
    requires offset <= MIN_PACKET
  {
    var after := AfterPacket(v.incoming + [x], v.frames, v.corrected, v.uncorrectable, v.faults, v.fecs, offset);
    (v.(incoming := after.incoming, frames := after.frames, corrected := after.corrected,
        uncorrectable := after.uncorrectable, faults := after.faults), after.handling)
  }

  /** `handle_new_fec_packet`: at most fifty parity packets are kept, the oldest dropped first. */
  function FecHandled(v: View, message: seq<byte>, ssrc: uint32): (View, Handling)
  {
    var parse := DecodeFec(message);
    if parse.None? || parse.value.header.payloadType != FEC_PAYLOAD_TYPE then (v, NotThisKind)
    else if parse.value.header.ssrc != ssrc then (v, WrongSsrc)
    else
      var number := parse.value.header.sequenceNumber;
      var before := Tracked(v.fec, number);
      var checked := v.(fec := Some(Step(before, number)));
      if !Judge(before, number).Accepting() then (checked, BadNumber)
      else
        var all := v.fecs + [ReceivedFec(parse.value, message)];
        (checked.(fecs := if |all| > BUFFER_SIZE then all[1..] else all), Taken)
  }

  /** `handle_new_incoming_message`: only what the JPEG grammar refuses is offered to the FEC grammar. */
  function MessageHandled(v: View, message: seq<byte>, ssrc: uint32, offset: nat): (View, Handling)
    requires offset <= MIN_PACKET
  {
    var (after, r) := JpegHandled(v, message, ssrc, offset);
    if r == NotThisKind then FecHandled(v, message, ssrc) else (after, r)
  }

  lemma {:induction false} RefusedLeavesAll(v: View, message: seq<byte>, ssrc: uint32, offset: nat)
    requires offset <= MIN_PACKET && JpegHandled(v, message, ssrc, offset).1 == NotThisKind
    ensures !DecodeJpeg(message).ok && JpegHandled(v, message, ssrc, offset).0 == v
  {
    hide DecodeJpeg, Step, Judge, Gap, Recover;
  }

  /** A packet put in by recovery stands, at that moment, between its two sequence neighbours. */
  lemma {:induction false} RecoveredBetweenNeighbours(
    held: seq<Received>, frames: seq<JpegPacket>, corrected: nat, uncorrectable: nat, faults: nat,
    fecs: seq<ReceivedFec>, offset: nat)
    requires offset <= MIN_PACKET
    ensures var after, n := AfterPacket(held, frames, corrected, uncorrectable, faults, fecs, offset), |held|;
      after.corrected > corrected ==>
        && n >= BUFFER_SIZE && |after.incoming| == n && after.corrected == corrected + 1
        && Recover(held, fecs, offset) == Recovered(after.incoming[n - 21])
        && after.incoming[n - 22] == held[n - 21] && after.incoming[n - 20] == held[n - 20]
        && after.incoming[n - 20].packet.header.sequenceNumber as int
           == after.incoming[n - 22].packet.header.sequenceNumber + 2
  {
    hide Recover;
  }

  predicate Conserved(stream: seq<JpegPacket>, marks: seq<bool>, accepted: seq<JpegPacket>, inside: nat,
                      corrected: nat, faults: nat)
  {
    && |stream| == |marks|
    && Unmarked(stream, marks) == accepted
    && Marked(marks) == corrected
    && inside == Min(|accepted|, BUFFER_SIZE - 1) + corrected + faults
    && (|accepted| < BUFFER_SIZE ==> corrected + faults == 0)
  }

  class Receiver {
    const ssrc: uint32
    const survivorOffset: nat
    var jpegUtility: SequenceUtility?
    var fecUtility: SequenceUtility?
    var frameBuffer: seq<JpegPacket>
    var incoming: seq<Received>
    var fecIncoming: seq<ReceivedFec>
    var corrected: nat
    var uncorrectable: nat
    /** Every packet the sequence utility accepted, in arrival order. */
    ghost var accepted: seq<JpegPacket>
    ghost var displayed: seq<JpegPacket>
    /** Which packets of the stream were recovered rather than received. */
    ghost var marks: seq<bool>
    /** How often recovery was left without removing a packet from the buffer. */
    ghost var faults: nat
    ghost var Repr: set<object>

    /** Everything that went in, in display order. */
    ghost function Stream(): seq<JpegPacket>
      reads this
    {
      displayed + frameBuffer + Packets(incoming)
    }

    ghost function State(): View
      reads this, jpegUtility, fecUtility
    {
      View(if jpegUtility == null then None else Some(jpegUtility.State()),
           if fecUtility == null then None else Some(fecUtility.State()),
           incoming, frameBuffer, fecIncoming, corrected, uncorrectable, faults)
    }

    ghost predicate Valid()
      reads this, Repr
    {
      && this in Repr && survivorOffset <= MIN_PACKET
      && (jpegUtility != null ==> jpegUtility in Repr)
      && (fecUtility != null ==> fecUtility in Repr)
      && (jpegUtility != null && fecUtility != null ==> jpegUtility != fecUtility)
      && |fecIncoming| <= BUFFER_SIZE
      && Conserved(Stream(), marks, accepted, |incoming|, corrected, faults)
    }

    constructor (ssrc: uint32, survivorOffset: nat)
      requires survivorOffset <= MIN_PACKET
      ensures Valid() && fresh(Repr) && accepted == [] && displayed == [] && faults == 0
      ensures this.ssrc == ssrc && this.survivorOffset == survivorOffset && State() == EMPTY
    {
      this.ssrc := ssrc;
      this.survivorOffset := survivorOffset;
      jpegUtility, fecUtility := null, null;
      frameBuffer, incoming, fecIncoming := [], [], [];
      corrected, uncorrectable := 0, 0;
      accepted, displayed, marks, faults := [], [], [], 0;
      Repr := {this};
    }

    /** `display_next_frame_timer_handler`: the oldest buffered frame, if any, goes to the frame handler. */
    method DisplayNext() returns (frame: Option<seq<byte>>)
      requires Valid()
      modifies this`frameBuffer, this`displayed
      ensures Valid() && Stream() == old(Stream())
      ensures old(frameBuffer) == [] ==> frame == None && frameBuffer == [] && displayed == old(displayed)
      ensures old(frameBuffer) != [] ==>
        && frame == Some(old(frameBuffer)[0].data)
        && displayed == old(displayed) + [old(frameBuffer)[0]] && frameBuffer == old(frameBuffer)[1..]
    {
      if frameBuffer == [] {
        return None;
      }
      frame := Some(frameBuffer[0].data);
      assert displayed + frameBuffer == (displayed + [frameBuffer[0]]) + frameBuffer[1..];
      displayed := displayed + [frameBuffer[0]];
      frameBuffer := frameBuffer[1..];
    }

    /** `handle_new_fec_packet`. */
    method HandleFec(message: seq<byte>) returns (r: Handling)
      requires Valid()
      modifies Repr
      ensures Valid() && fresh(Repr - old(Repr))
      ensures accepted == old(accepted) && displayed == old(displayed) && marks == old(marks)
      ensures (State(), r) == FecHandled(old(State()), message, ssrc)
    {
      hide DecodeFec, Conserved, Step, Judge;
      var parse := ParseFec(message);
      if parse.None? {
        return NotThisKind;
      }
      var packet := parse.value;
      if packet.header.payloadType != FEC_PAYLOAD_TYPE {
        return NotThisKind;
      }
      if packet.header.ssrc != ssrc {
        return WrongSsrc;
      }
      if fecUtility == null {
        fecUtility := new SequenceUtility(packet.header.sequenceNumber);
        Repr := Repr + {fecUtility};
      }
      var valid := fecUtility.UpdateSeq(packet.header.sequenceNumber);
      if valid == 0 {
        return BadNumber;
      }
      fecIncoming := fecIncoming + [ReceivedFec(packet, message)];
      if |fecIncoming| > BUFFER_SIZE {
        fecIncoming := fecIncoming[1..];
      }
      return Taken;
    }

    /** The sequence check of `handle_new_jpeg_packet`; the first packet creates the utility. */
    method CheckNumber(number: uint16) returns (valid: bool)
      requires Valid()
      modifies Repr
      ensures Valid() && fresh(Repr - old(Repr)) && jpegUtility != null
      ensures accepted == old(accepted) && displayed == old(displayed) && marks == old(marks)
      ensures var before := Tracked(old(State()).jpeg, number);
        valid == Judge(before, number).Accepting() && State() == old(State()).(jpeg := Some(Step(before, number)))
    {
      hide Conserved, Step, Judge;
      if jpegUtility == null {
        jpegUtility := new SequenceUtility(number);
        Repr := Repr + {jpegUtility};
      }
      var r := jpegUtility.UpdateSeq(number);
      valid := r == 1;
    }

    /** From the sequence check on: buffer the packet and, once fifty are held, decide on the gap 20 packets back. */
    method Buffer(packet: JpegPacket, message: seq<byte>) returns (r: Handling)
      requires Valid()
      modifies this`incoming, this`frameBuffer, this`corrected, this`uncorrectable, this`accepted, this`marks, this`faults
      ensures Valid() && accepted == old(accepted) + [packet]
      ensures BufferState(incoming, frameBuffer, corrected, uncorrectable, faults, r)
           == AfterPacket(old(incoming) + [Received(packet, message)], old(frameBuffer), old(corrected),
                          old(uncorrectable), old(faults), fecIncoming, survivorOffset)
    {
      hide Recover, Conserved, Packets, Gap;
      ghost var before := Stream();
      ConservedLength(before, marks, accepted, |incoming|, corrected, faults);
      incoming := incoming + [Received(packet, message)];
      accepted := accepted + [packet];
      marks := marks + [false];
      StreamPushed(displayed, frameBuffer, old(incoming), incoming[|old(incoming)|]);
      if |incoming| < BUFFER_SIZE {
        BufferedMore(before, old(marks), old(accepted), |old(incoming)|, corrected, faults, packet);
        return Taken;
      }
      r := Decide(before, old(marks), old(accepted), packet);
    }

    /** The decision on the gap twenty packets back, and the release of the oldest packet. */
    method Decide(ghost before: seq<JpegPacket>, ghost marksBefore: seq<bool>, ghost acceptedBefore: seq<JpegPacket>,
                  ghost packet: JpegPacket) returns (r: Handling)
      requires |incoming| >= BUFFER_SIZE && survivorOffset <= MIN_PACKET
      requires Conserved(before, marksBefore, acceptedBefore, |incoming| - 1, corrected, faults)
      requires Stream() == before + [packet] && marks == marksBefore + [false] && accepted == acceptedBefore + [packet]
      modifies this`incoming, this`frameBuffer, this`corrected, this`uncorrectable, this`marks, this`faults
      ensures Conserved(Stream(), marks, accepted, |incoming|, corrected, faults)
      ensures BufferState(incoming, frameBuffer, corrected, uncorrectable, faults, r)
           == AfterPacket(old(incoming), old(frameBuffer), old(corrected), old(uncorrectable), old(faults),
                          fecIncoming, survivorOffset)
    {
      hide Recover, Conserved, Packets, Gap;
      ghost var stream, inside := Stream(), |incoming| - 1;
      ConservedLength(before, marksBefore, acceptedBefore, inside, corrected, faults);
      var gap := Gap(incoming);
      if gap == 2 {
        var recovery := RecoverPacketByFec(incoming, fecIncoming, survivorOffset);
        match recovery {
          case Recovered(x) =>
            ghost var at := |displayed + frameBuffer| + (|incoming| - MEDIA_PACKET_DELAY);
            StreamInserted(displayed, frameBuffer, incoming, |incoming| - MEDIA_PACKET_DELAY, x);
            RepairedAndShifted(before, marksBefore, acceptedBefore, inside, corrected, faults, packet, at, x.packet);
            incoming := WithRecovered(incoming, x);
            corrected := corrected + 1;
            marks := marks[..at] + [true] + marks[at..];
          case NotRecovered =>
            uncorrectable := uncorrectable + 1;
            Shifted(before, marksBefore, acceptedBefore, inside, corrected, faults, packet);
          case Faulted(reason) =>
            Stuck(before, marksBefore, acceptedBefore, inside, corrected, faults, packet);
            faults := faults + 1;
            return Left(reason);
        }
      } else {
        if gap > 2 {
          uncorrectable := uncorrectable + 1;
        }
        Shifted(before, marksBefore, acceptedBefore, inside, corrected, faults, packet);
      }
      StreamShifted(displayed, frameBuffer, incoming);
      frameBuffer := frameBuffer + [incoming[0].packet];
      incoming := incoming[1..];
      return Taken;
    }

    /** `handle_new_jpeg_packet`. */
    method HandleJpeg(message: seq<byte>) returns (r: Handling)
      requires Valid()
      modifies Repr
      ensures Valid() && fresh(Repr - old(Repr)) && displayed == old(displayed)
      ensures accepted == if r == Taken || r.Left? then old(accepted) + [DecodeJpeg(message).packet] else old(accepted)
      ensures (State(), r) == JpegHandled(old(State()), message, ssrc, survivorOffset)
    {
      hide DecodeJpeg, Conserved, Step, Judge, Recover, Gap;
      var parse := ParseJpeg(message);
      if !parse.ok {
        return NotThisKind;
      }
      var packet := parse.packet;
      if packet.header.ssrc != ssrc {
        return WrongSsrc;
      }
      if |packet.data| < 2 {
        return NoData;
      }
      var valid := CheckNumber(packet.header.sequenceNumber);
      if !valid {
        return BadNumber;
      }
      r := Buffer(packet, message);
    }

    /** `handle_new_incoming_message`. */
    method HandleMessage(message: seq<byte>) returns (r: Handling)
      requires Valid()
      modifies Repr
      ensures Valid() && fresh(Repr - old(Repr)) && displayed == old(displayed)
      ensures accepted ==
        if DecodeJpeg(message).ok && (r == Taken || r.Left?) then old(accepted) + [DecodeJpeg(message).packet]
        else old(accepted)
      ensures (State(), r) == MessageHandled(old(State()), message, ssrc, survivorOffset)
    {
      hide DecodeJpeg, DecodeFec, Conserved, Step, Judge, Gap, Recover, Released, FecHandled, Packets;
      r := HandleJpeg(message);
      if r == NotThisKind {
        RefusedLeavesAll(old(State()), message, ssrc, survivorOffset);
        r := HandleFec(message);
      }
    }
  }

  // ---- steps of the conservation invariant ----

  lemma {:induction false} StreamPushed(displayed: seq<JpegPacket>, frames: seq<JpegPacket>, incoming: seq<Received>,
                                        x: Received)
    ensures displayed + frames + Packets(incoming + [x]) == (displayed + frames + Packets(incoming)) + [x.packet]
  {
    assert Packets(incoming + [x]) == Packets(incoming) + [x.packet];
  }

  lemma {:induction false} StreamInserted(displayed: seq<JpegPacket>, frames: seq<JpegPacket>, incoming: seq<Received>,
                                          at: nat, x: Received)
    requires at <= |incoming|
    ensures var stream, k := displayed + frames + Packets(incoming), |displayed + frames| + at;
      displayed + frames + Packets(incoming[..at] + [x] + incoming[at..]) == stream[..k] + [x.packet] + stream[k..]
  {
    assert Packets(incoming[..at] + [x] + incoming[at..])
        == Packets(incoming)[..at] + [x.packet] + Packets(incoming)[at..];
  }

  lemma {:induction false} StreamShifted(displayed: seq<JpegPacket>, frames: seq<JpegPacket>, incoming: seq<Received>)
    requires incoming != []
    ensures displayed + (frames + [incoming[0].packet]) + Packets(incoming[1..])
         == displayed + frames + Packets(incoming)
  {
    assert Packets(incoming) == [incoming[0].packet] + Packets(incoming[1..]);
  }

  lemma {:induction false} ConservedLength(stream: seq<JpegPacket>, marks: seq<bool>, accepted: seq<JpegPacket>,
                                           inside: nat, corrected: nat, faults: nat)
    requires Conserved(stream, marks, accepted, inside, corrected, faults)
    ensures |stream| == |marks|
  {
  }

  lemma {:induction false} BufferedMore(stream: seq<JpegPacket>, marks: seq<bool>, accepted: seq<JpegPacket>,
                                        inside: nat,
                                        corrected: nat, faults: nat, x: JpegPacket)
    requires Conserved(stream, marks, accepted, inside, corrected, faults) && inside + 1 < BUFFER_SIZE
    ensures Conserved(stream + [x], marks + [false], accepted + [x], inside + 1, corrected, faults)
  {
    AppendUnmarked(stream, marks, x);
    hide Unmarked, Marked;
  }

  lemma {:induction false} Shifted(stream: seq<JpegPacket>, marks: seq<bool>, accepted: seq<JpegPacket>, inside: nat,
                                   corrected: nat, faults: nat, x: JpegPacket)
    requires Conserved(stream, marks, accepted, inside, corrected, faults) && inside + 1 >= BUFFER_SIZE
    ensures Conserved(stream + [x], marks + [false], accepted + [x], inside, corrected, faults)
  {
    AppendUnmarked(stream, marks, x);
    hide Unmarked, Marked;
  }

  lemma {:induction false} Stuck(stream: seq<JpegPacket>, marks: seq<bool>, accepted: seq<JpegPacket>, inside: nat,
                                 corrected: nat, faults: nat, x: JpegPacket)
    requires Conserved(stream, marks, accepted, inside, corrected, faults) && inside + 1 >= BUFFER_SIZE
    ensures Conserved(stream + [x], marks + [false], accepted + [x], inside + 1, corrected, faults + 1)
  {
    AppendUnmarked(stream, marks, x);
    hide Unmarked, Marked;
  }

  lemma {:induction false} RepairedAndShifted(
    stream: seq<JpegPacket>, marks: seq<bool>, accepted: seq<JpegPacket>, inside: nat, corrected: nat, faults: nat,
    x: JpegPacket, at: nat, y: JpegPacket)
    requires Conserved(stream, marks, accepted, inside, corrected, faults) && inside + 1 >= BUFFER_SIZE
    requires at <= |stream| + 1
    ensures |stream| == |marks|
    ensures Conserved((stream + [x])[..at] + [y] + (stream + [x])[at..],
                      (marks + [false])[..at] + [true] + (marks + [false])[at..],
                      accepted + [x], inside + 1, corrected + 1, faults)
  {
    AppendUnmarked(stream, marks, x);
    InsertMarked(stream + [x], marks + [false], at, y);
    hide Unmarked, Marked;
  }
}
