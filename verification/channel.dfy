/** What a sender puts on a channel that loses single packets, and the parity packets a receiver keeps of it. */
module Channel {
  import opened Wrappers
  import opened Octets
  import opened RtpPacket
  import opened FecGeneration
  import opened FecRecovery
  import opened RecoveryTheorems
  import opened EndToEnd
  import opened GroupSelection
  import opened Sending
  import opened Receiving
  import Track = SequenceTracking
  import FecWire

  // ---- what is sent and what gets lost ----

  /** A sender's frames, its two first sequence numbers, its group size, and the frames whose packets are lost. */
  datatype Transmission = Transmission(
    ssrc: uint32, first: uint16, fecFirst: uint16, k: nat, frames: seq<seq<byte>>, lost: set<nat>)

  /** Groups of 2 to 20, numbers from 1 or above that do not wrap, frames that end with the end-of-image marker. */
  predicate Plain(t: Transmission)
  {
    && 2 <= t.k <= 20 && 1 <= t.first && t.first + |t.frames| <= 0x1_0000 && t.fecFirst < 0xFFFF
    && SendableFrames(t.frames)
  }

  /** Nothing is lost before the buffer has filled up, no two neighbours, and at most one packet of a group. */
  predicate SparseLosses(t: Transmission)
  {
    && (forall i :: i in t.lost ==> i >= 31 && i + 1 !in t.lost)
    && (t.k > 0 ==> forall i, j :: i in t.lost && j in t.lost && i / t.k == j / t.k ==> i == j)
  }

  /** The media packet made of frame `i`, as the generator is fed with it. */
  function Member(t: Transmission, i: nat): Media
    requires i < |t.frames|
  {
    FrameMedia((t.first + i) % 0x1_0000, t.ssrc, t.frames[i])
  }

  function Original(t: Transmission, i: nat): Received
    requires i < |t.frames|
  {
    Received(PacketAt(t.first, t.ssrc, t.frames, i), Member(t, i).octets)
  }

  /** What recovery makes of a lost packet. */
  function Replacement(t: Transmission, i: nat): Received
    requires Plain(t) && i < |t.frames|
  {
    MemberSize(t, i);
    Received(ClearedPacket(PacketAt(t.first, t.ssrc, t.frames, i)), Cleared(Member(t, i).octets))
  }

  /** What should stand in the buffer for frame `i`. */
  function Ideal(t: Transmission, i: nat): Received
    requires Plain(t) && i < |t.frames|
  {
    if i in t.lost then Replacement(t, i) else Original(t, i)
  }

  function Members(t: Transmission, n: nat): (r: seq<Media>)
    requires n <= |t.frames|
    ensures |r| == n
  {
    seq(n, i requires 0 <= i < n => Member(t, i))
  }

  function Group(t: Transmission, g: nat): (r: seq<Media>)
    requires (g + 1) * t.k <= |t.frames|
    ensures |r| == t.k
  {
    Shift(g, t.k);
    seq(t.k, u requires 0 <= u < t.k => Member(t, g * t.k + u))
  }

  lemma {:induction false} Shift(g: nat, k: nat)
    ensures (g + 1) * k == g * k + k && g * k >= 0
  {
  }

  lemma {:induction false} MemberSize(t: Transmission, i: nat)
    requires Plain(t) && i < |t.frames|
    ensures MIN_PACKET <= |Member(t, i).octets| <= 0xFFFF && Member(t, i).number == t.first + i
  {
    hide EncodeJpeg, MarkerAt, FramePacket;
    FrameIsExpressible((t.first + i) % 0x1_0000, t.ssrc, t.frames[i]);
  }

  lemma {:induction false} MemberIs(t: Transmission, i: nat)
    requires Plain(t) && i < |t.frames|
    ensures var p := PacketAt(t.first, t.ssrc, t.frames, i);
      DecodeJpeg(Member(t, i).octets) == JpegParse(true, p) && MarkerAt(p.data, |p.data| - 2)
  {
    hide DecodeJpeg, MarkerAt, FrameMedia, PacketAt, SendableFrames;
    var fed := Members(t, |t.frames|);
    MembersStream(t);
    assert fed[i] == Member(t, i);
    hide Member, Members, StreamOf, Plain;
    SentFrame(fed, t.first, t.ssrc, t.frames, i);
  }

  lemma {:induction false} MembersStream(t: Transmission)
    requires Plain(t)
    ensures StreamOf(Members(t, |t.frames|), t.first, t.ssrc, t.frames) && SendableFrames(t.frames)
  {
    hide FrameMedia, SendableFrames;
  }

  lemma {:induction false} PacketFields(t: Transmission, i: nat)
    requires Plain(t) && i < |t.frames|
    ensures var p := PacketAt(t.first, t.ssrc, t.frames, i);
      p.header.sequenceNumber == t.first + i && p.header.ssrc == t.ssrc && p.data == t.frames[i]
  {
    hide MarkerAt;
  }

  lemma {:induction false} GroupAt(t: Transmission, g: nat, u: nat, i: nat)
    requires (g + 1) * t.k <= |t.frames| && u < t.k && i == g * t.k + u
    ensures i < |t.frames| && Group(t, g)[u] == Member(t, i)
  {
    Shift(g, t.k);
    hide Member;
  }

  /** The first number of group `g`. */
  function Start(t: Transmission, g: nat): int
  {
    t.first + g * t.k
  }

  predicate SentGroup(group: seq<Media>, first: int)
  {
    && group != [] && AllMedia(group) && 1 <= first && first + |group| <= 0x1_0000 && Consecutive(group, first)
    && forall m :: m in group ==> MIN_PACKET <= |m.octets| <= 0xFFFF
  }

  lemma {:induction false} GroupIs(t: Transmission, g: nat)
    requires Plain(t) && (g + 1) * t.k <= |t.frames|
    ensures SentGroup(Group(t, g), Start(t, g))
  {
    Shift(g, t.k);
    var group, first := Group(t, g), t.first + g * t.k;
    forall u | 0 <= u < |group|
      ensures MIN_PACKET <= |group[u].octets| <= 0xFFFF && group[u].number == first + u
    {
      hide Member, SendableFrames;
      MemberSize(t, g * t.k + u);
    }
    assert group != [] && 1 <= first && first + |group| <= 0x1_0000;
    hide *;
    NumberedGroup(group, first);
  }

  lemma {:induction false} NumberedGroup(group: seq<Media>, first: int)
    requires group != [] && 1 <= first && first + |group| <= 0x1_0000
    requires forall u :: 0 <= u < |group| ==> MIN_PACKET <= |group[u].octets| <= 0xFFFF && group[u].number == first + u
    ensures SentGroup(group, first)
  {
  }

  /** The header of the parity packet behind group `g`, stamped like the group's last packet. */
  function FecHeader(t: Transmission, g: nat): RtpHeader
  {
    FecRtpHeader((t.fecFirst + g) % 0x1_0000, t.ssrc, (t.first + g * t.k + t.k - 1) % 0x1_0000 * FRAME_PERIOD * 90)
  }

  /** What the generator makes of group `g`. */
  function ParityOctets(t: Transmission, g: nat): seq<byte>
    requires Plain(t) && (g + 1) * t.k <= |t.frames|
  {
    GroupIs(t, g);
    FecPacketOf(Group(t, g), t.k, RFC_OFFSET)
  }

  function FecMessage(t: Transmission, g: nat): seq<byte>
    requires Plain(t) && (g + 1) * t.k <= |t.frames|
  {
    EncodeHeader(FecHeader(t, g)) + ParityOctets(t, g)
  }

  lemma {:induction false} GroupMisses(t: Transmission, g: nat, x: nat)
    requires Plain(t) && (g + 1) * t.k <= |t.frames| && x < t.k
    ensures OneMissing(FecHeader(t, g), Group(t, g), x, RFC_OFFSET)
    ensures FecMessage(t, g) == RawFec(FecHeader(t, g), Group(t, g), x, RFC_OFFSET)
  {
    GroupIs(t, g);
    hide Group, FecPacketOf, EncodeHeader, Consecutive;
    SentGroupIsLost(FecHeader(t, g), Group(t, g), x, RFC_OFFSET, (t.fecFirst + g) % 0x1_0000, t.ssrc,
                    (t.first + g * t.k + t.k - 1) % 0x1_0000 * FRAME_PERIOD * 90);
  }

  function ParsedMessage(t: Transmission, g: nat): FecPacket
    requires Plain(t) && (g + 1) * t.k <= |t.frames|
  {
    GroupMisses(t, g, 0);
    ParsedFec(FecHeader(t, g), Group(t, g), 0, RFC_OFFSET)
  }

  /** The JPEG grammar refuses a parity packet, and the FEC grammar reads it. */
  lemma {:induction false} FecMessageParses(t: Transmission, g: nat)
    requires Plain(t) && (g + 1) * t.k <= |t.frames|
    ensures !DecodeJpeg(FecMessage(t, g)).ok
    ensures DecodeFec(FecMessage(t, g)) == Some(ParsedMessage(t, g))
    ensures ParsedMessage(t, g).header == FecHeader(t, g)
  {
    GroupMisses(t, g, 0);
    var h, group := FecHeader(t, g), Group(t, g);
    hide Group, FecMessage, OneMissing, FecPacketOf, RawFec, ParsedFec, EncodeHeader, DecodeFec;
    ParsedFromRaw(h, group, 0, RFC_OFFSET);
    ParsedShape(h, group, 0, RFC_OFFSET);
    RawFecHeaderParse(h, group, 0);
    hide DecodeHeader;
  }

  lemma {:induction false} RawFecHeaderParse(h: RtpHeader, group: seq<Media>, x: nat)
    requires OneMissing(h, group, x, RFC_OFFSET)
    ensures DecodeHeader(RawFec(h, group, x, RFC_OFFSET)).ok
      && DecodeHeader(RawFec(h, group, x, RFC_OFFSET)).header == h
  {
    hide FecPacketOf, EncodeHeader, DecodeHeader;
    HeaderRoundTrip(h, FecPacketOf(group, |group|, RFC_OFFSET));
  }

  // ---- the receiver's run ----

  /** How many groups the first `n` frames fill. */
  function GroupsOf(t: Transmission, n: nat): nat
  {
    if t.k == 0 then 0 else n / t.k
  }

  predicate Full(t: Transmission, n: nat)
  {
    t.k > 0 && n % t.k == 0
  }

  lemma {:induction false} GroupsNext(t: Transmission, n: nat)
    requires t.k > 0
    ensures GroupsOf(t, n) * t.k <= n < GroupsOf(t, n) * t.k + t.k
    ensures GroupsOf(t, n + 1) == GroupsOf(t, n) + if Full(t, n + 1) then 1 else 0
    ensures Full(t, n + 1) ==> (GroupsOf(t, n) + 1) * t.k == n + 1
  {
    var k, q, r := t.k, n / t.k, n % t.k;
    assert n == k * q + r;
    assert k * q == q * k;
    if r == k - 1 {
      assert (q + 1) * k == q * k + k;
      RemainderUnique(n + 1, k, q + 1, 0);
    } else {
      RemainderUnique(n + 1, k, q, r + 1);
    }
  }

  /** Frame `i` on the channel: its packet unless lost, and behind a full group the parity packet. */
  function Arriving(t: Transmission, i: nat): seq<seq<byte>>
    requires Plain(t) && i < |t.frames|
  {
    GroupsNext(t, i);
    (if i in t.lost then [] else [Member(t, i).octets]) + (if Full(t, i + 1) then [FecMessage(t, GroupsOf(t, i))] else [])
  }

  function Handled(v: View, messages: seq<seq<byte>>, ssrc: uint32): View
    decreases |messages|
  {
    if messages == [] then v else Handled(MessageHandled(v, messages[0], ssrc, RFC_OFFSET).0, messages[1..], ssrc)
  }

  /** The receiver after the first `n` frames went over the channel. */
  function ReceivedOf(t: Transmission, n: nat): View
    requires Plain(t) && n <= |t.frames|
  {
    if n == 0 then EMPTY else Handled(ReceivedOf(t, n - 1), Arriving(t, n - 1), t.ssrc)
  }

  lemma {:induction false} HandledOne(v: View, a: seq<byte>, ssrc: uint32)
    ensures Handled(v, [a], ssrc) == MessageHandled(v, a, ssrc, RFC_OFFSET).0
  {
    assert [a][1..] == [];
    hide MessageHandled;
  }

  // ---- parity packets at the receiver ----

  /** The parity packets kept after `n` arrived: the first one is lost to probation, and at most fifty are kept. */
  function Kept(t: Transmission, n: nat): (r: seq<ReceivedFec>)
    requires Plain(t) && n * t.k <= |t.frames|
    ensures |r| == if n == 0 then 0 else Min(n - 1, BUFFER_SIZE)
  {
    var size := if n == 0 then 0 else Min(n - 1, BUFFER_SIZE);
    seq(size, i requires 0 <= i < size => KeptAt(t, n, n - size + i))
  }

  function KeptAt(t: Transmission, n: nat, g: nat): ReceivedFec
    requires Plain(t) && n * t.k <= |t.frames| && g < n
  {
    Below(g, n, t.k);
    ReceivedFec(ParsedMessage(t, g), FecMessage(t, g))
  }

  lemma {:induction false} Below(g: nat, n: nat, k: nat)
    requires g < n
    ensures (g + 1) * k <= n * k
  {
    Multiples(g + 1, n, k);
  }

  /** The tracker of a stream's first `n` packets, all of which arrived. */
  predicate Followed(first: uint16, n: nat, u: Option<Track.Tracker>)
  {
    && (n == 0 ==> u == None)
    && (n == 1 ==> u.Some? && u.value.probation == 1 && u.value.maxSeq == first)
    && (n > 1 ==> u.Some? && u.value.probation == 0 && u.value.maxSeq == (first + n - 1) % 0x1_0000)
  }

  predicate FecState(t: Transmission, n: nat, v: View)
    requires Plain(t) && n * t.k <= |t.frames|
  {
    v.fecs == Kept(t, n) && Followed(t.fecFirst, n, v.fec)
  }

  lemma {:induction false} NextInOrder(u: Track.Tracker, number: uint16, ahead: nat)
    requires u.probation == 0 && 1 <= ahead <= 2 && number == (u.maxSeq + ahead) % 0x1_0000
    ensures Track.Judge(u, number).Accepting()
    ensures Track.Step(u, number).probation == 0 && Track.Step(u, number).maxSeq == number
  {
    assert Track.Ahead(u, number) == ahead;
  }

  /** The list after the packet with index `n` arrived, `all` being the list before and that packet. */
  function FecsNext(n: nat, all: seq<ReceivedFec>): seq<ReceivedFec>
    requires all != []
  {
    if n == 0 then all[..|all| - 1] else if |all| > BUFFER_SIZE then all[1..] else all
  }

  lemma {:induction false} KeptNext(t: Transmission, n: nat)
    requires Plain(t) && (n + 1) * t.k <= |t.frames|
    ensures n * t.k <= |t.frames|
    ensures Kept(t, n + 1) == FecsNext(n, Kept(t, n) + [KeptAt(t, n + 1, n)])
  {
    Shift(n, t.k);
    hide KeptAt;
    KeptAlike(t, n);
  }

  lemma {:induction false} KeptAlike(t: Transmission, n: nat)
    requires Plain(t) && (n + 1) * t.k <= |t.frames| && n * t.k <= |t.frames|
    ensures forall g: nat :: g < n ==> KeptAt(t, n + 1, g) == KeptAt(t, n, g)
  {
  }

  /** Nothing but the parity side of the receiver has changed. */
  predicate MediaKept(v: View, w: View)
  {
    w == v.(fec := w.fec, fecs := w.fecs)
  }

  /** A parity packet as it arrives: refused by the JPEG grammar, read by the FEC grammar, numbered `number`. */
  predicate ParityPacket(x: ReceivedFec, ssrc: uint32, number: uint16)
  {
    && !DecodeJpeg(x.octets).ok && DecodeFec(x.octets) == Some(x.packet)
    && x.packet.header.payloadType == FEC_PAYLOAD_TYPE && x.packet.header.ssrc == ssrc
    && x.packet.header.sequenceNumber == number
  }

  lemma {:induction false} KeptArrives(t: Transmission, n: nat)
    requires Plain(t) && (n + 1) * t.k <= |t.frames|
    ensures KeptAt(t, n + 1, n).octets == FecMessage(t, n)
    ensures ParityPacket(KeptAt(t, n + 1, n), t.ssrc, (t.fecFirst + n) % 0x1_0000)
  {
    FecMessageParses(t, n);
    FecHeaderFields(t, n);
    hide FecMessage, ParsedMessage, DecodeJpeg, DecodeFec, FecHeader, SendableFrames;
  }

  /** Handling the next parity packet. */
  lemma {:induction false} FecStep(t: Transmission, n: nat, v: View)
    requires Plain(t) && (n + 1) * t.k <= |t.frames| && n * t.k <= |t.frames| && FecState(t, n, v)
    ensures var w := MessageHandled(v, FecMessage(t, n), t.ssrc, RFC_OFFSET).0;
      FecState(t, n + 1, w) && MediaKept(v, w)
  {
    hide ParityPacket, FecMessage, KeptAt, Kept, MessageHandled, Followed, SendableFrames;
    KeptArrives(t, n);
    FollowsOn(t.fecFirst, n, v.fec);
    var number := (t.fecFirst + n) % 0x1_0000;
    var w := MessageHandled(v, FecMessage(t, n), t.ssrc, RFC_OFFSET).0;
    ParityTaken(v, KeptAt(t, n + 1, n), t.ssrc, number, w);
    hide *;
    FecStateNext(t, n, n + 1, v, w, KeptAt(t, n + 1, n));
  }

  lemma {:induction false} FecHeaderFields(t: Transmission, g: nat)
    ensures var h := FecHeader(t, g);
      h.sequenceNumber == (t.fecFirst + g) % 0x1_0000 && h.ssrc == t.ssrc && h.payloadType == FEC_PAYLOAD_TYPE
  {
  }

  /** What the receiver makes of a parity packet with the right payload type and SSRC. */
  lemma {:induction false} ParityTaken(v: View, x: ReceivedFec, ssrc: uint32, number: uint16, w: View)
    requires ParityPacket(x, ssrc, number)
    requires RFC_OFFSET <= MIN_PACKET && w == MessageHandled(v, x.octets, ssrc, RFC_OFFSET).0
    ensures MediaKept(v, w) && w.fec == Some(Track.Step(Tracked(v.fec, number), number))
    ensures w.fecs == if !Track.Judge(Tracked(v.fec, number), number).Accepting() then v.fecs
      else if |v.fecs + [x]| > BUFFER_SIZE then (v.fecs + [x])[1..] else v.fecs + [x]
  {
    hide DecodeJpeg, DecodeFec, Track.Step, Track.Judge, Track.Initial, PacketTaken;
  }

  lemma {:induction false} FecStateNext(t: Transmission, n: nat, next: nat, v: View, w: View, x: ReceivedFec)
    requires Plain(t) && next == n + 1 && next * t.k <= |t.frames| && n * t.k <= |t.frames| && v.fecs == Kept(t, n)
    requires x == KeptAt(t, next, n) && Followed(t.fecFirst, next, w.fec) && w.fecs == FecsNext(n, v.fecs + [x])
    ensures FecState(t, next, w)
  {
    KeptNext(t, n);
    hide Plain, KeptAt, Followed;
  }

  /** Of a stream that arrives in order only the first packet is refused. */
  lemma {:induction false} FollowsOn(first: uint16, n: nat, u: Option<Track.Tracker>)
    requires (n == 1 ==> first < 0xFFFF) && Followed(first, n, u)
    ensures var number := (first + n) % 0x1_0000; var before := Tracked(u, number);
      && Track.Judge(before, number).Accepting() == (n > 0)
      && Followed(first, n + 1, Some(Track.Step(before, number)))
  {
    if n > 1 {
      NextInOrder(u.value, (first + n) % 0x1_0000, 1);
    }
  }

  // ---- the parity packet of a group among those kept ----

  /** Base and mask of the parity packet behind group `g` name the group's numbers. */
  ghost predicate NamesGroup(t: Transmission, fec: ReceivedFec, g: nat)
  {
    && fec.packet.levels != [] && fec.packet.snBase == Start(t, g)
    && LeadingMask(fec.packet.levels[0].mask, t.k)
  }

  lemma {:induction false} ParsedNames(h: RtpHeader, group: seq<Media>, first: int)
    requires OneMissing(h, group, 0, RFC_OFFSET) && SentGroup(group, first)
    ensures var packet := ParsedFec(h, group, 0, RFC_OFFSET);
      packet.levels != [] && packet.snBase == first && LeadingMask(packet.levels[0].mask, |group|)
  {
    SentMaskLeads(h, group, 0, RFC_OFFSET);
    BaseOfConsecutive(group, first);
    hide OneMissing, GroupBase, AllMedia, LeadingMask, Folded, Consecutive;
  }

  lemma {:induction false} KeptNames(t: Transmission, n: nat, g: nat)
    requires Plain(t) && n * t.k <= |t.frames| && g < n
    ensures NamesGroup(t, KeptAt(t, n, g), g)
  {
    hide Start, SendableFrames, ParsedFec, OneMissing, FecHeader, FecMessage, SentGroup, LeadingMask;
    Below(g, n, t.k);
    GroupMisses(t, g, 0);
    GroupIs(t, g);
    var h, group, packet := FecHeader(t, g), Group(t, g), KeptAt(t, n, g).packet;
    assert packet == ParsedFec(h, group, 0, RFC_OFFSET) && |group| == t.k;
    hide Group, KeptAt, Plain;
    ParsedNames(h, group, Start(t, g));
  }

  lemma {:induction false} FindAt(fecs: seq<ReceivedFec>, number: int, index: nat)
    requires index < |fecs| && fecs[index].packet.levels != [] && IsCandidate(fecs[index], number)
    requires forall j :: index < j < |fecs| ==> !InRange(fecs[j], number)
    ensures FindCandidate(fecs, number) == Found(index)
  {
    hide FecWire.MaskNames;
    if |fecs| > index + 1 {
      FindAt(fecs[..|fecs| - 1], number, index);
    }
  }

  lemma {:induction false} KeptIndex(t: Transmission, n: nat, j: nat)
    requires Plain(t) && n * t.k <= |t.frames| && j < |Kept(t, n)|
    ensures n - |Kept(t, n)| >= 0 && Kept(t, n)[j] == KeptAt(t, n, n - |Kept(t, n)| + j)
  {
    hide KeptAt;
  }

  lemma {:induction false} NamedIsCandidate(t: Transmission, fec: ReceivedFec, g: nat, number: int)
    requires NamesGroup(t, fec, g)
    ensures InRange(fec, number) <==> Start(t, g) <= number <= Start(t, g) + SEARCH_RANGE
    ensures fec.packet.levels != []
    ensures Start(t, g) <= number < Start(t, g) + t.k && t.k <= 20 ==> IsCandidate(fec, number)
  {
    hide FecWire.MaskNames;
  }

  lemma {:induction false} LaterIsOutOfRange(t: Transmission, fec: ReceivedFec, g: nat, later: nat, u: nat)
    requires NamesGroup(t, fec, later) && later > g && u < t.k
    ensures !InRange(fec, Start(t, g) + u)
  {
    Multiples(g + 1, later, t.k);
    Multiples(g, g, t.k);
    hide LeadingMask;
  }

  /** A number of group `g` finds that group's parity packet, unless fifty newer ones have come in. */
  lemma {:induction false} FindsGroup(t: Transmission, n: nat, g: nat, u: nat) returns (index: nat)
    requires Plain(t) && n * t.k <= |t.frames| && 1 <= g < n <= g + BUFFER_SIZE && u < t.k
    ensures FindCandidate(Kept(t, n), Start(t, g) + u) == Found(index)
    ensures index < |Kept(t, n)| && Kept(t, n)[index] == KeptAt(t, n, g)
  {
    hide Start, SendableFrames, FindCandidate, Kept, KeptAt, NamesGroup, InRange, IsCandidate;
    var fecs, number, size := Kept(t, n), Start(t, g) + u, |Kept(t, n)|;
    index := g - (n - size);
    KeptIndex(t, n, index);
    KeptNames(t, n, g);
    assert t.k <= 20;
    hide Plain;
    NamedIsCandidate(t, KeptAt(t, n, g), g, number);
    forall j | index < j < |fecs| ensures !InRange(fecs[j], number) {
      KeptIndex(t, n, j);
      KeptNames(t, n, n - size + j);
      LaterIsOutOfRange(t, KeptAt(t, n, n - size + j), g, n - size + j, u);
    }
    FindAt(fecs, number, index);
  }
}
