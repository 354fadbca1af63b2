/** A sender, a channel that loses single packets, and a receiver: what is put out for display. */
module Delivery {
  import opened Wrappers
  import opened Octets
  import opened RtpPacket
  import opened FecGeneration
  import opened FecRecovery
  import opened RecoveryTheorems
  import opened EndToEnd
  import opened GroupSelection
  import opened Sending
  import opened Receiving
  import opened Channel
  import Track = SequenceTracking
  import FecWire

  // ---- the last twenty packets that arrived ----

  /** From the first `n` frames back over `m` that arrived: the index of the last one counted. */
  function Back(t: Transmission, n: nat, m: nat): (r: nat)
    ensures r <= n
  {
    if n == 0 || m == 0 then n
    else if n - 1 in t.lost then Back(t, n - 1, m)
    else Back(t, n - 1, m - 1)
  }

  function Trail(t: Transmission, n: nat): (r: seq<nat>)
    ensures |r| == MEDIA_PACKET_DELAY
  {
    seq(MEDIA_PACKET_DELAY, u requires 0 <= u < MEDIA_PACKET_DELAY => Back(t, n, MEDIA_PACKET_DELAY - u))
  }

  function NextArrival(t: Transmission, i: nat): nat
  {
    if i + 1 in t.lost then i + 2 else i + 1
  }

  predicate IsTrail(t: Transmission, tr: seq<nat>, n: nat)
  {
    && |tr| == MEDIA_PACKET_DELAY && tr[0] >= 1 && (tr[0] >= 30 || tr[1] == tr[0] + 1)
    && (forall u :: 0 <= u < MEDIA_PACKET_DELAY ==> tr[u] < n && tr[u] !in t.lost)
    && (forall u :: 1 <= u < MEDIA_PACKET_DELAY ==> tr[u] == NextArrival(t, tr[u - 1]))
    && n <= NextArrival(t, tr[MEDIA_PACKET_DELAY - 1])
  }

  lemma {:induction false} BackEarly(t: Transmission, n: nat, m: nat)
    requires SparseLosses(t) && m <= n <= 31
    ensures Back(t, n, m) == n - m
  {
    if m > 0 {
      BackEarly(t, n - 1, m - 1);
    }
  }

  lemma {:induction false} TrailNext(t: Transmission, n: nat)
    ensures Trail(t, n + 1) == if n in t.lost then Trail(t, n) else Trail(t, n)[1..] + [n]
  {
    var next := if n in t.lost then Trail(t, n) else Trail(t, n)[1..] + [n];
    forall u | 0 <= u < MEDIA_PACKET_DELAY ensures Trail(t, n + 1)[u] == next[u] {
      assert Back(t, n + 1, MEDIA_PACKET_DELAY - u)
          == if n in t.lost then Back(t, n, MEDIA_PACKET_DELAY - u) else Back(t, n, MEDIA_PACKET_DELAY - u - 1);
      assert Back(t, n, 0) == n;
    }
  }

  lemma {:induction false} TrailIs(t: Transmission, n: nat)
    requires SparseLosses(t) && n >= 21
    ensures IsTrail(t, Trail(t, n), n)
  {
    if n == 21 {
      forall u | 0 <= u < MEDIA_PACKET_DELAY ensures Trail(t, n)[u] == u + 1 {
        BackEarly(t, n, MEDIA_PACKET_DELAY - u);
      }
    } else {
      TrailIs(t, n - 1);
      TrailNext(t, n - 1);
      hide Trail;
      TrailGoesOn(t, Trail(t, n - 1), n - 1);
    }
  }

  lemma {:induction false} TrailGoesOn(t: Transmission, tr: seq<nat>, n: nat)
    requires SparseLosses(t) && IsTrail(t, tr, n)
    ensures IsTrail(t, if n in t.lost then tr else tr[1..] + [n], n + 1)
  {
  }

  // ---- the receiver's buffer ----

  /** How many of the first `n` frames' packets are lost. */
  function LostBelow(t: Transmission, n: nat): nat
  {
    if n == 0 then 0 else LostBelow(t, n - 1) + if n - 1 in t.lost then 1 else 0
  }

  lemma {:induction false} LostLate(t: Transmission, n: nat)
    requires SparseLosses(t)
    ensures n <= 31 ==> LostBelow(t, n) == 0
    ensures n >= 31 ==> LostBelow(t, n) <= n - 31
  {
    if n > 0 {
      LostLate(t, n - 1);
    }
  }

  /** Twenty indices of frames, none of them the first frame's. */
  predicate Within(t: Transmission, tr: seq<nat>)
  {
    |tr| == MEDIA_PACKET_DELAY && forall u :: 0 <= u < |tr| ==> 1 <= tr[u] < |t.frames|
  }

  function Originals(t: Transmission, tr: seq<nat>): (r: seq<Received>)
    requires Within(t, tr)
    ensures |r| == |tr|
  {
    seq(|tr|, u requires 0 <= u < |tr| => Original(t, tr[u]))
  }

  /** The frames 1 to `d`, lost ones repaired; frame 0 is lost to the receiver's probation. */
  function Ideals(t: Transmission, d: nat): (r: seq<Received>)
    requires Plain(t) && 1 <= d <= |t.frames|
    ensures |r| == d - 1
  {
    seq(d - 1, j requires 0 <= j < d - 1 => Ideal(t, j + 1))
  }

  /** All that ever went into the receiver's buffers, in order, when `tr` arrived last. */
  function Line(t: Transmission, tr: seq<nat>): (r: seq<Received>)
    requires Plain(t) && Within(t, tr)
    ensures |r| == tr[0] + (MEDIA_PACKET_DELAY - 1)
  {
    Ideals(t, tr[0]) + Originals(t, tr)
  }

  function Shifted(tr: seq<nat>, n: nat): seq<nat>
    requires tr != []
  {
    tr[1..] + [n]
  }

  lemma {:induction false} OriginalsShifted(t: Transmission, tr: seq<nat>, n: nat)
    requires Within(t, tr) && 1 <= n < |t.frames|
    ensures Within(t, Shifted(tr, n))
    ensures Originals(t, Shifted(tr, n)) == Originals(t, tr)[1..] + [Original(t, n)]
    ensures Originals(t, tr) == [Original(t, tr[0])] + Originals(t, tr)[1..]
  {
    hide Original;
  }

  /** Another arrival without a loss before the decision point. */
  lemma {:induction false} LineGrows(t: Transmission, tr: seq<nat>, n: nat)
    requires Plain(t) && Within(t, tr) && 1 <= n < |t.frames|
    requires tr[0] !in t.lost && tr[1] == tr[0] + 1
    ensures Within(t, Shifted(tr, n)) && Line(t, Shifted(tr, n)) == Line(t, tr) + [Original(t, n)]
  {
    hide Original, Replacement, Plain;
    var d := tr[0];
    assert Ideals(t, d + 1) == Ideals(t, d) + [Original(t, d)];
    OriginalsShifted(t, tr, n);
    hide Ideals, Originals;
  }

  /** Another arrival when the packet before the decision point was lost. */
  lemma {:induction false} LineRepaired(t: Transmission, tr: seq<nat>, n: nat)
    requires Plain(t) && Within(t, tr) && 1 <= n < |t.frames|
    requires tr[0] !in t.lost && tr[0] + 1 in t.lost && tr[1] == tr[0] + 2
    ensures Within(t, Shifted(tr, n))
    ensures var line, d := Line(t, tr) + [Original(t, n)], tr[0];
      Line(t, Shifted(tr, n)) == Inserted(line, d, Replacement(t, d + 1))
  {
    hide Original, Replacement, Plain;
    var d := tr[0];
    assert Ideals(t, d + 2) == Ideals(t, d) + [Original(t, d)] + [Replacement(t, d + 1)];
    OriginalsShifted(t, tr, n);
    hide Ideals, Originals;
  }

  // ---- a lost packet is repaired ----

  /** Frame `g * k + x` is lost, twenty packets have arrived since, and `held` is what is left of the line. */
  predicate AtGap(t: Transmission, tr: seq<nat>, n: nat, held: seq<Received>, g: nat, x: nat)
    requires Plain(t)
  {
    && IsTrail(t, tr, n) && Within(t, tr) && n < |t.frames|
    && x < t.k && g * t.k + x in t.lost && tr[0] == g * t.k + x - 1 && tr[1] == g * t.k + x + 1
    && BUFFER_SIZE <= |held| <= |Line(t, tr)| + 1
    && held == (Line(t, tr) + [Original(t, n)])[|Line(t, tr)| + 1 - |held|..]
  }

  lemma {:induction false} SameGroup(t: Transmission, g: nat, x: nat, u: nat)
    requires Plain(t) && SparseLosses(t) && x < t.k && u < t.k && u != x && g * t.k + x in t.lost
    ensures g * t.k + u !in t.lost
  {
    RemainderUnique(g * t.k + x, t.k, g, x);
    RemainderUnique(g * t.k + u, t.k, g, u);
  }

  lemma {:induction false} TrailBounds(t: Transmission, tr: seq<nat>, n: nat, u: nat)
    requires IsTrail(t, tr, n) && 1 <= u < MEDIA_PACKET_DELAY
    ensures tr[1] + (u - 1) <= tr[u] <= tr[1] + 2 * (u - 1)
  {
    if u > 1 {
      TrailBounds(t, tr, n, u - 1);
    }
  }

  /** Behind the gap the rest of the lost packet's group arrived without a further gap. */
  lemma {:induction false} RestFollows(t: Transmission, tr: seq<nat>, n: nat, g: nat, x: nat, u: nat)
    requires Plain(t) && SparseLosses(t) && IsTrail(t, tr, n) && x < u < t.k
    requires g * t.k + x in t.lost && tr[1] == g * t.k + x + 1
    ensures tr[u - x] == g * t.k + u
  {
    hide SparseLosses, SendableFrames;
    if u - x > 1 {
      RestFollows(t, tr, n, g, x, u - 1);
      SameGroup(t, g, x, u);
      assert tr[u - x] == NextArrival(t, tr[u - x - 1]);
    }
  }

  /** By then the group's parity packet has arrived, and fewer than fifty newer ones. */
  lemma {:induction false} ParityArrived(t: Transmission, tr: seq<nat>, n: nat, groups: nat, g: nat, x: nat)
    requires Plain(t) && SparseLosses(t) && IsTrail(t, tr, n) && x < t.k && Complete(t, n, groups)
    requires g * t.k + x in t.lost && tr[1] == g * t.k + x + 1
    ensures 1 <= g < groups <= g + BUFFER_SIZE
  {
    TrailBounds(t, tr, n, MEDIA_PACKET_DELAY - 1);
    assert g * t.k + x >= 31 && g * t.k + x + 20 <= n <= g * t.k + x + 39;
    hide SparseLosses, IsTrail, SendableFrames;
    GroupsBetween(g, groups, t.k, n, x);
  }

  /** Of the first `n` frames' groups `groups` are complete. */
  predicate Complete(t: Transmission, n: nat, groups: nat)
  {
    groups * t.k <= n < groups * t.k + t.k
  }

  lemma {:induction false} GroupsBetween(g: nat, groups: nat, k: nat, n: nat, x: nat)
    requires 2 <= k <= 20 && x < k && groups * k <= n < groups * k + k
    requires g * k + x >= 31 && g * k + x + 20 <= n <= g * k + x + 39
    ensures 1 <= g < groups <= g + BUFFER_SIZE
  {
    Multiples(groups, g, k);
    Multiples(g + 25, groups, k);
    assert (g + 25) * k == g * k + 25 * k;
    assert g == 0 ==> g * k == 0;
  }

  lemma {:induction false} LineAt(t: Transmission, tr: seq<nat>, j: nat)
    requires Plain(t) && Within(t, tr) && j < |Line(t, tr)|
    ensures Line(t, tr)[j] == if j < tr[0] - 1 then Ideal(t, j + 1) else Original(t, tr[j - (tr[0] - 1)])
  {
    hide Ideal, Original, SendableFrames;
  }

  /** Every other member of the lost packet's group stands where recovery looks for it. */
  lemma {:induction false} MemberInPlace(t: Transmission, tr: seq<nat>, n: nat, held: seq<Received>, g: nat, x: nat,
                                         u: nat)
    requires Plain(t) && SparseLosses(t) && AtGap(t, tr, n, held, g, x) && u < t.k && u != x && g * t.k + u < |t.frames|
    ensures 0 <= SlotOf(|held|, x, u) < |held| && held[SlotOf(|held|, x, u)] == Original(t, g * t.k + u)
  {
    hide Line, Ideal, Original, SparseLosses, SendableFrames, IsTrail;
    var line := Line(t, tr);
    var j := if u < x then g * t.k + u - 1 else tr[0] + (u - x - 1);
    assert 0 <= SlotOf(|held|, x, u) < |held| && held[SlotOf(|held|, x, u)] == line[j];
    hide AtGap, SlotOf;
    GapMember(t, tr, n, held, g, x, u);
  }

  lemma {:induction false} GapMember(t: Transmission, tr: seq<nat>, n: nat, held: seq<Received>, g: nat, x: nat, u: nat)
    requires Plain(t) && SparseLosses(t) && AtGap(t, tr, n, held, g, x) && u < t.k && u != x && g * t.k + u < |t.frames|
    ensures Within(t, tr)
    ensures var j := if u < x then g * t.k + u - 1 else tr[0] + (u - x - 1);
      0 <= j < |Line(t, tr)| && Line(t, tr)[j] == Original(t, g * t.k + u)
  {
    hide Line, Original, SparseLosses, SendableFrames, Replacement;
    var j := if u < x then g * t.k + u - 1 else tr[0] + (u - x - 1);
    LineAt(t, tr, j);
    SameGroup(t, g, x, u);
    if x < u {
      RestFollows(t, tr, n, g, x, u);
    }
  }

  /** Member `m` of a group as it stands in the buffer. */
  predicate StandsFor(r: Received, m: Media)
  {
    && r == Received(DecodeJpeg(m.octets).packet, m.octets)
    && r.packet.header.sequenceNumber == m.number
  }

  lemma {:induction false} OriginalStands(t: Transmission, i: nat)
    requires Plain(t) && i < |t.frames|
    ensures StandsFor(Original(t, i), Member(t, i))
  {
    hide DecodeJpeg, FrameMedia, PacketAt, SendableFrames, MarkerAt;
    MemberIs(t, i);
    MemberSize(t, i);
    PacketFields(t, i);
  }

  predicate InSlot(held: seq<Received>, x: nat, u: nat, m: Media)
  {
    0 <= SlotOf(|held|, x, u) < |held| && StandsFor(held[SlotOf(|held|, x, u)], m)
  }

  lemma {:induction false} MemberStands(t: Transmission, tr: seq<nat>, n: nat, held: seq<Received>, g: nat, x: nat,
                                        u: nat)
    requires Plain(t) && SparseLosses(t) && AtGap(t, tr, n, held, g, x) && (g + 1) * t.k <= |t.frames| && u < t.k
      && u != x
    ensures InSlot(held, x, u, Group(t, g)[u])
  {
    hide Group, AtGap, SlotOf, SparseLosses, Plain, StandsFor, Original, Member;
    GroupAt(t, g, u, g * t.k + u);
    MemberInPlace(t, tr, n, held, g, x, u);
    OriginalStands(t, g * t.k + u);
  }

  lemma {:induction false} GroupBuffered(t: Transmission, tr: seq<nat>, n: nat, held: seq<Received>, g: nat, x: nat)
    requires Plain(t) && SparseLosses(t) && AtGap(t, tr, n, held, g, x) && (g + 1) * t.k <= |t.frames|
    ensures Buffered(held, Group(t, g), x)
  {
    hide Group, AtGap, SlotOf, SparseLosses, Plain, InSlot, Buffered;
    forall u | 0 <= u < |Group(t, g)| && u != x ensures InSlot(held, x, u, Group(t, g)[u]) {
      MemberStands(t, tr, n, held, g, x, u);
    }
    BufferedFrom(held, Group(t, g), x);
  }

  lemma {:induction false} BufferedFrom(held: seq<Received>, group: seq<Media>, x: nat)
    requires forall u :: 0 <= u < |group| && u != x ==> InSlot(held, x, u, group[u])
    ensures Buffered(held, group, x)
  {
    hide DecodeJpeg;
    forall u | 0 <= u < |group| && u != x
      ensures 0 <= SlotOf(|held|, x, u) < |held| && StandsFor(held[SlotOf(|held|, x, u)], group[u])
    {
      assert InSlot(held, x, u, group[u]);
    }
  }

  /** The parity packet kept for group `g`, as if its member `x` were to be rebuilt from it. */
  lemma {:induction false} KeptFor(t: Transmission, n: nat, g: nat, x: nat)
    requires Plain(t) && n * t.k <= |t.frames| && g < n && x < t.k
    ensures (g + 1) * t.k <= |t.frames| && OneMissing(FecHeader(t, g), Group(t, g), x, RFC_OFFSET)
    ensures KeptAt(t, n, g) == ReceivedFec(ParsedFec(FecHeader(t, g), Group(t, g), x, RFC_OFFSET),
                                           RawFec(FecHeader(t, g), Group(t, g), x, RFC_OFFSET))
  {
    hide SendableFrames, Group, OneMissing, FecHeader, FecMessage, RawFec, Folded, FecWire.Recovered;
    Below(g, n, t.k);
    GroupMisses(t, g, x);
    GroupMisses(t, g, 0);
  }

  /** Twenty packets behind its gap, a lost packet comes back. */
  lemma {:induction false} LossRepaired(t: Transmission, tr: seq<nat>, n: nat, groups: nat, held: seq<Received>,
                                        g: nat, x: nat, i: nat)
    requires Plain(t) && SparseLosses(t) && AtGap(t, tr, n, held, g, x) && Complete(t, n, groups)
    requires i == g * t.k + x && i + 1 < |t.frames| && groups * t.k <= |t.frames|
    ensures |held| >= BUFFER_SIZE && RFC_OFFSET <= MIN_PACKET
    ensures Recover(held, Kept(t, groups), RFC_OFFSET) == Recovered(Replacement(t, i))
  {
    hide Plain, SparseLosses, AtGap, Kept, KeptAt, Recover, Group, FecHeader, OneMissing, SentGroup, Buffered,
         FindCandidate,
         ParsedFec, RawFec, DecodeJpeg, PacketAt, Original, Replacement, Member, ClearedPacket, Cleared, MarkerAt;
    GapGroup(t, tr, n, groups, held, g, x);
    KeptFor(t, groups, g, x);
    GroupBuffered(t, tr, n, held, g, x);
    GroupIs(t, g);
    var index := FindsGroup(t, groups, g, x);
    NumberAtGap(t, tr, n, held, g, x, i);
    MemberIs(t, i);
    GroupAt(t, g, x, i);
    LossRepairedFrom(held, Kept(t, groups), index, FecHeader(t, g), Group(t, g), x, Start(t, g),
                     PacketAt(t.first, t.ssrc, t.frames, i));
    ReplacementIs(t, i);
  }

  lemma {:induction false} GapGroup(t: Transmission, tr: seq<nat>, n: nat, groups: nat, held: seq<Received>, g: nat,
                                    x: nat)
    requires Plain(t) && SparseLosses(t) && AtGap(t, tr, n, held, g, x) && Complete(t, n, groups)
    ensures x < t.k && n <= |t.frames| && |held| >= BUFFER_SIZE && 1 <= g < groups <= g + BUFFER_SIZE
  {
    hide SendableFrames, SparseLosses, IsTrail, Line, Original, Complete;
    ParityArrived(t, tr, n, groups, g, x);
  }

  lemma {:induction false} ReplacementIs(t: Transmission, i: nat)
    requires Plain(t) && i < |t.frames|
    ensures |Member(t, i).octets| >= MIN_PACKET
    ensures Replacement(t, i)
         == Received(ClearedPacket(PacketAt(t.first, t.ssrc, t.frames, i)), Cleared(Member(t, i).octets))
  {
    MemberSize(t, i);
    hide Plain, PacketAt, Member, Cleared, ClearedPacket;
  }

  lemma {:induction false} NumberAtGap(t: Transmission, tr: seq<nat>, n: nat, held: seq<Received>, g: nat, x: nat,
                                       i: nat)
    requires Plain(t) && AtGap(t, tr, n, held, g, x) && i == g * t.k + x && i + 1 < |t.frames|
    ensures |held| >= BUFFER_SIZE
    ensures held[|held| - MEDIA_PACKET_DELAY].packet.header.sequenceNumber == Start(t, g) + x + 1
  {
    GapNumber(t, tr, n, held, g, x);
    hide Plain, AtGap, PacketAt, Member;
    PacketFields(t, i + 1);
  }

  lemma {:induction false} LossRepairedFrom(held: seq<Received>, fecs: seq<ReceivedFec>, index: nat, h: RtpHeader,
                                            group: seq<Media>, x: nat, first: int, p: JpegPacket)
    requires x < |group| && |held| >= BUFFER_SIZE && Buffered(held, group, x) && SentGroup(group, first)
    requires OneMissing(h, group, x, RFC_OFFSET)
    requires held[|held| - MEDIA_PACKET_DELAY].packet.header.sequenceNumber == first + x + 1
    requires FindCandidate(fecs, first + x) == Found(index) && index < |fecs|
    requires fecs[index] == ReceivedFec(ParsedFec(h, group, x, RFC_OFFSET), RawFec(h, group, x, RFC_OFFSET))
    requires DecodeJpeg(group[x].octets) == JpegParse(true, p) && MarkerAt(p.data, |p.data| - 2)
    ensures |group[x].octets| >= MIN_PACKET && RFC_OFFSET <= MIN_PACKET
    ensures Recover(held, fecs, RFC_OFFSET) == Recovered(Received(ClearedPacket(p), Cleared(group[x].octets)))
  {
    hide OneMissing, Buffered, ParsedFec, RawFec, DecodeJpeg, MarkerAt, FindCandidate, Recover, Consecutive, Cleared;
    GapIsRepaired(held, fecs, index, h, group, x, first, p, group[x].octets);
  }

  lemma {:induction false} GapNumber(t: Transmission, tr: seq<nat>, n: nat, held: seq<Received>, g: nat, x: nat)
    requires Plain(t) && AtGap(t, tr, n, held, g, x)
    ensures |held| >= BUFFER_SIZE && held[|held| - MEDIA_PACKET_DELAY] == Original(t, g * t.k + x + 1)
    ensures held[|held| - MEDIA_PACKET_DELAY - 1] == Original(t, g * t.k + x - 1)
  {
    hide Line, Original, SendableFrames, Ideal;
    LineAt(t, tr, tr[0] - 1);
    LineAt(t, tr, tr[0]);
  }

  // ---- one more media packet ----

  /** A full buffer without a gap at the decision point lets its oldest packet go. */
  lemma {:induction false} Passes(full: seq<Received>, r: nat, corrected: nat, fecs: seq<ReceivedFec>)
    requires r + BUFFER_SIZE <= |full| && Gap(full[r..]) == 1 && RFC_OFFSET <= MIN_PACKET
    ensures AfterPacket(full[r..], Packets(full[..r]), corrected, 0, 0, fecs, RFC_OFFSET)
         == BufferState(full[r + 1..], Packets(full[..r + 1]), corrected, 0, 0, Taken)
  {
    hide Recover, Gap;
    assert full[r..][1..] == full[r + 1..];
    assert Packets(full[..r]) + [full[r].packet] == Packets(full[..r + 1]);
  }

  function Inserted(full: seq<Received>, at: nat, y: Received): (r: seq<Received>)
    requires at <= |full|
    ensures |r| == |full| + 1
  {
    full[..at] + [y] + full[at..]
  }

  predicate RepairedWith(held: seq<Received>, fecs: seq<ReceivedFec>, y: Received)
  {
    |held| >= BUFFER_SIZE && Gap(held) == 2 && Recover(held, fecs, RFC_OFFSET) == Recovered(y)
  }

  /** A full buffer whose gap is repaired with `y`. */
  lemma {:induction false} Repairs(full: seq<Received>, r: nat, corrected: nat, fecs: seq<ReceivedFec>, at: nat,
                                   y: Received)
    requires r + BUFFER_SIZE <= |full| && at == |full| - MEDIA_PACKET_DELAY && RepairedWith(full[r..], fecs, y)
    ensures AfterPacket(full[r..], Packets(full[..r]), corrected, 0, 0, fecs, RFC_OFFSET)
         == BufferState(Inserted(full, at, y)[r + 1..], Packets(Inserted(full, at, y)[..r + 1]), corrected + 1, 0, 0, Taken)
  {
    hide Recover, Gap;
    var whole := Inserted(full, at, y);
    assert WithRecovered(full[r..], y) == whole[r..];
    assert whole[r..][1..] == whole[r + 1..] && whole[..r] == full[..r];
    hide WithRecovered, Inserted;
    assert Packets(whole[..r]) + [whole[r].packet] == Packets(whole[..r + 1]);
  }

  /** How many packets have gone on to the frame buffer when the decisions have reached frame `d`. */
  function Outside(d: nat, corrected: nat): int
  {
    if d <= 30 then 0 else d - 30 - corrected
  }

  /**
   * The buffers hold the line up to twenty packets behind frame `d`, `c` losses before that one are repaired, and
   * nothing was given up.
   */
  predicate Holds(line: seq<Received>, d: nat, c: nat, b: BufferState)
  {
    && b.corrected == c && b.uncorrectable == 0 && b.faults == 0
    && 1 <= d && |line| == d + (MEDIA_PACKET_DELAY - 1) && 0 <= Outside(d, c) < d
    && b.incoming == line[Outside(d, c)..] && b.frames == Packets(line[..Outside(d, c)])
  }

  /** The state after one more packet. */
  function Next(b: BufferState, x: Received, fecs: seq<ReceivedFec>): BufferState
  {
    AfterPacket(b.incoming + [x], b.frames, b.corrected, b.uncorrectable, b.faults, fecs, RFC_OFFSET)
  }

  lemma {:induction false} HoldsPushed(line: seq<Received>, d: nat, c: nat, b: BufferState, x: Received)
    requires Holds(line, d, c, b)
    ensures var r := Outside(d, c); b.incoming + [x] == (line + [x])[r..] && b.frames == Packets((line + [x])[..r])
  {
    hide Packets;
    assert (line + [x])[Outside(d, c)..] == line[Outside(d, c)..] + [x];
    assert (line + [x])[..Outside(d, c)] == line[..Outside(d, c)];
  }

  lemma {:induction false} HoldsGrown(line: seq<Received>, d: nat, b: BufferState, x: Received, fecs: seq<ReceivedFec>)
    requires Holds(line, d, 0, b) && d < 30
    ensures Holds(line + [x], d + 1, 0, Next(b, x, fecs))
  {
    HoldsPushed(line, d, 0, b, x);
    hide Recover, Gap, Packets;
  }

  lemma {:induction false} HoldsPassed(line: seq<Received>, d: nat, c: nat, b: BufferState, x: Received,
                                       fecs: seq<ReceivedFec>)
    requires Holds(line, d, c, b) && d >= 30 && c <= d - 30
    requires |b.incoming| + 1 >= BUFFER_SIZE ==> Gap(b.incoming + [x]) == 1
    ensures Holds(line + [x], d + 1, c, Next(b, x, fecs))
  {
    HoldsPushed(line, d, c, b, x);
    hide Recover, Gap, Packets, AfterPacket;
    Passes(line + [x], Outside(d, c), c, fecs);
  }

  lemma {:induction false} HoldsRepaired(line: seq<Received>, d: nat, c: nat, b: BufferState, x: Received,
                                         fecs: seq<ReceivedFec>, y: Received, full: seq<Received>)
    requires Holds(line, d, c, b) && d >= 30 && c <= d - 30 && full == line + [x] && d <= |full|
    requires RepairedWith(b.incoming + [x], fecs, y)
    ensures Holds(Inserted(full, d, y), d + 2, c + 1, Next(b, x, fecs))
  {
    hide RepairedWith, Packets, AfterPacket, Holds, Inserted;
    HoldsPushed(line, d, c, b, x);
    HoldsCounts(line, d, c, b);
    Repairs(full, Outside(d, c), c, fecs, d, y);
    HoldsInserted(full, d, c, y, Next(b, x, fecs));
  }

  lemma {:induction false} HoldsCounts(line: seq<Received>, d: nat, c: nat, b: BufferState)
    requires Holds(line, d, c, b)
    ensures b.corrected == c && b.uncorrectable == 0 && b.faults == 0
    ensures |line| == d + (MEDIA_PACKET_DELAY - 1) && 0 <= Outside(d, c) < d
  {
    hide Packets;
  }

  lemma {:induction false} HoldsInserted(full: seq<Received>, d: nat, c: nat, y: Received, b: BufferState)
    requires 30 <= d && c <= d - 30 && |full| == d + MEDIA_PACKET_DELAY
    requires var r, whole := Outside(d, c), Inserted(full, d, y);
      b == BufferState(whole[r + 1..], Packets(whole[..r + 1]), c + 1, 0, 0, Taken)
    ensures Holds(Inserted(full, d, y), d + 2, c + 1, b)
  {
    hide Packets, Inserted;
  }

  predicate Stored(t: Transmission, tr: seq<nat>, b: BufferState)
    requires Plain(t) && Within(t, tr)
  {
    Holds(Line(t, tr), tr[0], LostBelow(t, tr[0]), b)
  }

  /** The gap the receiver sees at the decision point is the distance between the two arrivals there. */
  lemma {:induction false} GapIs(t: Transmission, tr: seq<nat>, n: nat, b: BufferState)
    requires Plain(t) && Within(t, tr) && n < |t.frames| && Stored(t, tr, b) && |b.incoming| + 1 >= BUFFER_SIZE
    ensures Gap(b.incoming + [Original(t, n)]) + tr[0] == tr[1]
  {
    hide LostBelow, SendableFrames, Member, PacketAt, Packets, Line;
    PacketFields(t, tr[0]);
    PacketFields(t, tr[1]);
    LineAt(t, tr, tr[0] - 1);
    LineAt(t, tr, tr[0]);
    var held := b.incoming + [Original(t, n)];
    assert held[|held| - MEDIA_PACKET_DELAY] == Original(t, tr[1]);
    assert held[|held| - MEDIA_PACKET_DELAY - 1] == Original(t, tr[0]);
  }

  /** No loss before the decision point. */
  lemma {:induction false} GoesOn(t: Transmission, tr: seq<nat>, n: nat, b: BufferState, fecs: seq<ReceivedFec>)
    requires Plain(t) && SparseLosses(t) && Within(t, tr) && Stored(t, tr, b) && 1 <= n < |t.frames|
    requires tr[0] !in t.lost && tr[1] == tr[0] + 1
    ensures Within(t, Shifted(tr, n)) && Stored(t, Shifted(tr, n), Next(b, Original(t, n), fecs))
  {
    LineGrows(t, tr, n);
    LostLate(t, tr[0]);
    LostLate(t, tr[0] + 1);
    assert LostBelow(t, tr[0] + 1) == LostBelow(t, tr[0]);
    hide Line, Original, SparseLosses, Plain, LostBelow, Holds, Next;
    if tr[0] < 30 {
      HoldsGrown(Line(t, tr), tr[0], b, Original(t, n), fecs);
    } else {
      if |b.incoming| + 1 >= BUFFER_SIZE {
        GapIs(t, tr, n, b);
      }
      HoldsPassed(Line(t, tr), tr[0], LostBelow(t, tr[0]), b, Original(t, n), fecs);
    }
  }

  /** The packet behind the oldest of the last twenty arrivals was lost. */
  predicate Gapped(t: Transmission, tr: seq<nat>, n: nat)
  {
    IsTrail(t, tr, n) && tr[0] >= 30 && tr[0] + 1 in t.lost && tr[1] == tr[0] + 2 && 1 <= n < |t.frames|
  }

  lemma {:induction false} ComesBack(t: Transmission, tr: seq<nat>, n: nat, groups: nat, b: BufferState)
    requires Plain(t) && SparseLosses(t) && Within(t, tr) && Stored(t, tr, b) && Gapped(t, tr, n)
    requires Complete(t, n, groups) && groups * t.k <= |t.frames|
    ensures Within(t, Shifted(tr, n)) && Stored(t, Shifted(tr, n), Next(b, Original(t, n), Kept(t, groups)))
  {
    hide Line, Original, SparseLosses, SendableFrames, Recover, Kept, Replacement, Complete, Holds, Next;
    LineRepaired(t, tr, n);
    hide IsTrail;
    LostLate(t, tr[0]);
    GapAt(t, tr, n, groups, b);
    GapIs(t, tr, n, b);
    assert LostBelow(t, tr[0] + 2) == LostBelow(t, tr[0]) + 1;
    HoldsRepaired(Line(t, tr), tr[0], LostBelow(t, tr[0]), b, Original(t, n), Kept(t, groups), Replacement(t,
                  tr[0] + 1),
                  Line(t, tr) + [Original(t, n)]);
  }

  lemma {:induction false} GapAt(t: Transmission, tr: seq<nat>, n: nat, groups: nat, b: BufferState)
    requires Plain(t) && SparseLosses(t) && Within(t, tr) && Stored(t, tr, b) && Gapped(t, tr, n)
    requires Complete(t, n, groups) && groups * t.k <= |t.frames|
    ensures |b.incoming| + 1 >= BUFFER_SIZE && RFC_OFFSET <= MIN_PACKET
    ensures Recover(b.incoming + [Original(t, n)], Kept(t, groups), RFC_OFFSET) == Recovered(Replacement(t, tr[0] + 1))
  {
    hide Line, Original, SparseLosses, LostBelow, Recover, Packets, Kept, Replacement, IsTrail, SendableFrames,
         Complete;
    LostLate(t, tr[0]);
    HoldsPushed(Line(t, tr), tr[0], LostBelow(t, tr[0]), b, Original(t, n));
    var i, held := tr[0] + 1, b.incoming + [Original(t, n)];
    var g, x := i / t.k, i % t.k;
    assert i == g * t.k + x by {
      assert i == t.k * g + x;
    }
    assert AtGap(t, tr, n, held, g, x);
    hide AtGap, Stored;
    LossRepaired(t, tr, n, groups, held, g, x, i);
  }

  // ---- the whole run ----

  /** A media packet as it arrives: read by the JPEG grammar, numbered `number`. */
  predicate MediaPacket(x: Received, ssrc: uint32, number: int)
  {
    && DecodeJpeg(x.octets) == JpegParse(true, x.packet) && x.packet.header.ssrc == ssrc
    && |x.packet.data| >= 2 && x.packet.header.sequenceNumber == number
  }

  lemma {:induction false} OriginalArrives(t: Transmission, i: nat)
    requires Plain(t) && i < |t.frames|
    ensures MediaPacket(Original(t, i), t.ssrc, t.first + i) && Original(t, i).octets == Member(t, i).octets
  {
    MemberIs(t, i);
    PacketFields(t, i);
    hide DecodeJpeg, PacketAt, Member, Plain;
  }

  function BufferOf(v: View): BufferState
  {
    BufferState(v.incoming, v.frames, v.corrected, v.uncorrectable, v.faults, Taken)
  }

  /** Only the media side has changed. */
  predicate ParityKept(v: View, w: View)
  {
    w.fec == v.fec && w.fecs == v.fecs
  }

  lemma {:induction false} MediaTaken(v: View, x: Received, ssrc: uint32, number: uint16, w: View)
    requires MediaPacket(x, ssrc, number) && RFC_OFFSET <= MIN_PACKET
    requires w == MessageHandled(v, x.octets, ssrc, RFC_OFFSET).0
    ensures ParityKept(v, w) && w.jpeg == Some(Track.Step(Tracked(v.jpeg, number), number))
    ensures BufferOf(w) == if Track.Judge(Tracked(v.jpeg, number), number).Accepting()
      then Next(BufferOf(v), x, v.fecs).(handling := Taken) else BufferOf(v)
  {
    hide DecodeJpeg, DecodeFec, Track.Step, Track.Judge, Track.Initial, FecHandled, Recover, Gap, WithRecovered;
  }

  /** The media tracker has validated its source and seen packet `i` last. */
  predicate InStep(t: Transmission, i: nat, u: Option<Track.Tracker>)
  {
    u.Some? && u.value.probation == 0 && u.value.maxSeq as int == t.first + i
  }

  predicate Running(t: Transmission, tr: seq<nat>, n: nat, v: View)
    requires Plain(t)
  {
    && Within(t, tr) && IsTrail(t, tr, n)
    && Stored(t, tr, BufferOf(v)) && InStep(t, tr[MEDIA_PACKET_DELAY - 1], v.jpeg)
  }

  /** The first packets, before the buffer has filled up so far that decisions matter. */
  predicate Starting(t: Transmission, n: nat, v: View)
    requires n <= |t.frames|
  {
    && BufferOf(v) == BufferState(FirstOriginals(t, n), [], 0, 0, 0, Taken)
    && Followed(t.first, n, v.jpeg)
  }

  function FirstOriginals(t: Transmission, n: nat): (r: seq<Received>)
    requires n <= |t.frames|
    ensures |r| == if n == 0 then 0 else n - 1
  {
    var size := if n == 0 then 0 else n - 1;
    seq(size, i requires 0 <= i < size => Original(t, i + 1))
  }

  lemma {:induction false} MediaStep(t: Transmission, tr: seq<nat>, n: nat, groups: nat, v: View, w: View)
    requires Plain(t) && SparseLosses(t) && Running(t, tr, n, v) && n < |t.frames| && n !in t.lost
    requires Complete(t, n, groups) && groups * t.k <= |t.frames| && v.fecs == Kept(t, groups)
    requires RFC_OFFSET <= MIN_PACKET && w == MessageHandled(v, Member(t, n).octets, t.ssrc, RFC_OFFSET).0
    ensures ParityKept(v, w) && Running(t, Shifted(tr, n), n + 1, w)
  {
    hide MessageHandled, Kept, SendableFrames, SparseLosses, Member, Original, Complete, MediaPacket, Next,
         Track.Step, Track.Judge,
         Stored, IsTrail, InStep;
    OriginalArrives(t, n);
    TrailShifts(t, tr, n);
    InStepNext(t, tr, n, v);
    MediaTaken(v, Original(t, n), t.ssrc, t.first + n, w);
    StoredNext(t, tr, n, groups, BufferOf(v));
    StoredAnyway(t, Shifted(tr, n), Next(BufferOf(v), Original(t, n), v.fecs));
  }

  lemma {:induction false} TrailShifts(t: Transmission, tr: seq<nat>, n: nat)
    requires SparseLosses(t) && IsTrail(t, tr, n) && n !in t.lost
    ensures n >= 1 && IsTrail(t, Shifted(tr, n), n + 1) && Shifted(tr, n)[MEDIA_PACKET_DELAY - 1] == n
  {
    TrailGoesOn(t, tr, n);
    hide SparseLosses;
  }

  lemma {:induction false} StoredAnyway(t: Transmission, tr: seq<nat>, b: BufferState)
    requires Plain(t) && Within(t, tr) && Stored(t, tr, b)
    ensures Stored(t, tr, b.(handling := Taken))
  {
    hide Line, Plain, LostBelow, Packets;
  }

  lemma {:induction false} StoredNext(t: Transmission, tr: seq<nat>, n: nat, groups: nat, b: BufferState)
    requires Plain(t) && SparseLosses(t) && Within(t, tr) && Stored(t, tr, b) && IsTrail(t, tr, n)
      && 1 <= n < |t.frames|
    requires Complete(t, n, groups) && groups * t.k <= |t.frames|
    ensures Within(t, Shifted(tr, n)) && Stored(t, Shifted(tr, n), Next(b, Original(t, n), Kept(t, groups)))
  {
    hide Plain, SparseLosses, Stored, Complete, Next, Original, Kept;
    if tr[0] + 1 in t.lost {
      ComesBack(t, tr, n, groups, b);
    } else {
      GoesOn(t, tr, n, b, Kept(t, groups));
    }
  }

  lemma {:induction false} InStepNext(t: Transmission, tr: seq<nat>, n: nat, v: View)
    requires Plain(t) && IsTrail(t, tr, n) && InStep(t, tr[MEDIA_PACKET_DELAY - 1], v.jpeg) && n < |t.frames|
      && n !in t.lost
    requires SparseLosses(t)
    ensures var before := Tracked(v.jpeg, t.first + n);
      Track.Judge(before, t.first + n).Accepting() && InStep(t, n, Some(Track.Step(before, t.first + n)))
  {
    var last := tr[MEDIA_PACKET_DELAY - 1];
    assert 1 <= n - last <= 2;
    hide SendableFrames, IsTrail, SparseLosses;
    NextInOrder(v.jpeg.value, t.first + n, n - last);
  }

  lemma {:induction false} FirstNext(t: Transmission, n: nat)
    requires n < |t.frames|
    ensures FirstOriginals(t, n + 1) == if n == 0 then [] else FirstOriginals(t, n) + [Original(t, n)]
  {
    hide Original;
  }

  lemma {:induction false} StartingStep(t: Transmission, n: nat, v: View, w: View)
    requires Plain(t) && n <= 20 && n < |t.frames| && Starting(t, n, v)
    requires RFC_OFFSET <= MIN_PACKET && w == MessageHandled(v, Member(t, n).octets, t.ssrc, RFC_OFFSET).0
    ensures ParityKept(v, w) && Starting(t, n + 1, w)
  {
    hide MessageHandled, SendableFrames, Member, Original, MediaPacket, Track.Step, Track.Judge, Followed,
         FirstOriginals;
    OriginalArrives(t, n);
    FollowsOn(t.first, n, v.jpeg);
    FirstNext(t, n);
    MediaTaken(v, Original(t, n), t.ssrc, t.first + n, w);
  }

  /** With the twenty-first packet the first trail is complete. */
  lemma {:induction false} StartedIsRunning(t: Transmission, v: View)
    requires Plain(t) && SparseLosses(t) && 21 <= |t.frames| && Starting(t, 21, v)
    ensures Running(t, Trail(t, 21), 21, v)
  {
    TrailIs(t, 21);
    hide SendableFrames, IsTrail, Original;
    var tr := Trail(t, 21);
    forall u | 0 <= u < MEDIA_PACKET_DELAY ensures tr[u] == u + 1 {
      BackEarly(t, 21, MEDIA_PACKET_DELAY - u);
    }
    LostLate(t, 1);
    hide Trail, SparseLosses, Plain;
    FirstLine(t, tr);
    hide FirstOriginals, Line;
  }

  lemma {:induction false} FirstLine(t: Transmission, tr: seq<nat>)
    requires Plain(t) && 21 <= |t.frames| && |tr| == MEDIA_PACKET_DELAY
    requires forall u :: 0 <= u < MEDIA_PACKET_DELAY ==> tr[u] == u + 1
    ensures Within(t, tr) && Line(t, tr) == FirstOriginals(t, 21)
  {
    hide Original, Plain;
  }

  /** What holds after `n` frames. */
  predicate Reached(t: Transmission, n: nat, v: View)
    requires Plain(t) && n <= |t.frames|
  {
    && (n < 21 ==> Starting(t, n, v))
    && (n >= 21 ==> Running(t, Trail(t, n), n, v))
  }

  lemma {:induction false} MediaReached(t: Transmission, n: nat, groups: nat, v: View, w: View)
    requires Plain(t) && SparseLosses(t) && n < |t.frames| && Reached(t, n, v)
    requires Complete(t, n, groups) && groups * t.k <= |t.frames| && v.fecs == Kept(t, groups)
    requires RFC_OFFSET <= MIN_PACKET
    requires w == if n in t.lost then v else MessageHandled(v, Member(t, n).octets, t.ssrc, RFC_OFFSET).0
    ensures ParityKept(v, w) && Reached(t, n + 1, w)
  {
    hide MessageHandled, SendableFrames, Member, Complete, Kept, Starting, Running;
    assert n in t.lost ==> n >= 31;
    TrailNext(t, n);
    hide Trail, SparseLosses;
    if n in t.lost {
      SkippedFrame(t, Trail(t, n), n, v);
    } else if n < 21 {
      StartingStep(t, n, v, w);
      if n == 20 {
        StartedIsRunning(t, w);
      }
    } else {
      MediaStep(t, Trail(t, n), n, groups, v, w);
    }
  }

  lemma {:induction false} SkippedFrame(t: Transmission, tr: seq<nat>, n: nat, v: View)
    requires Plain(t) && SparseLosses(t) && Running(t, tr, n, v) && n in t.lost
    ensures Running(t, tr, n + 1, v)
  {
    hide Plain, Stored, InStep, Within;
    TrailGoesOn(t, tr, n);
    hide SparseLosses, IsTrail;
  }

  /** The whole receiver after `n` frames. */
  predicate OnCourse(t: Transmission, n: nat, v: View)
    requires Plain(t) && n <= |t.frames|
  {
    Reached(t, n, v) && GroupsOf(t, n) * t.k <= n && FecState(t, GroupsOf(t, n), v)
  }

  /** What the sender sends, and the channel lets through, for one frame. */
  lemma {:induction false} FrameReached(t: Transmission, n: nat, v: View)
    requires Plain(t) && SparseLosses(t) && n < |t.frames| && OnCourse(t, n, v)
    ensures OnCourse(t, n + 1, Handled(v, Arriving(t, n), t.ssrc))
  {
    hide SendableFrames, SparseLosses, Member, Kept, Reached, MessageHandled, FecMessage, Handled, GroupsOf, Full,
         Followed;
    GroupsNext(t, n);
    var groups := GroupsOf(t, n);
    var w := if n in t.lost then v else MessageHandled(v, Member(t, n).octets, t.ssrc, RFC_OFFSET).0;
    MediaReached(t, n, groups, v, w);
    HandledArriving(t, n, groups, Full(t, n + 1), v, w);
    if Full(t, n + 1) {
      FecStep(t, groups, w);
      StillReached(t, n + 1, w, MessageHandled(w, FecMessage(t, groups), t.ssrc, RFC_OFFSET).0);
    }
    GroupsNext(t, n + 1);
  }

  lemma {:induction false} StillReached(t: Transmission, n: nat, v: View, w: View)
    requires Plain(t) && n <= |t.frames| && Reached(t, n, v) && MediaKept(v, w)
    ensures Reached(t, n, w)
  {
    hide Plain, IsTrail, Stored, InStep, Trail, Within;
  }

  lemma {:induction false} HandledArriving(t: Transmission, n: nat, groups: nat, full: bool, v: View, w: View)
    requires Plain(t) && n < |t.frames| && RFC_OFFSET <= MIN_PACKET
    requires groups == GroupsOf(t, n) && full == Full(t, n + 1) && (full ==> (groups + 1) * t.k == n + 1)
    requires w == if n in t.lost then v else MessageHandled(v, Member(t, n).octets, t.ssrc, RFC_OFFSET).0
    ensures Handled(v, Arriving(t, n), t.ssrc)
         == if full then MessageHandled(w, FecMessage(t, groups), t.ssrc, RFC_OFFSET).0 else w
  {
    hide SendableFrames, Member, MessageHandled, FecMessage, Handled;
    var parity := if full then [FecMessage(t, groups)] else [];
    assert Arriving(t, n) == (if n in t.lost then [] else [Member(t, n).octets]) + parity;
    hide Arriving, Plain;
    HandledAfter(v, w, n in t.lost, Member(t, n).octets, parity, t.ssrc);
    if parity != [] {
      HandledOne(w, FecMessage(t, groups), t.ssrc);
    }
  }

  lemma {:induction false} HandledAfter(v: View, w: View, lost: bool, media: seq<byte>, parity: seq<seq<byte>>,
                                        ssrc: uint32)
    requires RFC_OFFSET <= MIN_PACKET && w == if lost then v else MessageHandled(v, media, ssrc, RFC_OFFSET).0
    ensures Handled(v, (if lost then [] else [media]) + parity, ssrc) == Handled(w, parity, ssrc)
    ensures Handled(w, [], ssrc) == w
  {
    hide MessageHandled;
    if lost {
      assert [] + parity == parity;
    } else {
      assert ([media] + parity)[1..] == parity;
    }
  }

  lemma {:induction false} RunReached(t: Transmission, n: nat)
    requires Plain(t) && SparseLosses(t) && n <= |t.frames|
    ensures OnCourse(t, n, ReceivedOf(t, n))
  {
    hide SendableFrames, SparseLosses, Handled, Arriving, OnCourse;
    if n == 0 {
      EmptyReached(t);
    } else {
      RunReached(t, n - 1);
      FrameReached(t, n - 1, ReceivedOf(t, n - 1));
    }
  }

  lemma {:induction false} EmptyReached(t: Transmission)
    requires Plain(t)
    ensures OnCourse(t, 0, EMPTY)
  {
    hide SendableFrames;
    GroupsNext(t, 0);
    assert FirstOriginals(t, 0) == [];
    assert Kept(t, 0) == [];
  }

  // ---- the theorem ----

  /** Between `Back(t, n, m)` and `n` exactly `m` packets arrived. */
  lemma {:induction false} BackCounts(t: Transmission, n: nat, m: nat)
    requires LostBelow(t, n) + m <= n
    ensures var d := Back(t, n, m); n - LostBelow(t, n) == d - LostBelow(t, d) + m
  {
    if n > 0 && m > 0 {
      if n - 1 in t.lost {
        BackCounts(t, n - 1, m);
      } else {
        BackCounts(t, n - 1, m - 1);
      }
    }
  }

  /** The packet displayed for frame `i`: as sent, or with cleared number and SSRC if it was lost and came back. */
  function Shown(t: Transmission, i: nat): (p: JpegPacket)
    requires i < |t.frames|
    ensures p.data == t.frames[i] && p.imageWidth == 48 && p.imageHeight == 36
    ensures p.typeSpecific == p.fragmentOffset == p.jpegType == p.quantizationTable == 0
    ensures p.header.marker && p.header.payloadType == 26 && !p.header.padding && p.header.csrcs == []
    ensures p.header.timestamp == (t.first + i) % 65536 * 3600
    ensures p.header.sequenceNumber == if i in t.lost then 0 else (t.first + i) % 65536
    ensures p.header.ssrc == if i in t.lost then 0 else t.ssrc
  {
    var p := PacketAt(t.first, t.ssrc, t.frames, i);
    if i in t.lost then ClearedPacket(p) else p
  }

  /**
   * Nothing is given up; every loss with twenty arrivals behind it is repaired; and but for the last fifty arrivals,
   * frame 0 counted, the frames 1, 2, 3 and so on have gone on for display, in order and without a gap.
   */
  predicate Delivered(t: Transmission, n: nat, v: View)
  {
    var arrived := n - LostBelow(t, n);
    && v.uncorrectable == 0 && v.faults == 0 && v.corrected == LostBelow(t, Back(t, n, MEDIA_PACKET_DELAY))
    && |v.frames| == (if arrived <= BUFFER_SIZE then 0 else arrived - BUFFER_SIZE)
    && forall j :: 0 <= j < |v.frames| ==> j + 1 < |t.frames| && v.frames[j] == Shown(t, j + 1)
  }

  lemma {:induction false} DeliveredInOrder(t: Transmission, n: nat)
    requires Plain(t) && SparseLosses(t) && n <= |t.frames|
    ensures Delivered(t, n, ReceivedOf(t, n))
  {
    RunReached(t, n);
    hide Plain, SparseLosses, ReceivedOf, Starting, Running;
    if n < 21 {
      NothingYet(t, n, ReceivedOf(t, n));
    } else {
      RunningDelivers(t, n, ReceivedOf(t, n));
    }
  }

  lemma {:induction false} NothingYet(t: Transmission, n: nat, v: View)
    requires SparseLosses(t) && n < 21 && n <= |t.frames| && Starting(t, n, v)
    ensures Delivered(t, n, v)
  {
    LostLate(t, n);
    LostLate(t, Back(t, n, MEDIA_PACKET_DELAY));
    hide SparseLosses, Back, LostBelow, FirstOriginals;
  }

  lemma {:induction false} RunningDelivers(t: Transmission, n: nat, v: View)
    requires Plain(t) && SparseLosses(t) && 21 <= n <= |t.frames| && Running(t, Trail(t, n), n, v)
    ensures Delivered(t, n, v)
  {
    var tr := Trail(t, n);
    LostLate(t, n);
    BackCounts(t, n, MEDIA_PACKET_DELAY);
    assert tr[0] == Back(t, n, MEDIA_PACKET_DELAY) && tr[0] < |t.frames|;
    hide SendableFrames, SparseLosses, Trail, IsTrail, InStep, LostBelow, Back;
    forall j | 0 <= j < |v.frames| ensures j + 1 < |t.frames| && v.frames[j] == Shown(t, j + 1) {
      LineAt(t, tr, j);
    }
    hide Line, Shown;
  }

  // ---- sender and receiver against each other ----

  lemma {:induction false} StreamIs(t: Transmission, fed: seq<Media>, n: nat)
    requires n <= |t.frames| && StreamOf(fed, t.first, t.ssrc, t.frames[..n])
    ensures |fed| == n && forall i :: 0 <= i < n ==> fed[i] == Member(t, i)
  {
    hide FrameMedia;
  }

  /** What the generator makes of frame `n`: silence, or the parity packet of the group it completes. */
  lemma {:induction false} EmittedFor(t: Transmission, fed: seq<Media>, n: nat, g: nat)
    requires Plain(t) && n < |t.frames| && StreamOf(fed, t.first, t.ssrc, t.frames[..n + 1]) && AllMedia(fed)
    requires g == GroupsOf(t, n) && RFC_OFFSET <= MIN_PACKET && fed != []
    ensures !Full(t, n + 1) ==> Expected(fed, t.k, RFC_OFFSET) == Nothing
    ensures Full(t, n + 1) ==> (g + 1) * t.k <= |t.frames|
    ensures Full(t, n + 1) ==> Expected(fed, t.k, RFC_OFFSET) == Emitted(ParityOctets(t, g))
  {
    hide SendableFrames, ParityOctets, Expected, GroupsOf, StreamOf;
    assert fed[..n + 1] == fed by {
      hide *;
      hide StreamOf;
      StreamIs(t, fed, n + 1);
    }
    GroupsNext(t, n);
    StreamIsConsecutive(fed, t.first, t.ssrc, t.frames[..n + 1]);
    CadenceAndCoverage(fed, t.first, t.k, RFC_OFFSET, n + 1);
    if Full(t, n + 1) {
      EmittedParity(t, fed, n, g);
    }
  }

  lemma {:induction false} EmittedParity(t: Transmission, fed: seq<Media>, n: nat, g: nat)
    requires Plain(t) && n < |t.frames| && StreamOf(fed, t.first, t.ssrc, t.frames[..n + 1]) && AllMedia(fed)
    requires (g + 1) * t.k == n + 1 && Full(t, n + 1) && RFC_OFFSET <= MIN_PACKET && |fed| == n + 1
    ensures Expected(fed, t.k, RFC_OFFSET) == Emitted(ParityOctets(t, g))
  {
    hide SendableFrames, FecPacketOf, Expected, StreamOf, Member;
    EmittedGroup(fed, t.k, RFC_OFFSET, n + 1);
    assert fed[..n + 1] == fed;
    StreamIs(t, fed, n + 1);
    Shift(g, t.k);
    assert fed[n + 1 - t.k..n + 1] == Group(t, g);
  }

  function Messages(r: Sent): seq<seq<byte>>
  {
    (if r.media.Some? then [r.media.value] else []) + (if r.fec.Some? then [r.fec.value] else [])
  }

  /** What one call of the sender's handler puts on the channel. */
  lemma {:induction false} SentIs(t: Transmission, fed: seq<Media>, n: nat, g: nat, fecNumber: uint16, r: Sent)
    requires Plain(t) && n < |t.frames| && StreamOf(fed, t.first, t.ssrc, t.frames[..n + 1]) && AllMedia(fed)
    requires g == GroupsOf(t, n) && RFC_OFFSET <= MIN_PACKET && fed != [] && fecNumber == FecNumber(t, g)
    requires r.media == if n in t.lost then None else Some(Member(t, n).octets)
    requires r.fec.Some? <==> Expected(fed, t.k, RFC_OFFSET).Emitted?
    requires r.fec.Some? ==>
      r.fec.value == EncodeHeader(FecRtpHeader(fecNumber, t.ssrc, (t.first + n) % 0x1_0000 * FRAME_PERIOD * 90))
                     + Expected(fed, t.k, RFC_OFFSET).octets
    ensures Expected(fed, t.k, RFC_OFFSET) != OutOfRange && Messages(r) == Arriving(t, n)
    ensures r.fec.Some? <==> Full(t, n + 1)
  {
    hide SendableFrames, ParityOctets, Expected, StreamOf, Member, EncodeHeader, GroupsOf;
    EmittedFor(t, fed, n, g);
    GroupsNext(t, n);
    if Full(t, n + 1) {
      Shift(g, t.k);
      assert r.fec.value == FecMessage(t, g);
    }
  }

  method Pass(receiver: Receiver, messages: seq<seq<byte>>)
    requires receiver.Valid() && receiver.survivorOffset == RFC_OFFSET
    modifies receiver.Repr
    ensures receiver.Valid() && fresh(receiver.Repr - old(receiver.Repr))
    ensures receiver.State() == Handled(old(receiver.State()), messages, receiver.ssrc)
  {
    hide MessageHandled, Handled;
    var i := 0;
    NothingHandled(receiver.State(), messages, receiver.ssrc);
    while i < |messages|
      invariant 0 <= i <= |messages|
      invariant receiver.Valid() && fresh(receiver.Repr - old(receiver.Repr))
      invariant Handled(receiver.State(), messages[i..], receiver.ssrc)
             == Handled(old(receiver.State()), messages, receiver.ssrc)
    {
      HandledNext(receiver.State(), messages, i, receiver.ssrc);
      var r := receiver.HandleMessage(messages[i]);
      i := i + 1;
    }
    NothingHandled(receiver.State(), messages, receiver.ssrc);
  }

  lemma {:induction false} HandledNext(v: View, messages: seq<seq<byte>>, i: nat, ssrc: uint32)
    requires i < |messages| && RFC_OFFSET <= MIN_PACKET
    ensures Handled(v, messages[i..], ssrc)
         == Handled(MessageHandled(v, messages[i], ssrc, RFC_OFFSET).0, messages[i + 1..], ssrc)
  {
    hide MessageHandled;
    assert messages[i..][1..] == messages[i + 1..];
  }

  lemma {:induction false} NothingHandled(v: View, messages: seq<seq<byte>>, ssrc: uint32)
    ensures Handled(v, messages[|messages|..], ssrc) == v && messages[0..] == messages
  {
  }

  /** A sender that has sent the first `n` frames, with their parity packets. */
  ghost predicate HasSent(sender: Sender, t: Transmission, n: nat)
    requires n <= |t.frames|
    reads sender, sender.Repr
  {
    && sender.Valid() && sender.armed && sender.ssrc == t.ssrc && sender.first == t.first
    && sender.frames == t.frames[..n]
    && sender.generator != null && sender.generator in sender.Repr
    && sender.generator.fecK == t.k && sender.generator.payloadOffset == RFC_OFFSET
    && sender.currentFecSequenceNumber == FecNumber(t, GroupsOf(t, n))
  }

  function FecNumber(t: Transmission, g: nat): uint16
  {
    (t.fecFirst + g) % 0x1_0000
  }

  lemma {:induction false} FecNumberNext(t: Transmission, g: nat)
    ensures FecNumber(t, g + 1) == (FecNumber(t, g) + 1) % 0x1_0000
  {
  }

  lemma {:induction false} PrefixGrows(frames: seq<seq<byte>>, n: nat)
    requires n < |frames|
    ensures frames[..n] + [frames[n]] == frames[..n + 1]
  {
  }

  method StartSender(t: Transmission) returns (sender: Sender)
    requires Plain(t)
    ensures HasSent(sender, t, 0) && fresh(sender.Repr) && sender in sender.Repr
  {
    hide SendableFrames, StreamOf, Reflects;
    assert GroupsOf(t, 0) == 0;
    assert t.frames[..0] == [];
    sender := new Sender(t.ssrc, t.first, t.fecFirst, t.k, RFC_OFFSET, true);
  }

  /** One tick of the sender's timer, the channel losing the packets it should. */
  method SendFrame(sender: Sender, t: Transmission, n: nat) returns (sent: Sent)
    requires Plain(t) && n < |t.frames| && HasSent(sender, t, n)
    modifies sender.Repr
    ensures HasSent(sender, t, n + 1) && sender.Repr == old(sender.Repr) && sender in sender.Repr
    ensures Messages(sent) == Arriving(t, n)
  {
    hide SendableFrames, Arriving, StreamOf, Expected, GroupsOf, FecRtpHeader, FrameMedia, EncodeHeader, Full, Reflects,
         Messages, AllMedia, FecNumber;
    FecNumberNext(t, GroupsOf(t, n));
    ghost var fecNumber := sender.currentFecSequenceNumber;
    PrefixGrows(t.frames, n);
    sent := sender.SendNext(Some(t.frames[n]), n in t.lost, false);
    StreamIs(t, sender.generator.fed, n + 1);
    SentIs(t, sender.generator.fed, n, GroupsOf(t, n), fecNumber, sent);
    GroupsNext(t, n);
  }

  /** The sender's timer, the channel and the receiver's handler for one transmission. */
  method Relay(t: Transmission) returns (receiver: Receiver)
    requires Plain(t) && SparseLosses(t)
    ensures receiver.Valid() && receiver.State() == ReceivedOf(t, |t.frames|)
    ensures Delivered(t, |t.frames|, receiver.State())
  {
    hide Plain, SparseLosses, Handled, Arriving, HasSent, Messages, Delivered;
    var sender := StartSender(t);
    receiver := new Receiver(t.ssrc, RFC_OFFSET);
    var n := 0;
    while n < |t.frames|
      invariant 0 <= n <= |t.frames| && HasSent(sender, t, n) && fresh(sender.Repr) && sender in sender.Repr
      invariant receiver.Valid() && fresh(receiver.Repr) && receiver.Repr !! sender.Repr
      invariant receiver.ssrc == t.ssrc && receiver.survivorOffset == RFC_OFFSET
      invariant receiver.State() == ReceivedOf(t, n)
    {
      var sent := SendFrame(sender, t, n);
      Pass(receiver, Messages(sent));
      n := n + 1;
    }
    DeliveredInOrder(t, |t.frames|);
  }
}
