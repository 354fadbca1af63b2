/** How `recover_packet_by_fec` finds a parity packet and the other members of its group. */
module GroupSelection {
  import opened Octets
  import opened Parity
  import opened RtpPacket
  import opened FecGeneration
  import opened FecRecovery
  import opened RecoveryTheorems
  import opened EndToEnd
  import FecWire

  const BUFFER_SIZE := 50
  const MEDIA_PACKET_DELAY := 20
  const SEARCH_RANGE := 48
  const MASK_BITS := 64

  datatype ReceivedFec = ReceivedFec(packet: FecPacket, octets: seq<byte>)

  // ---- the parity packet ----

  datatype Search = Found(index: nat) | NoCandidate | Throws

  predicate InRange(fec: ReceivedFec, number: int)
  {
    fec.packet.snBase <= number <= fec.packet.snBase + SEARCH_RANGE
  }

  /** The latest packet whose mask names `number`; one in range without a level throws before older ones are seen. */
  function FindCandidate(fecs: seq<ReceivedFec>, number: int): (r: Search)
    ensures r.Found? ==> r.index < |fecs| && fecs[r.index].packet.levels != []
  {
    if fecs == [] then NoCandidate
    else
      var n := |fecs| - 1;
      if !InRange(fecs[n], number) then FindCandidate(fecs[..n], number)
      else if fecs[n].packet.levels == [] then Throws
      else if FecWire.MaskNames(fecs[n].packet.levels[0].mask, number - fecs[n].packet.snBase) then Found(n)
      else FindCandidate(fecs[..n], number)
  }

  method SearchCandidate(fecs: seq<ReceivedFec>, number: int) returns (r: Search)
    ensures r == FindCandidate(fecs, number)
  {
    var i := |fecs|;
    assert fecs[..i] == fecs;
    while i > 0
      invariant 0 <= i <= |fecs|
      invariant FindCandidate(fecs, number) == FindCandidate(fecs[..i], number)
    {
      i := i - 1;
      assert fecs[..i + 1][..i] == fecs[..i];
      if InRange(fecs[i], number) {
        if fecs[i].packet.levels == [] {
          return Throws;
        }
        if FecWire.MaskNames(fecs[i].packet.levels[0].mask, number - fecs[i].packet.snBase) {
          return Found(i);
        }
      }
    }
    return NoCandidate;
  }

  // ---- the other members ----

  /** Where member `u` of a group is looked for when member `missing` is the lost one. */
  function SlotOf(size: int, missing: nat, u: nat): int
  {
    if u < missing then size - MEDIA_PACKET_DELAY - missing + u else size - MEDIA_PACKET_DELAY + (u - missing - 1)
  }

  datatype Selection = Chosen(media: seq<Received>) | Mismatch | OutOfBuffer

  /** Member `u` after the members before it, the mask naming it. */
  function AtSlot(before: Selection, buffer: seq<Received>, base: int, missing: nat, u: nat): Selection
  {
    var slot := SlotOf(|buffer|, missing, u);
    if !before.Chosen? then before
    else if !(0 <= slot < |buffer|) then OutOfBuffer
    else if buffer[slot].packet.header.sequenceNumber != base + u then Mismatch
    else Chosen(before.media + [buffer[slot]])
  }

  /** Takes in member `u` unless it is the missing one or not protected. */
  function TakeMember(before: Selection, buffer: seq<Received>, mask: seq<byte>, base: int, missing: nat,
                      u: nat): Selection
  {
    if u == missing || !FecWire.MaskNames(mask, u) then before else AtSlot(before, buffer, base, missing, u)
  }

  function SelectUpTo(buffer: seq<Received>, mask: seq<byte>, base: int, missing: nat, n: nat): (r: Selection)
    ensures r.Chosen? ==> |r.media| <= n
  {
    if n == 0 then Chosen([])
    else TakeMember(SelectUpTo(buffer, mask, base, missing, n - 1), buffer, mask, base, missing, n - 1)
  }

  /** One of the two loops of `recover_packet_by_fec`, over the members from `from` up to `to`. */
  method SelectRange(buffer: seq<Received>, mask: seq<byte>, base: int, missing: nat, from: nat, to: nat,
                     start: Selection) returns (r: Selection)
    requires from <= to && start == SelectUpTo(buffer, mask, base, missing, from)
    ensures r == SelectUpTo(buffer, mask, base, missing, to)
  {
    r := start;
    var u := from;
    while u < to
      invariant from <= u <= to
      invariant r == SelectUpTo(buffer, mask, base, missing, u)
    {
      r := TakeMember(r, buffer, mask, base, missing, u);
      u := u + 1;
    }
  }

  method SelectGroup(buffer: seq<Received>, mask: seq<byte>, base: int, missing: nat) returns (r: Selection)
    requires missing < MASK_BITS
    ensures r == SelectUpTo(buffer, mask, base, missing, MASK_BITS)
  {
    r := SelectRange(buffer, mask, base, missing, 0, missing, Chosen([]));
    r := SelectRange(buffer, mask, base, missing, missing + 1, MASK_BITS, r);
  }

  /** Whether every slot looked at for the loss of member `missing` of a group of `k` lies in a buffer of `size`. */
  predicate SlotsInside(size: nat, missing: nat, k: nat)
  {
    forall u: nat :: u < k && u != missing ==> 0 <= SlotOf(size, missing, u) < size
  }

  /** The earlier members must not be older than the buffer's oldest packet, and at most twenty may follow the gap. */
  lemma {:induction false} SlotsInsideIff(size: nat, missing: nat, k: nat)
    requires size >= MEDIA_PACKET_DELAY && missing < k
    ensures SlotsInside(size, missing, k)
       <==> (missing == 0 || missing <= size - MEDIA_PACKET_DELAY) && k - missing <= MEDIA_PACKET_DELAY + 1
  {
    if missing > 0 && missing > size - MEDIA_PACKET_DELAY {
      assert SlotOf(size, missing, 0) < 0;
    }
    if k - missing > MEDIA_PACKET_DELAY + 1 {
      assert SlotOf(size, missing, missing + MEDIA_PACKET_DELAY + 1) == size;
    }
  }

  /** In a full buffer all losses of a group stay inside exactly up to groups of 21. */
  lemma {:induction false} AllSlotsInsideIff(size: nat, k: nat)
    requires size >= BUFFER_SIZE && 0 < k <= MAX_MASK_BITS
    ensures (forall missing: nat :: missing < k ==> SlotsInside(size, missing, k)) <==> k <= MEDIA_PACKET_DELAY + 1
  {
    hide SlotsInside;
    forall missing: nat | missing < k
      ensures SlotsInside(size, missing, k)
         <==> (missing == 0 || missing <= size - MEDIA_PACKET_DELAY) && k - missing <= MEDIA_PACKET_DELAY + 1
    {
      SlotsInsideIff(size, missing, k);
    }
    assert SlotsInside(size, 0, k) <==> k <= MEDIA_PACKET_DELAY + 1;
  }

  /** The group's numbers from `base` on, without that of the missing member. */
  function NumbersWithout(base: int, missing: nat, n: nat): seq<int>
  {
    if n == 0 then []
    else if n - 1 == missing then NumbersWithout(base, missing, n - 1)
    else NumbersWithout(base, missing, n - 1) + [base + (n - 1)]
  }

  function NumbersOf(media: seq<Received>): (r: seq<int>)
    ensures |r| == |media|
  {
    seq(|media|, i requires 0 <= i < |media| => media[i].packet.header.sequenceNumber as int)
  }

  ghost predicate LeadingMask(mask: seq<byte>, k: nat)
  {
    forall u: nat :: FecWire.MaskNames(mask, u) <==> u < k
  }

  predicate InPlace(buffer: seq<Received>, base: int, missing: nat, n: nat)
  {
    forall u: nat :: u < n && u != missing ==>
      && 0 <= SlotOf(|buffer|, missing, u) < |buffer|
      && buffer[SlotOf(|buffer|, missing, u)].packet.header.sequenceNumber == base + u
  }

  function Min(a: nat, b: nat): nat
  {
    if a < b then a else b
  }

  /** Some member is looked for outside the buffer, after all members before it were in their places. */
  predicate Leaves(buffer: seq<Received>, base: int, missing: nat, n: nat)
  {
    exists u: nat :: u < n && u != missing
      && !(0 <= SlotOf(|buffer|, missing, u) < |buffer|) && InPlace(buffer, base, missing, u)
  }

  /** The three ends of the selection, for every buffer, mask of leading ones and loss. */
  predicate SelectionIs(r: Selection, buffer: seq<Received>, base: int, missing: nat, n: nat)
  {
    && (r.Chosen? <==> InPlace(buffer, base, missing, n))
    && (r.Chosen? ==> NumbersOf(r.media) == NumbersWithout(base, missing, n))
    && (r.OutOfBuffer? <==> Leaves(buffer, base, missing, n))
  }

  /**
   * There is a choice iff all other members sit in their places, and then it carries exactly the group's numbers
   * without the missing one, in order; the buffer is left iff the first member not in place lies outside of it.
   */
  lemma {:induction false} SelectionIsExact(buffer: seq<Received>, mask: seq<byte>, base: int, missing: nat, k: nat,
                                            n: nat)
    requires LeadingMask(mask, k)
    ensures SelectionIs(SelectUpTo(buffer, mask, base, missing, n), buffer, base, missing, Min(n, k))
  {
    hide LeadingMask, TakeMember, SelectionIs;
    if n == 0 {
      NothingSelected(buffer, base, missing);
    } else {
      SelectionIsExact(buffer, mask, base, missing, k, n - 1);
      MemberIsExact(SelectUpTo(buffer, mask, base, missing, n - 1), buffer, mask, base, missing, k, n - 1);
    }
  }

  lemma {:induction false} NothingSelected(buffer: seq<Received>, base: int, missing: nat)
    ensures SelectionIs(Chosen([]), buffer, base, missing, 0)
  {
  }

  lemma {:induction false} MemberIsExact(before: Selection, buffer: seq<Received>, mask: seq<byte>, base: int,
                                         missing: nat, k: nat, u: nat)
    requires LeadingMask(mask, k) && SelectionIs(before, buffer, base, missing, Min(u, k))
    ensures SelectionIs(TakeMember(before, buffer, mask, base, missing, u), buffer, base, missing, Min(u + 1, k))
  {
    assert FecWire.MaskNames(mask, u) <==> u < k;
    if u < k {
      if u == missing {
        MissingSkipped(before, buffer, base, missing);
      } else {
        hide LeadingMask, FecWire.MaskNames;
        PlaceTaken(before, buffer, base, missing, u);
      }
    }
  }

  lemma {:induction false} MissingSkipped(before: Selection, buffer: seq<Received>, base: int, missing: nat)
    requires SelectionIs(before, buffer, base, missing, missing)
    ensures SelectionIs(before, buffer, base, missing, missing + 1)
  {
  }

  lemma {:induction false} PlaceTaken(before: Selection, buffer: seq<Received>, base: int, missing: nat, u: nat)
    requires SelectionIs(before, buffer, base, missing, u) && u != missing
    ensures SelectionIs(AtSlot(before, buffer, base, missing, u), buffer, base, missing, u + 1)
  {
    var slot := SlotOf(|buffer|, missing, u);
    assert InPlace(buffer, base, missing, u + 1) <==>
      InPlace(buffer, base, missing,
              u) && 0 <= slot < |buffer| && buffer[slot].packet.header.sequenceNumber == base + u;
    LeavesStep(buffer, base, missing, u);
    hide InPlace, Leaves;
    if before.Chosen? && 0 <= slot < |buffer| {
      assert NumbersOf(before.media + [buffer[slot]])
          == NumbersOf(before.media) + [buffer[slot].packet.header.sequenceNumber as int];
    }
  }

  lemma {:induction false} LeavesStep(buffer: seq<Received>, base: int, missing: nat, u: nat)
    requires u != missing
    ensures Leaves(buffer, base, missing, u + 1)
       <==> Leaves(buffer, base, missing, u)
            || (InPlace(buffer, base, missing, u) && !(0 <= SlotOf(|buffer|, missing, u) < |buffer|))
    ensures !(Leaves(buffer, base, missing, u) && InPlace(buffer, base, missing, u))
  {
  }

  /** A loss whose slots all lie inside is decided without leaving the buffer. */
  lemma {:induction false} InsideNeverLeaves(buffer: seq<Received>, mask: seq<byte>, base: int, missing: nat, k: nat)
    requires LeadingMask(mask, k) && SlotsInside(|buffer|, missing, k)
    ensures SelectUpTo(buffer, mask, base, missing, MASK_BITS) != OutOfBuffer
  {
    SelectionIsExact(buffer, mask, base, missing, k, MASK_BITS);
    hide SelectUpTo, LeadingMask;
  }

  /** Fifty packets numbered in order around a gap of one, twenty from the end. */
  function GapBuffer(): (r: seq<Received>)
    ensures |r| == BUFFER_SIZE
  {
    seq(BUFFER_SIZE, i requires 0 <= i < BUFFER_SIZE =>
      Received(INITIAL_JPEG.(header := INITIAL_HEADER.(sequenceNumber := if i < 30 then 99 + i else 100 + i)), []))
  }

  /** The first of 22 members lost, all others where they belong: the last one lies past the buffer's end. */
  lemma {:induction false} OverlongGroupLeaves(mask: seq<byte>)
    requires LeadingMask(mask, 22)
    ensures GapBuffer()[30].packet.header.sequenceNumber - 1 == 129
    ensures SelectUpTo(GapBuffer(), mask, 129, 0, MASK_BITS) == OutOfBuffer
  {
    var buffer := GapBuffer();
    SelectionIsExact(buffer, mask, 129, 0, 22, MASK_BITS);
    assert InPlace(buffer, 129, 0, 21);
    assert SlotOf(|buffer|, 0, 21) == |buffer|;
    hide SelectUpTo, LeadingMask;
    assert Leaves(buffer, 129, 0, 22);
  }

  // ---- the whole recovery ----

  datatype Recovery = Recovered(packet: Received) | NotRecovered | Faulted(reason: Reason)

  /** What `recover_packet_by_fec` does to a full buffer. */
  function Recover(buffer: seq<Received>, fecs: seq<ReceivedFec>, offset: nat): Recovery
    requires |buffer| >= BUFFER_SIZE && offset <= MIN_PACKET
  {
    var number := buffer[|buffer| - MEDIA_PACKET_DELAY].packet.header.sequenceNumber as int - 1;
    match FindCandidate(fecs, number)
    case NoCandidate => NotRecovered
    case Throws => Faulted(NoLevel)
    case Found(i) => RecoverWith(buffer, fecs[i], number, offset)
  }

  function RecoverWith(buffer: seq<Received>, fec: ReceivedFec, number: int, offset: nat): Recovery
    requires fec.packet.levels != [] && offset <= MIN_PACKET
  {
    if number < fec.packet.snBase then NotRecovered
    else
      var missing := number - fec.packet.snBase;
      match SelectUpTo(buffer, fec.packet.levels[0].mask, fec.packet.snBase, missing, MASK_BITS)
      case Mismatch => NotRecovered
      case OutOfBuffer => Faulted(OutOfBounds)
      case Chosen(media) =>
        match Reconstruct(fec.packet, fec.octets, AsMedia(media), offset)
        case Fault(reason) => Faulted(reason)
        case Rebuilt(packet, octets) => Recovered(Trim(packet, octets))
  }

  lemma {:induction false} CandidateNamed(fecs: seq<ReceivedFec>, number: int)
    ensures FindCandidate(fecs, number).Found? ==> InRange(fecs[FindCandidate(fecs, number).index], number)
  {
    if fecs != [] {
      CandidateNamed(fecs[..|fecs| - 1], number);
    }
  }

  method RecoverPacketByFec(buffer: seq<Received>, fecs: seq<ReceivedFec>, offset: nat) returns (r: Recovery)
    requires |buffer| >= BUFFER_SIZE && offset <= MIN_PACKET
    ensures r == Recover(buffer, fecs, offset)
  {
    hide SelectUpTo, Reconstruct, DecodeJpeg;
    var number := buffer[|buffer| - MEDIA_PACKET_DELAY].packet.header.sequenceNumber as int - 1;
    var search := SearchCandidate(fecs, number);
    CandidateNamed(fecs, number);
    if search == NoCandidate {
      return NotRecovered;
    }
    if search == Throws {
      return Faulted(NoLevel);
    }
    var fec := fecs[search.index];
    var missing := number - fec.packet.snBase;
    var selection := SelectGroup(buffer, fec.packet.levels[0].mask, fec.packet.snBase, missing);
    if selection == Mismatch {
      return NotRecovered;
    }
    if selection == OutOfBuffer {
      return Faulted(OutOfBounds);
    }
    var rebuild := FecReconstruction(fec.packet, fec.octets, selection.media, offset);
    match rebuild {
      case Fault(reason) => return Faulted(reason);
      case Rebuilt(packet, octets) => return Recovered(Trim(packet, octets));
    }
  }

  // ---- which parity packet, and when a loss is given up ----

  /** The search ends at this packet: its base is at most 48 below the number, and it names the number or has no level. */
  predicate Stops(fec: ReceivedFec, number: int)
  {
    && fec.packet.snBase <= number <= fec.packet.snBase + 48
    && (fec.packet.levels == [] || FecWire.MaskNames(fec.packet.levels[0].mask, number - fec.packet.snBase))
  }

  predicate Newest(fecs: seq<ReceivedFec>, number: int, i: nat)
  {
    i < |fecs| && Stops(fecs[i], number) && forall j :: i < j < |fecs| ==> !Stops(fecs[j], number)
  }

  /** The newest packet at which the search can end decides: it is found, or throws for want of a level. */
  lemma {:induction false} NewestDecides(fecs: seq<ReceivedFec>, number: int, i: nat)
    ensures (forall j :: 0 <= j < |fecs| ==> !Stops(fecs[j], number)) <==> FindCandidate(fecs, number) == NoCandidate
    ensures Newest(fecs, number, i) ==>
      FindCandidate(fecs, number) == if fecs[i].packet.levels == [] then Throws else Found(i)
  {
    if fecs != [] {
      var n := |fecs| - 1;
      NewestDecides(fecs[..n], number, i);
      assert fecs[n] == fecs[|fecs| - 1];
      hide FecWire.MaskNames;
      if Newest(fecs, number, i) && i < n {
        assert !Stops(fecs[n], number);
        assert Newest(fecs[..n], number, i);
      }
    }
  }

  /** Parity packets of a sender with groups of `k`. */
  ghost predicate AllOfSize(fecs: seq<ReceivedFec>, k: nat)
  {
    forall i :: 0 <= i < |fecs| ==> fecs[i].packet.levels != [] && LeadingMask(fecs[i].packet.levels[0].mask, k)
  }

  predicate Covers(fec: ReceivedFec, number: int, k: nat)
  {
    fec.packet.snBase <= number < fec.packet.snBase + k
  }

  lemma {:induction false} StopsIffCovers(fec: ReceivedFec, number: int, k: nat)
    requires fec.packet.levels != [] && LeadingMask(fec.packet.levels[0].mask, k) && k <= 48
    ensures Stops(fec, number) <==> Covers(fec, number, k)
  {
    hide FecWire.MaskNames;
    if fec.packet.snBase <= number {
      assert FecWire.MaskNames(fec.packet.levels[0].mask, number - fec.packet.snBase) <==> number - fec.packet.snBase < k;
    }
  }

  predicate Uncovered(fecs: seq<ReceivedFec>, number: int, k: nat)
  {
    forall j :: 0 <= j < |fecs| ==> !Covers(fecs[j], number, k)
  }

  predicate NewestCover(fecs: seq<ReceivedFec>, number: int, k: nat, i: nat)
  {
    i < |fecs| && Covers(fecs[i], number, k) && forall j :: i < j < |fecs| ==> !Covers(fecs[j], number, k)
  }

  lemma {:induction false} CoverDecides(fecs: seq<ReceivedFec>, number: int, k: nat, i: nat)
    requires k <= 48 && AllOfSize(fecs, k)
    ensures Uncovered(fecs, number, k) ==> FindCandidate(fecs, number) == NoCandidate
    ensures NewestCover(fecs, number, k, i) ==> FindCandidate(fecs, number) == Found(i)
  {
    forall j | 0 <= j < |fecs| ensures Stops(fecs[j], number) <==> Covers(fecs[j], number, k) {
      StopsIffCovers(fecs[j], number, k);
    }
    NewestDecides(fecs, number, i);
    hide FindCandidate, Stops, LeadingMask;
  }

  lemma {:induction false} RecoverBy(buffer: seq<Received>, fecs: seq<ReceivedFec>, offset: nat, number: int)
    requires |buffer| >= 50 && offset <= 12
    requires number + 1 == buffer[|buffer| - 20].packet.header.sequenceNumber
    ensures FindCandidate(fecs, number) == NoCandidate ==> Recover(buffer, fecs, offset) == NotRecovered
    ensures FindCandidate(fecs, number).Found? ==>
      Recover(buffer, fecs, offset) == RecoverWith(buffer, fecs[FindCandidate(fecs, number).index], number, offset)
  {
    hide FindCandidate, RecoverWith;
  }

  /**
   * A loss is given up iff no parity packet covers it, or the newest one that does has another member out of its place and
   * inside the buffer, before any outside; a member outside before that ends in an exception.
   */
  lemma {:induction false} GivenUpIff(buffer: seq<Received>, fecs: seq<ReceivedFec>, offset: nat, k: nat, i: nat,
                                      number: int)
    requires |buffer| >= 50 && offset <= 12 && k <= 48 && AllOfSize(fecs, k)
    requires number + 1 == buffer[|buffer| - 20].packet.header.sequenceNumber
    ensures Uncovered(fecs, number, k) ==> Recover(buffer, fecs, offset) == NotRecovered
    ensures NewestCover(fecs, number, k, i) ==>
      && number >= fecs[i].packet.snBase
      && MisplacedDecides(Recover(buffer, fecs, offset), buffer, fecs[i].packet.snBase, number - fecs[i].packet.snBase, k)
  {
    hide *;
    CoverDecides(fecs, number, k, i);
    RecoverBy(buffer, fecs, offset, number);
    if NewestCover(fecs, number, k, i) {
      CoverIs(fecs, number, k, i);
      GivenUpWith(buffer, fecs[i], number, offset, k);
    }
  }

  lemma {:induction false} CoverIs(fecs: seq<ReceivedFec>, number: int, k: nat, i: nat)
    requires AllOfSize(fecs, k) && NewestCover(fecs, number, k, i)
    ensures i < |fecs| && fecs[i].packet.levels != [] && LeadingMask(fecs[i].packet.levels[0].mask, k)
    ensures Covers(fecs[i], number, k) && number >= fecs[i].packet.snBase
  {
    hide LeadingMask;
  }

  /** What a member out of its place does to a recovery. */
  predicate MisplacedDecides(r: Recovery, buffer: seq<Received>, base: int, missing: nat, k: nat)
  {
    && (r == NotRecovered <==> !InPlace(buffer, base, missing, k) && !Leaves(buffer, base, missing, k))
    && (Leaves(buffer, base, missing, k) ==> r == Faulted(OutOfBounds))
  }

  lemma {:induction false} GivenUpWith(buffer: seq<Received>, fec: ReceivedFec, number: int, offset: nat, k: nat)
    requires offset <= 12 && k <= 48 && fec.packet.levels != []
    requires LeadingMask(fec.packet.levels[0].mask, k) && Covers(fec, number, k)
    ensures number >= fec.packet.snBase
    ensures MisplacedDecides(RecoverWith(buffer, fec, number, offset), buffer, fec.packet.snBase, number - fec.packet.snBase, k)
  {
    var base := fec.packet.snBase;
    SelectionIsExact(buffer, fec.packet.levels[0].mask, base, number - base, k, MASK_BITS);
    assert Min(MASK_BITS, k) == k;
    hide SelectUpTo, InPlace, Leaves, LeadingMask, Reconstruct, Trim, AsMedia;
  }
}
