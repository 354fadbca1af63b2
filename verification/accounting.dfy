/** What each message does to the receiver, told in numbers, and what its statistics count over every run. */
module Accounting {
  import opened Wrappers
  import opened Octets
  import opened RtpPacket
  import opened GroupSelection
  import opened FecGeneration
  import opened FecRecovery
  import opened Receiving
  import Track = SequenceTracking

  // ---- one message ----

  /** Whether the receiver's sequence check lets a number pass. */
  predicate Passes(t: Option<Track.Tracker>, number: uint16)
  {
    Track.Judge(Tracked(t, number), number).Accepting()
  }

  /** A media packet of the session with at least two octets of data and a number that passes. */
  predicate TakesMedia(v: View, message: seq<byte>, ssrc: uint32)
  {
    && DecodeJpeg(message).ok
    && DecodeJpeg(message).packet.header.ssrc == ssrc
    && |DecodeJpeg(message).packet.data| >= 2
    && Passes(v.jpeg, DecodeJpeg(message).packet.header.sequenceNumber)
  }

  /** Not a media packet, but a parity packet of the session with payload type 100 and a number that passes. */
  predicate TakesParity(v: View, message: seq<byte>, ssrc: uint32)
  {
    && !DecodeJpeg(message).ok && DecodeFec(message).Some?
    && DecodeFec(message).value.header.payloadType == 100
    && DecodeFec(message).value.header.ssrc == ssrc
    && Passes(v.fec, DecodeFec(message).value.header.sequenceNumber)
  }

  /** The incoming buffer with a media packet at its end. */
  function Held(v: View, message: seq<byte>): (r: seq<Received>)
    ensures |r| == |v.incoming| + 1
  {
    v.incoming + [Received(DecodeJpeg(message).packet, message)]
  }

  /** By how much the number twenty places from the end exceeds the one before it. */
  function Difference(held: seq<Received>): int
    requires |held| >= 21
  {
    (held[|held| - 20].packet.header.sequenceNumber as int) - held[|held| - 21].packet.header.sequenceNumber
  }

  predicate SameCounts(v: View, w: View)
  {
    w.corrected == v.corrected && w.uncorrectable == v.uncorrectable && w.faults == v.faults
  }

  /** The oldest packet goes on for display and nothing else changes. */
  predicate OldestReleased(v: View, held: seq<Received>, w: View)
    requires held != []
  {
    w.incoming == held[1..] && w.frames == v.frames + [held[0].packet]
  }

  /** Exactly one of the three ends of a recovery, each with what it does to the buffers. */
  predicate OneOfThree(v: View, held: seq<Received>, w: View)
    requires |held| >= 50
  {
    || (&& w.corrected == v.corrected + 1 && w.uncorrectable == v.uncorrectable && w.faults == v.faults
        && |w.incoming| == |held| && w.frames == v.frames + [held[0].packet])
    || (&& w.corrected == v.corrected && w.uncorrectable == v.uncorrectable + 1 && w.faults == v.faults
        && OldestReleased(v, held, w))
    || (&& w.corrected == v.corrected && w.uncorrectable == v.uncorrectable && w.faults == v.faults + 1
        && w.incoming == held && w.frames == v.frames)
  }

  /**
   * A media packet that is taken: below fifty it is only kept. From fifty on a difference of three or more raises
   * `uncorrectable` by one, a difference of two exactly one of the three counts, and any other none.
   */
  lemma {:induction false} TakenIsAccounted(v: View, message: seq<byte>, ssrc: uint32, offset: nat)
    requires offset <= MIN_PACKET && TakesMedia(v, message, ssrc)
    ensures var w, held := MessageHandled(v, message, ssrc, offset).0, Held(v, message);
      && w.fecs == v.fecs && w.fec == v.fec
      && (|held| < 50 ==> SameCounts(v, w) && w.incoming == held && w.frames == v.frames)
      && (|held| >= 50 && Difference(held) >= 3 ==>
            && w.uncorrectable == v.uncorrectable + 1 && w.corrected == v.corrected && w.faults == v.faults
            && OldestReleased(v, held, w))
      && (|held| >= 50 && Difference(held) == 2 ==> OneOfThree(v, held, w))
      && (|held| >= 50 && Difference(held) <= 1 ==> SameCounts(v, w) && OldestReleased(v, held, w))
  {
    hide DecodeJpeg, Track.Judge, Track.Step, Recover;
    var held := Held(v, message);
    if |held| >= 50 {
      assert Difference(held) == Gap(held);
      if Gap(held) == 2 && Recover(held, v.fecs, offset).Recovered? {
        var x := Recover(held, v.fecs, offset).packet;
        assert WithRecovered(held, x)[0] == held[0];
      }
    }
  }

  /**
   * Every other message: what was filled in of it by the two grammars decides, by payload type, SSRC, data and number,
   * how it is refused; nothing refused changes a buffer or a count, and only a refused number changes anything at all.
   */
  lemma {:induction false} RefusedMessages(v: View, message: seq<byte>, ssrc: uint32, offset: nat)
    requires offset <= MIN_PACKET
    ensures var (w, r) := MessageHandled(v, message, ssrc, offset);
      var jpeg, fec := DecodeJpeg(message), DecodeFec(message);
      && (jpeg.ok && jpeg.packet.header.ssrc != ssrc ==> r == WrongSsrc && w == v)
      && (jpeg.ok && jpeg.packet.header.ssrc == ssrc && |jpeg.packet.data| <= 1 ==> r == NoData && w == v)
      && (jpeg.ok && jpeg.packet.header.ssrc == ssrc && |jpeg.packet.data| >= 2 && !TakesMedia(v, message, ssrc) ==>
            r == BadNumber && w == v.(jpeg := w.jpeg))
      && (!jpeg.ok && (fec.None? || fec.value.header.payloadType != 100) ==> r == NotThisKind && w == v)
      && (!jpeg.ok && fec.Some? && fec.value.header.payloadType == 100 && fec.value.header.ssrc != ssrc ==>
            r == WrongSsrc && w == v)
      && (!jpeg.ok && fec.Some? && fec.value.header.payloadType == 100 && fec.value.header.ssrc == ssrc ==>
            TakesParity(v, message, ssrc) || (r == BadNumber && w == v.(fec := w.fec)))
      && (TakesMedia(v, message, ssrc) ==> r == Taken || r.Left?)
      && (TakesParity(v, message, ssrc) ==> r == Taken)
  {
    hide DecodeJpeg, DecodeFec, Track.Judge, Track.Step, Recover, Gap;
  }

  /** A parity packet that is taken is kept, the oldest of more than fifty making room for it. */
  lemma {:induction false} ParityIsKept(v: View, message: seq<byte>, ssrc: uint32, offset: nat)
    requires offset <= MIN_PACKET && TakesParity(v, message, ssrc)
    ensures var w := MessageHandled(v, message, ssrc, offset).0;
      var all := v.fecs + [ReceivedFec(DecodeFec(message).value, message)];
      && w == v.(fec := w.fec, fecs := w.fecs)
      && w.fecs == if |all| > 50 then all[1..] else all
  {
    hide DecodeJpeg, DecodeFec, Track.Judge, Track.Step;
  }

  // ---- every run ----

  /** A new receiver after any messages. */
  function AfterAll(messages: seq<seq<byte>>, ssrc: uint32, offset: nat): View
    requires offset <= MIN_PACKET
  {
    if messages == [] then EMPTY
    else
      var n := |messages| - 1;
      MessageHandled(AfterAll(messages[..n], ssrc, offset), messages[n], ssrc, offset).0
  }

  /** Whether a message makes the receiver decide on a difference of at least `least`. */
  predicate Decides(v: View, message: seq<byte>, ssrc: uint32, least: int)
  {
    TakesMedia(v, message, ssrc) && |Held(v, message)| >= 50 && Difference(Held(v, message)) >= least
  }

  /** How many decisions of a run were on a difference of at least `least`. */
  function Decisions(messages: seq<seq<byte>>, ssrc: uint32, offset: nat, least: int): nat
    requires offset <= MIN_PACKET
  {
    if messages == [] then 0
    else
      var n := |messages| - 1;
      Decisions(messages[..n], ssrc, offset, least)
      + if Decides(AfterAll(messages[..n], ssrc, offset), messages[n], ssrc, least) then 1 else 0
  }

  /**
   * Over every run of messages: the counts add up to the decisions on a difference of two or more, and every decision on
   * three or more was counted as uncorrectable.
   */
  lemma {:induction false} CountsAddUp(messages: seq<seq<byte>>, ssrc: uint32, offset: nat)
    requires offset <= MIN_PACKET
    ensures var v := AfterAll(messages, ssrc, offset);
      && v.corrected + v.uncorrectable + v.faults == Decisions(messages, ssrc, offset, 2)
      && v.uncorrectable >= Decisions(messages, ssrc, offset, 3)
      && v.corrected + v.faults <= Decisions(messages, ssrc, offset, 2) - Decisions(messages, ssrc, offset, 3)
  {
    if messages != [] {
      var n := |messages| - 1;
      CountsAddUp(messages[..n], ssrc, offset);
      CountsStep(AfterAll(messages[..n], ssrc, offset), messages[n], ssrc, offset);
      hide MessageHandled, Decides;
    }
  }

  lemma {:induction false} CountsStep(v: View, message: seq<byte>, ssrc: uint32, offset: nat)
    requires offset <= MIN_PACKET
    ensures var w := MessageHandled(v, message, ssrc, offset).0;
      var wide, wider := Decides(v, message, ssrc, 2), Decides(v, message, ssrc, 3);
      && w.corrected + w.uncorrectable + w.faults == v.corrected + v.uncorrectable + v.faults + (if wide then 1 else 0)
      && w.uncorrectable >= v.uncorrectable + (if wider then 1 else 0)
  {
    hide MessageHandled, DecodeJpeg, DecodeFec, Passes;
    if TakesMedia(v, message, ssrc) {
      TakenIsAccounted(v, message, ssrc, offset);
    } else if TakesParity(v, message, ssrc) {
      ParityIsKept(v, message, ssrc, offset);
    } else {
      RefusedMessages(v, message, ssrc, offset);
    }
  }

  /** The parity packets taken in a run, the oldest first. */
  function ParityTaken(messages: seq<seq<byte>>, ssrc: uint32, offset: nat): seq<ReceivedFec>
    requires offset <= MIN_PACKET
  {
    if messages == [] then []
    else
      var n := |messages| - 1;
      var message := messages[n];
      ParityTaken(messages[..n], ssrc, offset)
      + if TakesParity(AfterAll(messages[..n], ssrc, offset), message, ssrc) then
          [ReceivedFec(DecodeFec(message).value, message)]
        else []
  }

  /** Over every run the receiver keeps the last fifty of the parity packets it took, in order. */
  lemma {:induction false} LastFiftyKept(messages: seq<seq<byte>>, ssrc: uint32, offset: nat)
    requires offset <= MIN_PACKET
    ensures AfterAll(messages, ssrc, offset).fecs == LastFifty(ParityTaken(messages, ssrc, offset))
  {
    if messages != [] {
      var n := |messages| - 1;
      LastFiftyKept(messages[..n], ssrc, offset);
      KeptStep(AfterAll(messages[..n], ssrc, offset), messages[n], ssrc, offset, ParityTaken(messages[..n], ssrc, offset));
      hide MessageHandled, TakesParity, DecodeFec, LastFifty;
    }
  }

  lemma {:induction false} KeptStep(v: View, message: seq<byte>, ssrc: uint32, offset: nat, taken: seq<ReceivedFec>)
    requires offset <= MIN_PACKET && v.fecs == LastFifty(taken)
    ensures var w := MessageHandled(v, message, ssrc, offset).0;
      w.fecs == LastFifty(
        taken + if TakesParity(v, message, ssrc) then [ReceivedFec(DecodeFec(message).value, message)] else [])
  {
    FecsStep(v, message, ssrc, offset);
    hide MessageHandled, DecodeFec, TakesParity, LastFifty;
    if TakesParity(v, message, ssrc) {
      LastOfMore(taken, ReceivedFec(DecodeFec(message).value, message));
    } else {
      assert taken + [] == taken;
    }
  }

  function LastFifty(all: seq<ReceivedFec>): seq<ReceivedFec>
  {
    if |all| <= 50 then all else all[|all| - 50..]
  }

  lemma {:induction false} LastOfMore(all: seq<ReceivedFec>, x: ReceivedFec)
    ensures var kept := LastFifty(all) + [x]; LastFifty(all + [x]) == if |kept| > 50 then kept[1..] else kept
  {
  }

  lemma {:induction false} FecsStep(v: View, message: seq<byte>, ssrc: uint32, offset: nat)
    requires offset <= MIN_PACKET
    ensures var w := MessageHandled(v, message, ssrc, offset).0;
      if TakesParity(v, message, ssrc) then
        var all := v.fecs + [ReceivedFec(DecodeFec(message).value, message)];
        w.fecs == if |all| > 50 then all[1..] else all
      else w.fecs == v.fecs
  {
    hide MessageHandled, DecodeJpeg, DecodeFec, Passes;
    if TakesMedia(v, message, ssrc) {
      TakenIsAccounted(v, message, ssrc, offset);
    } else if TakesParity(v, message, ssrc) {
      ParityIsKept(v, message, ssrc, offset);
    } else {
      RefusedMessages(v, message, ssrc, offset);
    }
  }
}
