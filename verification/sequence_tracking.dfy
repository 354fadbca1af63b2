/** `rtp_receiver_squence_utility`: sixteen-bit numbers tracked as RFC 3550, appendix A.1, does. */
module SequenceTracking {
  import opened Octets

  const MAX_DROPOUT := 3000
  const MAX_MISORDER := 100
  const MIN_SEQUENTIAL := 2
  const RTP_SEQ_MOD := 0x1_0000
  const UINT32 := 0x1_0000_0000
  const UINT64 := 0x1_0000_0000_0000_0000
  /** The value of `bad_seq` that equals no sequence number. */
  const NO_BAD_SEQ := 0x1_0001

  datatype Tracker = Tracker(
    maxSeq: uint16, cycles: uint32, baseSeq: uint32, badSeq: uint32, probation: nat, received: uint32)

  /** What a packet turns out to be. */
  datatype Verdict =
    | Probing    // still counting sequential packets
    | Validated  // the packet that ends probation
    | InOrder    // ahead of the highest one by less than MAX_DROPOUT
    | Reordered  // behind it by less than MAX_MISORDER
    | Resync     // follows the last rejected packet
    | Rejected   // a jump
  {
    predicate Accepting()
    {
      !Probing? && !Rejected?
    }

    predicate Restarting()
    {
      Validated? || Resync?
    }
  }

  function Started(t: Tracker, number: uint16): Tracker
  {
    Tracker(number, 0, number, NO_BAD_SEQ, t.probation, 0)
  }

  function Initial(number: uint16): Tracker
  {
    Tracker((number - 1) % RTP_SEQ_MOD, 0, number, NO_BAD_SEQ, MIN_SEQUENTIAL, 0)
  }

  /** How far `number` is ahead of the highest one, in sixteen-bit arithmetic. */
  function Ahead(t: Tracker, number: uint16): uint16
  {
    (number - t.maxSeq) % RTP_SEQ_MOD
  }

  predicate OutOfWindow(t: Tracker, number: uint16)
  {
    MAX_DROPOUT <= Ahead(t, number) <= RTP_SEQ_MOD - MAX_MISORDER
  }

  function Judge(t: Tracker, number: uint16): Verdict
  {
    if t.probation > 0 then (if t.probation == 1 && number == t.maxSeq + 1 then Validated else Probing)
    else if OutOfWindow(t, number) then (if number == t.badSeq then Resync else Rejected)
    else if Ahead(t, number) < MAX_DROPOUT then InOrder
    else Reordered
  }

  /** `uint32_t` wraps. */
  function Wrap32(n: nat): uint32
  {
    n % UINT32
  }

  function Counted(t: Tracker): Tracker
  {
    t.(received := Wrap32(t.received + 1))
  }

  function Step(t: Tracker, number: uint16): Tracker
  {
    match Judge(t, number)
    case Probing =>
      t.(probation := if number == t.maxSeq + 1 then t.probation - 1 else MIN_SEQUENTIAL - 1, maxSeq := number)
    case Validated => Counted(Started(t.(probation := 0), number))
    case InOrder =>
      Counted(t.(maxSeq := number,
                 cycles := if number < t.maxSeq then Wrap32(t.cycles + RTP_SEQ_MOD) else t.cycles))
    case Reordered => Counted(t)
    case Resync => Counted(Started(t, number))
    case Rejected => t.(badSeq := (number + 1) % RTP_SEQ_MOD)
  }

  function ExtendedMax(t: Tracker): nat
  {
    (t.cycles + t.maxSeq) % UINT32
  }

  function Expected(t: Tracker): nat
  {
    (ExtendedMax(t) - t.baseSeq + 1) % UINT64
  }

  function Lost(t: Tracker): nat
  {
    (Expected(t) - t.received) % UINT64
  }

  class SequenceUtility {
    var maxSeq: uint16
    var cycles: uint32
    var baseSeq: uint32
    var badSeq: uint32
    var probation: nat
    var received: uint32

    function State(): Tracker
      reads this
    {
      Tracker(maxSeq, cycles, baseSeq, badSeq, probation, received)
    }

    constructor (number: uint16)
      ensures State() == Initial(number)
    {
      baseSeq := number;
      badSeq := RTP_SEQ_MOD + 1;
      cycles := 0;
      received := 0;
      maxSeq := (number - 1) % RTP_SEQ_MOD;
      probation := MIN_SEQUENTIAL;
    }

    method InitSeq(number: uint16)
      modifies this
      ensures State() == Started(old(State()), number)
    {
      baseSeq := number;
      maxSeq := number;
      badSeq := RTP_SEQ_MOD + 1;
      cycles := 0;
      received := 0;
    }

    /** `update_seq`: 1 for a valid number, 0 otherwise. */
    method UpdateSeq(number: uint16) returns (r: int)
      modifies this
      ensures State() == Step(old(State()), number)
      ensures r == if Judge(old(State()), number).Accepting() then 1 else 0
    {
      var udelta := (number - maxSeq) % RTP_SEQ_MOD;
      if probation > 0 {
        if number == maxSeq + 1 {
          probation := probation - 1;
          maxSeq := number;
          if probation == 0 {
            InitSeq(number);
            received := (received + 1) % UINT32;
            return 1;
          }
        } else {
          probation := MIN_SEQUENTIAL - 1;
          maxSeq := number;
        }
        return 0;
      } else if udelta < MAX_DROPOUT {
        if number < maxSeq {
          cycles := (cycles + RTP_SEQ_MOD) % UINT32;
        }
        maxSeq := number;
      } else if udelta <= RTP_SEQ_MOD - MAX_MISORDER {
        if number == badSeq {
          InitSeq(number);
        } else {
          badSeq := (number + 1) % RTP_SEQ_MOD;
          return 0;
        }
      }
      received := (received + 1) % UINT32;
      return 1;
    }
  }

  // ---- runs ----

  function After(t: Tracker, numbers: seq<uint16>): Tracker
  {
    if numbers == [] then t else Step(After(t, numbers[..|numbers| - 1]), numbers[|numbers| - 1])
  }

  /** The verdict on packet `i` of a run. */
  function VerdictAt(t: Tracker, numbers: seq<uint16>, i: nat): Verdict
    requires i < |numbers|
  {
    Judge(After(t, numbers[..i]), numbers[i])
  }

  lemma {:induction false} AfterSnoc(t: Tracker, numbers: seq<uint16>, i: nat)
    requires i < |numbers|
    ensures After(t, numbers[..i + 1]) == Step(After(t, numbers[..i]), numbers[i])
  {
    assert numbers[..i + 1][..i] == numbers[..i];
  }

  // ---- refinement of an unbounded counter ----

  /** The highest of `start` and the true numbers delivered so far. */
  function RunningMax(start: int, trues: seq<int>): int
  {
    if trues == [] then start
    else
      var m, last := RunningMax(start, trues[..|trues| - 1]), trues[|trues| - 1];
      if last > m then last else m
  }

  /** Every packet is at most 2999 ahead of and at most 99 behind the highest one before it. */
  predicate Windowed(start: int, trues: seq<int>)
  {
    forall i :: 0 <= i < |trues| ==>
      var m := RunningMax(start, trues[..i]);
      m - (MAX_MISORDER - 1) <= trues[i] <= m + (MAX_DROPOUT - 1)
  }

  /** The sixteen bits of each true number that travel. */
  function OnWire(trues: seq<int>): (r: seq<uint16>)
    ensures |r| == |trues|
  {
    seq(|trues|, i requires 0 <= i < |trues| => trues[i] % RTP_SEQ_MOD)
  }

  /** The tracker stands for the unbounded maximum `m`. */
  predicate Represents(t: Tracker, m: int)
  {
    t.probation == 0 && t.cycles + t.maxSeq == m && t.cycles % RTP_SEQ_MOD == 0
  }

  lemma {:induction false} WindowStep(t: Tracker, m: int, v: int)
    requires Represents(t, m)
    requires m - (MAX_MISORDER - 1) <= v <= m + (MAX_DROPOUT - 1)
    requires v < UINT32
    ensures Judge(t, v % RTP_SEQ_MOD).InOrder? || Judge(t, v % RTP_SEQ_MOD).Reordered?
    ensures Represents(Step(t, v % RTP_SEQ_MOD), if v > m then v else m)
    ensures Step(t, v % RTP_SEQ_MOD).baseSeq == t.baseSeq && Step(t, v % RTP_SEQ_MOD).badSeq == t.badSeq
    ensures Step(t, v % RTP_SEQ_MOD).received == Wrap32(t.received + 1)
  {
    var c, number := t.cycles / RTP_SEQ_MOD, v % RTP_SEQ_MOD;
    var q := v / RTP_SEQ_MOD;
    assert t.cycles == RTP_SEQ_MOD * c && v == RTP_SEQ_MOD * q + number;
    var d := v - m;
    assert number - t.maxSeq == d + RTP_SEQ_MOD * (c - q);
    assert -1 <= q - c <= 1;
    if d >= 0 {
      assert Ahead(t, number) == d;
    } else {
      assert Ahead(t, number) == d + RTP_SEQ_MOD;
    }
  }

  /** Any windowed run from a freshly validated source: 32-bit cycles plus maximum is the unbounded maximum. */
  lemma {:induction false} RefinesCounter(t: Tracker, start: uint16, trues: seq<int>)
    requires t.probation == 0 && t.cycles == 0 && t.maxSeq == t.baseSeq == start
    requires Windowed(start, trues) && RunningMax(start, trues) < UINT32
    ensures var u := After(t, OnWire(trues));
      Represents(u, RunningMax(start, trues)) && ExtendedMax(u) == RunningMax(start, trues) && u.baseSeq == start
  {
    if trues == [] {
    } else {
      var n := |trues| - 1;
      WindowedFront(start, trues);
      RefinesCounter(t, start, trues[..n]);
      AfterOnWire(t, trues);
      hide Windowed, After, OnWire, Step, Judge, Wrap32, Represents;
      BelowMax(start, trues);
      WindowStep(After(t, OnWire(trues[..n])), RunningMax(start, trues[..n]), trues[n]);
      ExtendedMaxOf(After(t, OnWire(trues)), RunningMax(start, trues));
    }
  }

  /** Every packet of such a run is counted, in 32 bits. */
  lemma {:induction false} ReceivedCount(t: Tracker, start: uint16, trues: seq<int>)
    requires t.probation == 0 && t.cycles == 0 && t.maxSeq == t.baseSeq == start
    requires Windowed(start, trues) && RunningMax(start, trues) < UINT32
    ensures After(t, OnWire(trues)).received == Wrap32(t.received + |trues|)
  {
    hide *;
    if trues == [] {
      NothingReceived(t, trues);
    } else {
      var n := |trues| - 1;
      WindowedFront(start, trues);
      MaxOfFront(start, trues);
      RefinesCounter(t, start, trues[..n]);
      ReceivedCount(t, start, trues[..n]);
      AfterOnWire(t, trues);
      WindowStep(After(t, OnWire(trues[..n])), RunningMax(start, trues[..n]), trues[n]);
      CountStep(After(t, OnWire(trues[..n])).received, After(t, OnWire(trues)).received, t.received, |trues|);
    }
  }

  lemma {:induction false} NothingReceived(t: Tracker, trues: seq<int>)
    requires trues == []
    ensures After(t, OnWire(trues)).received == Wrap32(t.received + |trues|)
  {
    assert OnWire(trues) == [];
    WrapSmall(t.received);
  }

  lemma {:induction false} MaxOfFront(start: int, trues: seq<int>)
    requires trues != []
    ensures RunningMax(start, trues[..|trues| - 1]) <= RunningMax(start, trues)
    ensures trues[|trues| - 1] <= RunningMax(start, trues)
  {
  }

  lemma {:induction false} CountStep(before: uint32, after: uint32, initial: nat, n: nat)
    requires n > 0 && before == Wrap32(initial + (n - 1)) && after == Wrap32(before + 1)
    ensures after == Wrap32(initial + n)
  {
    WrapThenCount(initial + (n - 1));
  }

  lemma {:induction false} ExtendedMaxOf(t: Tracker, m: int)
    requires Represents(t, m) && m < UINT32
    ensures ExtendedMax(t) == m
  {
  }

  lemma {:induction false} WrapSmall(n: uint32)
    ensures Wrap32(n) == n
  {
  }

  lemma {:induction false} AfterOnWire(t: Tracker, trues: seq<int>)
    requires trues != []
    ensures var n := |trues| - 1;
      After(t, OnWire(trues)) == Step(After(t, OnWire(trues[..n])), trues[n] % RTP_SEQ_MOD)
  {
    assert OnWire(trues)[..|trues| - 1] == OnWire(trues[..|trues| - 1]);
  }

  /** Every packet of such a run is accepted. */
  lemma {:induction false} WindowedAccepted(t: Tracker, start: uint16, trues: seq<int>, i: nat)
    requires t.probation == 0 && t.cycles == 0 && t.maxSeq == t.baseSeq == start
    requires Windowed(start, trues) && RunningMax(start, trues) < UINT32 && i < |trues|
    ensures VerdictAt(t, OnWire(trues), i).Accepting()
  {
    var n := |trues| - 1;
    WindowedFront(start, trues);
    hide Windowed, After, OnWire, Step, Judge, VerdictAt;
    if i < n {
      WindowedAccepted(t, start, trues[..n], i);
      VerdictOfFront(t, trues, i);
    } else {
      RefinesCounter(t, start, trues[..n]);
      WindowStep(After(t, OnWire(trues[..n])), RunningMax(start, trues[..n]), trues[n]);
      LastVerdict(t, trues);
    }
  }

  lemma {:induction false} WrapThenCount(n: nat)
    ensures Wrap32(Wrap32(n) + 1) == Wrap32(n + 1)
  {
  }

  /** The packet that ends probation, or resynchronises, leaves the state a refined run starts from. */
  lemma {:induction false} RestartedState(t: Tracker, number: uint16)
    requires Judge(t, number).Restarting()
    ensures var u := Step(t, number);
      u.probation == 0 && u.cycles == 0 && u.maxSeq == u.baseSeq == number && u.received == 1
  {
  }

  lemma {:induction false} WindowedFront(start: int, trues: seq<int>)
    requires trues != [] && Windowed(start, trues)
    ensures Windowed(start, trues[..|trues| - 1])
    ensures var m := RunningMax(start, trues[..|trues| - 1]);
      m - (MAX_MISORDER - 1) <= trues[|trues| - 1] <= m + (MAX_DROPOUT - 1)
  {
    var n := |trues| - 1;
    var front := trues[..n];
    hide RunningMax;
    forall i | 0 <= i < n
      ensures var m := RunningMax(start, front[..i]);
        m - (MAX_MISORDER - 1) <= front[i] <= m + (MAX_DROPOUT - 1)
    {
      assert trues[..i] == front[..i];
    }
  }

  lemma {:induction false} LastVerdict(t: Tracker, trues: seq<int>)
    requires trues != []
    ensures var n := |trues| - 1;
      VerdictAt(t, OnWire(trues), n) == Judge(After(t, OnWire(trues[..n])), trues[n] % RTP_SEQ_MOD)
  {
    assert OnWire(trues)[..|trues| - 1] == OnWire(trues[..|trues| - 1]);
  }

  lemma {:induction false} VerdictOfFront(t: Tracker, trues: seq<int>, i: nat)
    requires i + 1 < |trues|
    ensures VerdictAt(t, OnWire(trues), i) == VerdictAt(t, OnWire(trues[..|trues| - 1]), i)
  {
    assert OnWire(trues)[..i] == OnWire(trues[..|trues| - 1])[..i];
  }

  // ---- loss accounting ----

  function Range(a: int, b: int): (r: set<int>)
    ensures forall n :: n in r <==> a <= n <= b
    decreases b - a
  {
    if a > b then {} else Range(a, b - 1) + {b}
  }

  lemma {:induction false} RangeSize(a: int, b: int)
    requires a <= b + 1
    ensures |Range(a, b)| == b - a + 1
    decreases b - a
  {
    if a <= b {
      RangeSize(a, b - 1);
    }
  }

  function Delivered(start: int, trues: seq<int>): set<int>
  {
    {start} + set v | v in trues
  }

  predicate Distinct(trues: seq<int>)
  {
    forall i, j :: 0 <= i < j < |trues| ==> trues[i] != trues[j]
  }

  lemma {:induction false} DeliveredSize(start: int, trues: seq<int>)
    requires Distinct(trues) && start !in trues
    ensures |Delivered(start, trues)| == |trues| + 1
  {
    if trues == [] {
      assert Delivered(start, trues) == {start};
    } else {
      var n := |trues| - 1;
      DeliveredSize(start, trues[..n]);
      assert trues == trues[..n] + [trues[n]];
      assert Delivered(start, trues) == Delivered(start, trues[..n]) + {trues[n]};
      assert trues[n] !in Delivered(start, trues[..n]);
    }
  }

  lemma {:induction false} BelowMax(start: int, trues: seq<int>)
    ensures start <= RunningMax(start, trues)
    ensures forall v :: v in trues ==> v <= RunningMax(start, trues)
  {
    if trues != [] {
      var n := |trues| - 1;
      BelowMax(start, trues[..n]);
      assert trues == trues[..n] + [trues[n]];
    }
  }

  /**
   * Over a windowed run since the last `init_seq`, with nothing delivered twice and nothing below the base,
   * `lost()` is the number of true numbers up to the maximum that have not arrived, as long as (and only as long
   * as) the 32-bit count of received packets has not wrapped.
   */
  lemma {:induction false} LossAccounting(t: Tracker, start: uint16, trues: seq<int>)
    requires t.probation == 0 && t.cycles == 0 && t.maxSeq == t.baseSeq == start && t.received == 1
    requires Windowed(start, trues) && RunningMax(start, trues) < UINT32
    requires Distinct(trues) && start !in trues && forall v :: v in trues ==> start <= v
    ensures Lost(After(t, OnWire(trues))) == |Range(start, RunningMax(start, trues)) - Delivered(start, trues)|
       <==> |trues| + 1 < UINT32
  {
    hide After, RunningMax, Windowed, OnWire, Range;
    var m, u := RunningMax(start, trues), After(t, OnWire(trues));
    RefinesCounter(t, start, trues);
    ReceivedCount(t, start, trues);
    BelowMax(start, trues);
    RangeSize(start, m);
    DeliveredSize(start, trues);
    var all, got := Range(start, m), Delivered(start, trues);
    assert got <= all;
    hide Delivered;
    DifferenceSize(all, got);
    LostOf(u, m, start, |trues| + 1);
  }

  lemma {:induction false} LostOf(u: Tracker, m: int, start: uint16, got: nat)
    requires ExtendedMax(u) == m && start <= m < UINT32 && u.baseSeq == start && u.received == Wrap32(got)
    requires 0 < got <= m - start + 1
    ensures Lost(u) == m - start + 1 - got <==> got < UINT32
  {
    hide ExtendedMax;
    assert Expected(u) == m - start + 1;
    if got == UINT32 {
      assert Wrap32(got) == 0;
    }
  }

  lemma {:induction false} DifferenceSize(all: set<int>, part: set<int>)
    requires part <= all
    ensures |all - part| == |all| - |part|
  {
    assert all == (all - part) + part;
  }

  // ---- probation ----

  predicate Sequential(numbers: seq<uint16>, j: int)
  {
    1 <= j < |numbers| && numbers[j] as int == numbers[j - 1] as int + 1
  }

  lemma {:induction false} OnProbation(number: uint16, numbers: seq<uint16>)
    requires numbers != [] && forall j :: 1 <= j < |numbers| ==> !Sequential(numbers, j)
    ensures var t := After(Initial(number), numbers); t.probation == 1 && t.maxSeq == numbers[|numbers| - 1]
    ensures forall i :: 0 <= i < |numbers| ==> VerdictAt(Initial(number), numbers, i) == Probing
  {
    var n := |numbers| - 1;
    AfterSnoc(Initial(number), numbers, n);
    assert numbers[..n + 1] == numbers;
    if n > 0 {
      var front := numbers[..n];
      forall j | 1 <= j < n ensures !Sequential(front, j) {
        assert !Sequential(numbers, j);
      }
      OnProbation(number, front);
      assert !Sequential(numbers, n);
      forall i | 0 <= i < n ensures VerdictAt(Initial(number), numbers, i) == Probing {
        assert numbers[..i] == front[..i];
        assert VerdictAt(Initial(number), front, i) == Probing;
      }
    }
  }

  /** A new source's first accepted packet is the first to be its predecessor plus one, wraparound not counting. */
  lemma {:induction false} FirstAccepted(number: uint16, numbers: seq<uint16>, i: nat)
    requires i < |numbers|
    ensures VerdictAt(Initial(number), numbers, i).Accepting()
            && (forall j :: 0 <= j < i ==> !VerdictAt(Initial(number), numbers, j).Accepting())
       <==> Sequential(numbers, i) && (forall j :: 1 <= j < i ==> !Sequential(numbers, j))
  {
    var t := Initial(number);
    if forall j :: 1 <= j < i ==> !Sequential(numbers, j) {
      if i > 0 {
        ProbationPrefix(number, numbers, i);
      } else {
        assert numbers[..0] == [];
      }
    } else {
      var j := LeastSequential(numbers, i);
      ProbationPrefix(number, numbers, j);
      assert VerdictAt(t, numbers, j) == Validated;
    }
  }

  lemma {:induction false} LeastSequential(numbers: seq<uint16>, i: nat) returns (k: nat)
    requires i < |numbers| && exists j :: 1 <= j < i && Sequential(numbers, j)
    ensures 1 <= k < i && Sequential(numbers, k) && forall j :: 1 <= j < k ==> !Sequential(numbers, j)
  {
    k := 1;
    while !Sequential(numbers, k)
      invariant 1 <= k < i && forall j :: 1 <= j < k ==> !Sequential(numbers, j)
      decreases i - k
    {
      k := k + 1;
    }
  }

  lemma {:induction false} ProbationPrefix(number: uint16, numbers: seq<uint16>, i: nat)
    requires 0 < i < |numbers| && forall j :: 1 <= j < i ==> !Sequential(numbers, j)
    ensures var t := After(Initial(number), numbers[..i]); t.probation == 1 && t.maxSeq == numbers[i - 1]
    ensures forall j :: 0 <= j < i ==> VerdictAt(Initial(number), numbers, j) == Probing
  {
    var front := numbers[..i];
    forall j | 1 <= j < i ensures !Sequential(front, j) {
      assert !Sequential(numbers, j);
    }
    OnProbation(number, front);
    forall j | 0 <= j < i ensures VerdictAt(Initial(number), numbers, j) == Probing {
      assert numbers[..j] == front[..j];
      assert VerdictAt(Initial(number), front, j) == Probing;
    }
  }

  // ---- resynchronisation and the received count ----

  datatype LastRejected = Nobody | Number(number: uint16)

  /** The last rejected packet since the last `init_seq`. */
  function RejectedSinceInit(t: Tracker, numbers: seq<uint16>): LastRejected
  {
    if numbers == [] then Nobody
    else
      var n := |numbers| - 1;
      var verdict := VerdictAt(t, numbers, n);
      if verdict.Restarting() then Nobody
      else if verdict == Rejected then Number(numbers[n])
      else RejectedSinceInit(t, numbers[..n])
  }

  /** How many packets were accepted since (and including) the last `init_seq`. */
  function AcceptedSinceInit(t: Tracker, numbers: seq<uint16>): nat
  {
    if numbers == [] then 0
    else
      var n := |numbers| - 1;
      var verdict := VerdictAt(t, numbers, n);
      if verdict.Restarting() then 1
      else AcceptedSinceInit(t, numbers[..n]) + if verdict.Accepting() then 1 else 0
  }

  lemma {:induction false} RunHistory(number: uint16, numbers: seq<uint16>)
    ensures var t := After(Initial(number), numbers);
      && t.received == Wrap32(AcceptedSinceInit(Initial(number), numbers))
      && t.badSeq == match RejectedSinceInit(Initial(number), numbers)
                     case Nobody => NO_BAD_SEQ
                     case Number(r) => (r + 1) % RTP_SEQ_MOD
  {
    if numbers == [] {
      WrapSmall(0);
    } else {
      var n := |numbers| - 1;
      RunHistory(number, numbers[..n]);
      hide Step, Judge, Wrap32;
      HistoryStep(After(Initial(number), numbers[..n]), numbers[n]);
      WrapThenCount(AcceptedSinceInit(Initial(number), numbers[..n]));
      WrapSmall(1);
    }
  }

  lemma {:induction false} HistoryStep(t: Tracker, number: uint16)
    ensures var v, u := Judge(t, number), Step(t, number);
      && u.received == (if v.Restarting() then 1 else if v.Accepting() then Wrap32(t.received + 1) else t.received)
      && u.badSeq == (if v.Restarting() then NO_BAD_SEQ else if v == Rejected then (number + 1) % RTP_SEQ_MOD else t.badSeq)
  {
  }

  /**
   * Once a source is valid, a packet from 3000 to 65436 ahead of the highest one (modulo 2^16) is accepted exactly when
   * it is one more (modulo 2^16) than the last packet rejected since the last `init_seq`.
   */
  lemma {:induction false} ResyncCharacterised(number: uint16, numbers: seq<uint16>, i: nat)
    requires i < |numbers|
    requires After(Initial(number), numbers[..i]).probation == 0
    requires 3000 <= (numbers[i] - After(Initial(number), numbers[..i]).maxSeq) % 0x1_0000 <= 65436
    ensures VerdictAt(Initial(number), numbers, i).Accepting()
       <==> exists r: uint16 :: RejectedSinceInit(Initial(number), numbers[..i]) == Number(r)
                                && numbers[i] == (r + 1) % RTP_SEQ_MOD
  {
    RunHistory(number, numbers[..i]);
  }

  // ---- the window, in numbers ----

  /**
   * After any run that validated the source, the packet `d` (modulo 2^16) ahead of the highest one: from 3000 to 65436 it
   * is refused and leaves everything but `bad_seq` alone, unless it is one more than the last packet rejected since the
   * last `init_seq`, which starts afresh from it; below 3000 it is the new highest one; above 65436 it only counts.
   */
  lemma {:induction false} WindowInNumbers(number: uint16, numbers: seq<uint16>, d: uint16)
    requires After(Initial(number), numbers).probation == 0
    ensures var t := After(Initial(number), numbers);
      var next: uint16 := (t.maxSeq + d) % 0x1_0000;
      var accepted, u := Judge(t, next).Accepting(), Step(t, next);
      var awaited := RejectedSinceInit(Initial(number), numbers) == Number((next - 1) % 0x1_0000);
      && (accepted <==> d < 3000 || d > 65436 || awaited)
      && (3000 <= d <= 65436 ==>
            u == if awaited then Tracker(next, 0, next, 0x1_0001, 0, 1) else t.(badSeq := (next + 1) % 0x1_0000))
      && (d < 3000 ==>
            u == t.(maxSeq := next, cycles := (t.cycles + if t.maxSeq + d >= 0x1_0000 then 0x1_0000 else 0) % 0x1_0000_0000,
                    received := (t.received + 1) % 0x1_0000_0000))
      && (d > 65436 ==> u == t.(received := (t.received + 1) % 0x1_0000_0000))
  {
    RunHistory(number, numbers);
    var t := After(Initial(number), numbers);
    hide After, RejectedSinceInit, AcceptedSinceInit;
    AheadIs(t, d);
    AwaitedIs(t, (t.maxSeq + d) % 0x1_0000, RejectedSinceInit(Initial(number), numbers));
  }

  lemma {:induction false} AheadIs(t: Tracker, d: uint16)
    ensures Ahead(t, (t.maxSeq + d) % 0x1_0000) == d
  {
  }

  lemma {:induction false} AwaitedIs(t: Tracker, next: uint16, last: LastRejected)
    requires t.badSeq == match last case Nobody => NO_BAD_SEQ case Number(r) => (r + 1) % RTP_SEQ_MOD
    ensures next == t.badSeq <==> last == Number((next - 1) % 0x1_0000)
  {
  }

  /** A windowed run leaves `bad_seq` alone. */
  lemma {:induction false} NothingRejected(t: Tracker, start: uint16, trues: seq<int>)
    requires t.probation == 0 && t.cycles == 0 && t.maxSeq == t.baseSeq == start
    requires Windowed(start, trues) && RunningMax(start, trues) < UINT32
    ensures After(t, OnWire(trues)).badSeq == t.badSeq
  {
    hide *;
    if trues == [] {
      NothingYet(t, trues);
    } else {
      var n := |trues| - 1;
      WindowedFront(start, trues);
      MaxOfFront(start, trues);
      RefinesCounter(t, start, trues[..n]);
      NothingRejected(t, start, trues[..n]);
      AfterOnWire(t, trues);
      WindowStep(After(t, OnWire(trues[..n])), RunningMax(start, trues[..n]), trues[n]);
    }
  }

  lemma {:induction false} NothingYet(t: Tracker, trues: seq<int>)
    requires trues == []
    ensures After(t, OnWire(trues)) == t
  {
  }

  /**
   * After a windowed run from a freshly validated source with running maximum m, a true number v from m - 62536 to
   * m + 65436 is accepted iff m - 99 <= v <= m + 2999; a refused one changes neither maximum nor counts.
   */
  lemma {:induction false} WindowIsExact(t: Tracker, start: uint16, trues: seq<int>, v: int)
    requires t.probation == 0 && t.cycles == 0 && t.maxSeq == t.baseSeq == start && t.badSeq == 0x1_0001
    requires Windowed(start, trues) && RunningMax(start, trues) < UINT32
    requires RunningMax(start, trues) - 62536 <= v <= RunningMax(start, trues) + 65436
    ensures var m, u := RunningMax(start, trues), After(t, OnWire(trues));
      && (Judge(u, v % 0x1_0000).Accepting() <==> m - 99 <= v <= m + 2999)
      && (v < m - 99 || v > m + 2999 ==>
            Step(u, v % 0x1_0000) == u.(badSeq := (v + 1) % 0x1_0000) && ExtendedMax(Step(u, v % 0x1_0000)) == m)
  {
    RefinesCounter(t, start, trues);
    NothingRejected(t, start, trues);
    hide After, RunningMax, Windowed, OnWire;
    ExactWindow(After(t, OnWire(trues)), RunningMax(start, trues), v);
  }

  lemma {:induction false} ExactWindow(u: Tracker, m: int, v: int)
    requires Represents(u, m) && ExtendedMax(u) == m && u.badSeq == 0x1_0001 && m - 62536 <= v <= m + 65436
    ensures Judge(u, v % 0x1_0000).Accepting() <==> m - 99 <= v <= m + 2999
    ensures v < m - 99 || v > m + 2999 ==>
      Step(u, v % 0x1_0000) == u.(badSeq := (v + 1) % 0x1_0000) && ExtendedMax(Step(u, v % 0x1_0000)) == m
  {
    TrueAhead(u, m, v);
    hide Ahead;
    assert (v % 0x1_0000 + 1) % 0x1_0000 == (v + 1) % 0x1_0000;
  }

  lemma {:induction false} TrueAhead(u: Tracker, m: int, v: int)
    requires Represents(u, m)
    ensures Ahead(u, v % 0x1_0000) == (v - m) % 0x1_0000
  {
  }
}
