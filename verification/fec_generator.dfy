/** `rtp::fec_generator`: folds media packets into one growing bit string and emits a parity packet every k calls. */
module FecGeneration {
  import opened Octets
  import opened Parity

  /** A media packet as handed to the generator: its octets on the wire and its sequence number. */
  datatype Media = Media(octets: seq<byte>, number: uint16)

  datatype Emission =
    | Nothing                    // the empty shared_ptr
    | Emitted(octets: seq<byte>) // FEC header, level header and level payload
    | LogicError                 // media packet shorter than an RTP header
    | OutOfRange                 // mask.at throws

  const MIN_PACKET: nat := 12
  const MAX_MASK_BITS: nat := 48

  /** Media octet from which `generate_next_fec_packet` emits the level payload as shipped (bit string index 12). */
  const SHIPPED_EMIT_OFFSET: nat := 10
  /** Media octet at which sections 8.2 and 9.2 of RFC 5109 start the protected payload. */
  const RFC_OFFSET: nat := 12

  // ---- reference form ----

  /** The bit string one media packet contributes: 8 header octets, its length after the RTP header, the rest. */
  function Protected(media: seq<byte>): (r: seq<byte>)
    requires |media| >= MIN_PACKET
    ensures |r| == |media| + 2
  {
    media[..8] + Word((|media| - MIN_PACKET) % 0x1_0000) + media[8..]
  }

  predicate AllMedia(ms: seq<Media>)
  {
    forall m :: m in ms ==> |m.octets| >= MIN_PACKET
  }

  function ProtectedAll(ms: seq<Media>): (r: seq<seq<byte>>)
    requires AllMedia(ms)
    ensures |r| == |ms|
  {
    seq(|ms|, i requires 0 <= i < |ms| => assert ms[i] in ms; Protected(ms[i].octets))
  }

  /** What the running `fec_seq_base` amounts to: zero doubles as "unset", and the minimum ignores wraparound. */
  function GroupBase(ms: seq<Media>): uint16
  {
    if ms == [] then 0
    else
      var base, n := GroupBase(ms[..|ms| - 1]), ms[|ms| - 1].number;
      if base != 0 && base < n then base else n
  }

  /** An octet whose `n` most significant bits are set. */
  function LeadingOnes(n: nat): byte
  {
    if n == 0 then 0 else if n == 1 then 128 else if n == 2 then 192 else if n == 3 then 224
    else if n == 4 then 240 else if n == 5 then 248 else if n == 6 then 252 else if n == 7 then 254 else 255
  }

  function MaskOctets(k: nat): (r: seq<byte>)
    ensures |r| == 6
  {
    seq(6, j requires 0 <= j < 6 => LeadingOnes(if k <= 8 * j then 0 else k - 8 * j))
  }

  /** Longer masks need the L bit and six octets; up to sixteen packets fit in two. */
  function WireMask(k: nat): seq<byte>
  {
    if k > 16 then MaskOctets(k) else MaskOctets(k)[..2]
  }

  function Folded(ms: seq<Media>): (r: seq<byte>)
    requires AllMedia(ms)
    ensures |r| == Longest(ProtectedAll(ms))
  {
    ParityOf(ProtectedAll(ms))
  }

  lemma {:induction false} FoldedLength(ms: seq<Media>)
    requires AllMedia(ms) && ms != []
    ensures |Folded(ms)| >= MIN_PACKET + 2
    ensures forall m :: m in ms ==> |m.octets| + 2 <= |Folded(ms)|
    ensures exists m :: m in ms && |m.octets| + 2 == |Folded(ms)|
  {
    var ps := ProtectedAll(ms);
    forall m | m in ms ensures |m.octets| + 2 <= Longest(ps) {
      var i :| 0 <= i < |ms| && ms[i] == m;
      assert ps[i] in ps;
    }
    var p :| p in ps && |p| == Longest(ps);
    var i :| 0 <= i < |ps| && ps[i] == p;
    assert ms[i] in ms;
  }

  /** FEC header, level header and level payload for a bit string, the payload cut at media octet `offset`. */
  function Packetised(bits: seq<byte>, base: uint16, k: nat, offset: nat): seq<byte>
    requires |bits| >= MIN_PACKET + 2 && offset <= MIN_PACKET
  {
    [bits[0] % 64 + (if k > 16 then 64 else 0), bits[1]]
    + Word(base)
    + bits[4..10]
    + Word((|bits| - 2 - offset) % 0x1_0000)
    + WireMask(k)
    + bits[offset + 2..]
  }

  /** The FEC packet (without RTP header) that protects a group. */
  function FecPacketOf(group: seq<Media>, k: nat, offset: nat): seq<byte>
    requires AllMedia(group) && group != [] && offset <= MIN_PACKET
  {
    FoldedLength(group);
    Packetised(Folded(group), GroupBase(group), k, offset)
  }

  lemma {:induction false} FoldedSnoc(ms: seq<Media>, m: Media, i: nat)
    requires AllMedia(ms) && |m.octets| >= MIN_PACKET
    ensures AllMedia(ms + [m])
    ensures |Folded(ms + [m])| == if |Folded(ms)| > |m.octets| + 2 then |Folded(ms)| else |m.octets| + 2
    ensures At(Folded(ms + [m]), i) == Xor(At(Folded(ms), i), At(Protected(m.octets), i))
  {
    var ps := ProtectedAll(ms);
    assert forall x :: x in ms + [m] ==> x in ms || x == m;
    assert ProtectedAll(ms + [m]) == ps + [Protected(m.octets)];
    assert (ps + [Protected(m.octets)])[..|ps|] == ps;
    ParityOfAt(ps + [Protected(m.octets)], i);
    ParityOfAt(ps, i);
  }

  /** How many calls into its period a generator is after `n` calls. */
  function Phase(n: nat, k: nat): nat
    requires k > 0
  {
    n % k
  }

  lemma {:induction false} NextRemainder(n: nat, k: nat)
    requires k > 0
    ensures Phase(n + 1, k) == if Phase(n, k) + 1 == k then 0 else Phase(n, k) + 1
    ensures Phase(n, k) < k && Phase(n, k) <= n
  {
    var q, r := n / k, n % k;
    assert n == k * q + r;
    if r + 1 == k {
      RemainderUnique(n + 1, k, q + 1, 0);
    } else {
      RemainderUnique(n + 1, k, q, r + 1);
    }
  }

  /** The packets after the last multiple of `k`. */
  function Remainder(ms: seq<Media>, k: nat): seq<Media>
    requires k > 0
  {
    assert |ms| % k <= |ms|;
    ms[|ms| - Phase(|ms|, k)..]
  }

  lemma {:induction false} RemainderSnoc(ms: seq<Media>, m: Media, k: nat)
    requires k > 0
    ensures |Remainder(ms, k)| < k
    ensures Phase(|ms + [m]|, k) == 0 <==> |Remainder(ms, k)| + 1 == k
    ensures Remainder(ms + [m], k) == if Phase(|ms + [m]|, k) == 0 then [] else Remainder(ms, k) + [m]
    ensures Phase(|ms + [m]|, k) == 0 ==> |ms + [m]| >= k && (ms + [m])[|ms + [m]| - k..] == Remainder(ms, k) + [m]
  {
    NextRemainder(|ms|, k);
    hide Phase;
    assert |ms + [m]| == |ms| + 1;
  }

  // ---- the stateful generator ----

  /** `std::transform` with XOR, writing over its first operand from index `at`. */
  method XorRange(dst: seq<byte>, at: nat, src: seq<byte>) returns (r: seq<byte>)
    requires at + |src| <= |dst|
    ensures |r| == |dst|
    ensures forall i :: 0 <= i < |dst| ==> r[i] == if at <= i < at + |src| then Xor(dst[i], src[i - at]) else dst[i]
  {
    r := dst;
    var j := 0;
    while j < |src|
      invariant 0 <= j <= |src| && |r| == |dst|
      invariant forall i :: 0 <= i < |dst| ==> r[i] == if at <= i < at + j then Xor(dst[i], src[i - at]) else dst[i]
    {
      r := r[at + j := Xor(r[at + j], src[j])];
      j := j + 1;
    }
  }

  /** `after` is the zero-padded XOR of `before` and what `media` contributes. */
  predicate FoldedIn(before: seq<byte>, media: seq<byte>, after: seq<byte>)
    requires |media| >= MIN_PACKET
  {
    && |after| == (if |before| > |media| + 2 then |before| else |media| + 2)
    && forall i :: 0 <= i < |after| ==> after[i] == Xor(At(before, i), At(Protected(media), i))
  }

  /** Folds one packet into the bit string; shorter and longer packets take different branches. */
  method FoldIn(bitString: seq<byte>, media: seq<byte>) returns (bits: seq<byte>)
    requires |media| >= MIN_PACKET
    requires bitString == [] || |bitString| >= MIN_PACKET + 2
    ensures FoldedIn(bitString, media, bits)
  {
    var first := bitString == [];
    if bitString == [] {
      bits := media[..8];
    } else {
      bits := XorRange(bitString, 0, media[..8]);
    }
    var len := Word((|media| - MIN_PACKET) % 0x1_0000);
    if |bits| == 8 {
      bits := bits + len;
    } else {
      bits := XorRange(bits, 8, len);
    }
    if |media| <= |bits| - 2 {
      bits := XorRange(bits, 10, media[8..]);
    } else {
      var tail := media[|bits| - 2..];
      bits := XorRange(bits, 10, media[8..|bits| - 2]);
      bits := bits + tail;
    }
    forall i | 0 <= i < |bits| ensures bits[i] == Xor(At(bitString, i), At(Protected(media), i)) {
      var p := Protected(media);
      XorLaws(At(p, i), 0, 0);
      XorLaws(At(bitString, i), 0, 0);
      assert i < |p| ==> p[i] == if i < 8 then media[i] else if i < 10 then len[i - 8] else media[i - 2];
    }
  }

  /** `octet |= 0b10000000 >> bit`. */
  function SetBit(octet: byte, bit: nat): byte
    requires bit < 8
  {
    if Bit(octet, bit) then octet else (octet + Weight(bit)) % 256
  }

  /** The loop over `mask.at(u / 8)`; it throws as soon as u reaches the 48 bits of the array. */
  method BuildMask(k: nat) returns (ok: bool, mask: seq<byte>)
    ensures ok <==> k <= MAX_MASK_BITS
    ensures ok ==> mask == MaskOctets(k)
  {
    mask := [0, 0, 0, 0, 0, 0];
    assert mask == MaskOctets(0);
    var u := 0;
    while u < k
      invariant 0 <= u <= k && u <= MAX_MASK_BITS
      invariant mask == MaskOctets(u)
    {
      if u / 8 >= 6 {
        return false, mask;
      }
      mask := mask[u / 8 := SetBit(mask[u / 8], u % 8)];
      assert mask == MaskOctets(u + 1);
      u := u + 1;
    }
    ok := true;
  }

  /** The tail of `generate_next_fec_packet` that writes the packet out. */
  method WriteOut(bits: seq<byte>, base: uint16, k: nat, offset: nat) returns (r: Emission)
    requires |bits| >= MIN_PACKET + 2 && offset <= MIN_PACKET
    ensures r == if k > MAX_MASK_BITS then OutOfRange else Emitted(Packetised(bits, base, k, offset))
  {
    var octet := bits[0] % 64;
    if k > 16 {
      octet := octet + 64;
    }
    var packet := [octet, bits[1]];
    packet := packet + Word(base);
    packet := packet + bits[4..10];
    packet := packet + Word((|bits| - (offset + 2)) % 0x1_0000);
    var ok, mask := BuildMask(k);
    if !ok {
      return OutOfRange;
    }
    packet := packet + (if k > 16 then mask else mask[..2]);
    packet := packet + bits[offset + 2..];
    r := Emitted(packet);
  }

  /** `k`, except that a generator made with 0 behaves like one made with 1 when it counts. */
  function Period(k: nat): (r: nat)
    ensures r > 0
  {
    if k == 0 then 1 else k
  }

  /** The packets in the bit string: it is cleared by an emission, but not when `mask.at` throws. */
  function InBitString(fed: seq<Media>, k: nat): seq<Media>
  {
    if k <= MAX_MASK_BITS then Remainder(fed, Period(k)) else fed
  }

  function LastGroup(fed: seq<Media>, k: nat): seq<Media>
    requires |fed| >= Period(k)
  {
    fed[|fed| - Period(k)..]
  }

  predicate Reflects(fed: seq<Media>, k: nat, counter: int, bits: seq<byte>, base: int)
  {
    && AllMedia(fed)
    && counter == (if k == 0 then 0 else k - |Remainder(fed, Period(k))|)
    && base == GroupBase(Remainder(fed, Period(k)))
    && bits == (if InBitString(fed, k) == [] then [] else Folded(InBitString(fed, k)))
  }

  /** What the call that completes the run `fed` returns. */
  function Expected(fed: seq<Media>, k: nat, offset: nat): Emission
    requires AllMedia(fed) && fed != [] && offset <= MIN_PACKET
  {
    if Phase(|fed|, Period(k)) != 0 then Nothing
    else if k > MAX_MASK_BITS then OutOfRange
    else
      LastGroupExists(fed, k);
      Emitted(FecPacketOf(LastGroup(fed, k), k, offset))
  }

  lemma {:induction false} LastGroupExists(fed: seq<Media>, k: nat)
    requires fed != [] && Phase(|fed|, Period(k)) == 0
    ensures |fed| >= Period(k)
    ensures LastGroup(fed, k) != []
    ensures AllMedia(fed) ==> AllMedia(LastGroup(fed, k))
  {
    var n := |fed| - 1;
    assert fed == fed[..n] + [fed[n]];
    RemainderSnoc(fed[..n], fed[n], Period(k));
  }

  function NextBase(base: uint16, number: uint16): uint16
  {
    if base != 0 && base < number then base else number
  }

  lemma {:induction false} CountingStep(fed: seq<Media>, m: Media, k: nat, counter: int, bits: seq<byte>,
                                        base: uint16, folded: seq<byte>,
                     offset: nat)
    requires Reflects(fed, k, counter, bits, base) && |m.octets| >= MIN_PACKET && offset <= MIN_PACKET
    requires FoldedIn(bits, m.octets, folded)
    requires counter > 1
    ensures AllMedia(fed + [m]) && Expected(fed + [m], k, offset) == Nothing
    ensures Reflects(fed + [m], k, counter - 1, folded, NextBase(base, m.number))
  {
    var before, inside := Remainder(fed, Period(k)), InBitString(fed, k);
    RemainderSnoc(fed, m, Period(k));
    FoldedSnocAll(inside, m, bits, folded);
    assert (before + [m])[..|before|] == before;
    assert AllMedia(fed + [m]);
  }

  lemma {:induction false} ThrowingStep(fed: seq<Media>, m: Media, k: nat, counter: int, bits: seq<byte>,
                                        base: uint16, folded: seq<byte>,
                     offset: nat)
    requires Reflects(fed, k, counter, bits, base) && |m.octets| >= MIN_PACKET && offset <= MIN_PACKET
    requires FoldedIn(bits, m.octets, folded)
    requires counter <= 1 && k > MAX_MASK_BITS
    ensures AllMedia(fed + [m]) && Expected(fed + [m], k, offset) == OutOfRange
    ensures Reflects(fed + [m], k, k, folded, 0)
  {
    hide *;
    CompletingCall(fed, m, k, counter, bits, base);
    FoldedSnocAll(fed, m, bits, folded);
    AfterThrow(fed + [m], k, folded, offset);
  }

  lemma {:induction false} AfterThrow(fed: seq<Media>, k: nat, folded: seq<byte>, offset: nat)
    requires fed != [] && AllMedia(fed) && Phase(|fed|, Period(k)) == 0 && offset <= MIN_PACKET
    requires k > MAX_MASK_BITS && folded == Folded(fed)
    ensures Reflects(fed, k, k, folded, 0)
    ensures Expected(fed, k, offset) == OutOfRange
  {
    assert Remainder(fed, Period(k)) == [];
  }

  lemma {:induction false} EmittingStep(fed: seq<Media>, m: Media, k: nat, counter: int, bits: seq<byte>,
                                        base: uint16, folded: seq<byte>,
                     offset: nat)
    requires Reflects(fed, k, counter, bits, base) && |m.octets| >= MIN_PACKET && offset <= MIN_PACKET
    requires FoldedIn(bits, m.octets, folded)
    requires counter <= 1 && k <= MAX_MASK_BITS
    ensures AllMedia(fed + [m]) && |folded| >= MIN_PACKET + 2
    ensures Reflects(fed + [m], k, k, [], 0)
    ensures Expected(fed + [m], k, offset) == Emitted(Packetised(folded, NextBase(base, m.number), k, offset))
  {
    hide *;
    CompletingCall(fed, m, k, counter, bits, base);
    CompletedGroup(Remainder(fed, Period(k)), m, bits, base, folded, k, offset);
    AfterEmission(fed + [m], k);
    ExpectedEmission(fed + [m], k, offset);
  }

  lemma {:induction false} CompletingCall(fed: seq<Media>, m: Media, k: nat, counter: int, bits: seq<byte>,
                                          base: uint16)
    requires Reflects(fed, k, counter, bits, base) && |m.octets| >= MIN_PACKET
    requires counter <= 1
    ensures AllMedia(fed) && AllMedia(fed + [m]) && AllMedia(Remainder(fed, Period(k))) && fed + [m] != []
    ensures Phase(|fed + [m]|, Period(k)) == 0 && |fed + [m]| >= Period(k)
    ensures LastGroup(fed + [m], k) == Remainder(fed, Period(k)) + [m]
    ensures base == GroupBase(Remainder(fed, Period(k)))
    ensures var inside := if k <= MAX_MASK_BITS then Remainder(fed, Period(k)) else fed;
      bits == if inside == [] then [] else Folded(inside)
  {
    AllMediaSnoc(fed, m);
    RemainderSnoc(fed, m, Period(k));
  }

  lemma {:induction false} AfterEmission(fed: seq<Media>, k: nat)
    requires AllMedia(fed) && Phase(|fed|, Period(k)) == 0
    ensures k <= MAX_MASK_BITS ==> Reflects(fed, k, k, [], 0)
  {
    assert Remainder(fed, Period(k)) == [];
  }

  lemma {:induction false} ExpectedEmission(fed: seq<Media>, k: nat, offset: nat)
    requires fed != [] && AllMedia(fed) && offset <= MIN_PACKET
    requires Phase(|fed|, Period(k)) == 0 && k <= MAX_MASK_BITS
    ensures |fed| >= Period(k) && AllMedia(LastGroup(fed, k)) && LastGroup(fed, k) != []
    ensures Expected(fed, k, offset) == Emitted(FecPacketOf(LastGroup(fed, k), k, offset))
  {
    LastGroupExists(fed, k);
  }

  lemma {:induction false} AllMediaSnoc(ms: seq<Media>, m: Media)
    requires AllMedia(ms) && |m.octets| >= MIN_PACKET
    ensures AllMedia(ms + [m])
  {
  }

  lemma {:induction false} CompletedGroup(before: seq<Media>, m: Media, bits: seq<byte>, base: uint16,
                                          folded: seq<byte>, k: nat, offset: nat)
    requires AllMedia(before) && |m.octets| >= MIN_PACKET && offset <= MIN_PACKET
    requires bits == if before == [] then [] else Folded(before)
    requires base == GroupBase(before) && FoldedIn(bits, m.octets, folded)
    ensures AllMedia(before + [m]) && |folded| >= MIN_PACKET + 2
    ensures FecPacketOf(before + [m], k, offset) == Packetised(folded, NextBase(base, m.number), k, offset)
  {
    FoldedSnocAll(before, m, bits, folded);
    assert (before + [m])[..|before|] == before;
  }

  /** A fresh generator says nothing before its k-th packet and then speaks for all of them. */
  lemma {:induction false} FirstGroup(fed: seq<Media>, k: nat, offset: nat)
    requires fed != [] && AllMedia(fed) && offset <= MIN_PACKET && |fed| <= k
    ensures Expected(fed, k, offset) ==
      if |fed| < k then Nothing else if k > MAX_MASK_BITS then OutOfRange else Emitted(FecPacketOf(fed, k, offset))
  {
    RemainderUnique(|fed|, k, if |fed| == k then 1 else 0, if |fed| == k then 0 else |fed|);
    assert |fed| == k ==> LastGroup(fed, k) == fed;
  }

  lemma {:induction false} NothingFed(k: uint16)
    ensures Reflects([], k, k, [], 0)
  {
    RemainderOfNothing(Period(k));
    hide Folded, Remainder;
  }

  lemma {:induction false} RemainderOfNothing(k: nat)
    requires k > 0
    ensures Remainder([], k) == []
  {
    RemainderUnique(0, k, 0, 0);
    assert Phase(0, k) == 0;
    hide Phase;
  }

  class FecGenerator {
    const fecK: uint16
    const payloadOffset: nat
    var currentFecK: uint16
    var fecBitString: seq<byte>
    var fecSeqBase: uint16
    /** Every packet accepted so far. */
    ghost var fed: seq<Media>

    ghost predicate Valid()
      reads this
    {
      payloadOffset <= MIN_PACKET && Reflects(fed, fecK, currentFecK, fecBitString, fecSeqBase)
    }

    constructor (fecK: uint16, payloadOffset: nat)
      requires payloadOffset <= MIN_PACKET
      ensures Valid() && fed == [] && this.fecK == fecK && this.payloadOffset == payloadOffset
    {
      this.fecK := fecK;
      this.payloadOffset := payloadOffset;
      currentFecK := fecK;
      fecBitString := [];
      fecSeqBase := 0;
      fed := [];
      new;
      NothingFed(fecK);
      hide Reflects;
    }

    /** `generate_next_fec_packet`: call n emits exactly when k divides n, and then protects just the last k packets. */
    method Generate(media: seq<byte>, seqNum: uint16) returns (r: Emission)
      requires Valid()
      modifies this
      ensures Valid()
      ensures |media| < MIN_PACKET ==> r == LogicError && fed == old(fed)
      ensures |media| >= MIN_PACKET ==>
        && fed == old(fed) + [Media(media, seqNum)]
        && AllMedia(fed)
        && r == Expected(fed, fecK, payloadOffset)
    {
      hide Reflects, FoldedIn, Packetised, Expected;
      if |media| < MIN_PACKET {
        return LogicError;
      }
      ghost var m, base := Media(media, seqNum), fecSeqBase;
      if fecSeqBase != 0 {
        fecSeqBase := if seqNum < fecSeqBase then seqNum else fecSeqBase;
      } else {
        fecSeqBase := seqNum;
      }
      assert fecSeqBase == NextBase(base, seqNum);
      BitStringLength(fed, fecK, currentFecK, fecBitString, base);
      var folded := FoldIn(fecBitString, media);
      ghost var bits := fecBitString;
      fecBitString := folded;
      fed := fed + [m];

      if currentFecK > 1 {
        CountingStep(old(fed), m, fecK, currentFecK, bits, base, folded, payloadOffset);
        currentFecK := currentFecK - 1;
        return Nothing;
      }
      ghost var counter := currentFecK;
      currentFecK := fecK;
      r := WriteOut(fecBitString, fecSeqBase, fecK, payloadOffset);
      fecSeqBase := 0;
      if r.Emitted? {
        EmittingStep(old(fed), m, fecK, counter, bits, base, folded, payloadOffset);
        fecBitString := [];
      } else {
        ThrowingStep(old(fed), m, fecK, counter, bits, base, folded, payloadOffset);
      }
    }
  }

  lemma {:induction false} BitStringLength(fed: seq<Media>, k: nat, counter: int, bits: seq<byte>, base: int)
    requires Reflects(fed, k, counter, bits, base)
    ensures bits == [] || |bits| >= MIN_PACKET + 2
  {
    if InBitString(fed, k) != [] {
      FoldedLength(InBitString(fed, k));
    }
  }

  lemma {:induction false} FoldedSnocAll(ms: seq<Media>, m: Media, before: seq<byte>, bits: seq<byte>)
    requires AllMedia(ms) && |m.octets| >= MIN_PACKET
    requires before == if ms == [] then [] else Folded(ms)
    requires FoldedIn(before, m.octets, bits)
    ensures AllMedia(ms + [m]) && bits == Folded(ms + [m])
  {
    FoldedSnoc(ms, m, 0);
    forall i | 0 <= i < |bits| ensures bits[i] == Folded(ms + [m])[i] {
      FoldedSnoc(ms, m, i);
    }
  }
}
