/** What one parity packet and all but one member of its group give back. */
module RecoveryTheorems {
  import opened Wrappers
  import opened Octets
  import opened Parity
  import opened RtpPacket
  import opened FecGeneration
  import opened FecRecovery
  import FecWire

  // ---- columns of a group ----

  function OctetsOf(ms: seq<Media>): (r: seq<seq<byte>>)
    ensures |r| == |ms|
  {
    seq(|ms|, i requires 0 <= i < |ms| => ms[i].octets)
  }

  /** The XOR of octet `j` over a group, zero-padded. */
  function Column(ms: seq<Media>, j: nat): byte
  {
    ParityAt(OctetsOf(ms), j)
  }

  lemma {:induction false} AllMediaFront(ms: seq<Media>)
    requires AllMedia(ms) && ms != []
    ensures AllMedia(ms[..|ms| - 1]) && |ms[|ms| - 1].octets| >= MIN_PACKET
  {
    assert ms[|ms| - 1] in ms;
  }

  lemma {:induction false} TailColumn(ms: seq<Media>, offset: nat, i: nat)
    requires AllMedia(ms) && offset <= MIN_PACKET
    ensures ParityAt(Tails(ms, offset), i) == Column(ms, offset + i)
  {
    if ms == [] {
    } else {
      var n := |ms| - 1;
      AllMediaFront(ms);
      TailColumn(ms[..n], offset, i);
      assert Tails(ms, offset)[..n] == Tails(ms[..n], offset);
      assert OctetsOf(ms)[..n] == OctetsOf(ms[..n]);
    }
  }

  lemma {:induction false} ProtectedColumn(ms: seq<Media>, j: nat)
    requires AllMedia(ms)
    ensures j < 8 ==> ParityAt(ProtectedAll(ms), j) == Column(ms, j)
    ensures 8 <= j ==> ParityAt(ProtectedAll(ms), j + 2) == Column(ms, j)
  {
    if ms == [] {
    } else {
      var n := |ms| - 1;
      AllMediaFront(ms);
      ProtectedColumn(ms[..n], j);
      assert ProtectedAll(ms)[..n] == ProtectedAll(ms[..n]);
      assert OctetsOf(ms)[..n] == OctetsOf(ms[..n]);
      ProtectedAt(ms[n].octets, j);
    }
  }

  lemma {:induction false} ProtectedAt(m: seq<byte>, j: nat)
    requires |m| >= MIN_PACKET
    ensures j < 8 ==> At(Protected(m), j) == At(m, j)
    ensures 8 <= j ==> At(Protected(m), j + 2) == At(m, j)
    ensures Protected(m)[8..10] == Word((|m| - MIN_PACKET) % 0x1_0000)
  {
  }

  lemma {:induction false} ColumnCancels(ms: seq<Media>, x: nat, j: nat)
    requires x < |ms|
    ensures Xor(Column(ms, j), Column(Without(ms, x), j)) == At(ms[x].octets, j)
  {
    assert OctetsOf(Without(ms, x)) == Without(OctetsOf(ms), x);
    Cancellation(OctetsOf(ms), x, j);
  }

  lemma {:induction false} AllMediaWithout(ms: seq<Media>, x: nat)
    requires AllMedia(ms) && x < |ms|
    ensures AllMedia(Without(ms, x))
  {
  }

  // ---- two generator runs cancel ----

  lemma {:induction false} ZerosProtected(i: nat)
    ensures At(Protected(ZEROS), i) == 0
  {
    assert ZEROS[8..] == [0, 0, 0, 0];
  }

  lemma {:induction false} SurvivorsAccumulated(survivors: seq<Media>, number: uint16, i: nat)
    requires AllMedia(survivors)
    ensures AllMedia(survivors + [Media(ZEROS, number)])
    ensures At(Folded(survivors + [Media(ZEROS, number)]), i) == ParityAt(ProtectedAll(survivors), i)
  {
    AllMediaSnoc(survivors, Media(ZEROS, number));
    FoldedSnoc(survivors, Media(ZEROS, number), i);
    ZerosProtected(i);
    ParityOfAt(ProtectedAll(survivors), i);
    XorLaws(ParityAt(ProtectedAll(survivors), i), 0, 0);
  }

  /**
   * The accumulator of a run over a group and that of a fresh run over the survivors and twelve zero octets
   * differ by exactly what the missing packet contributed.
   */
  lemma {:induction false} RunsCancel(group: seq<Media>, x: nat, number: uint16, i: nat)
    requires AllMedia(group) && x < |group|
    ensures |group[x].octets| >= MIN_PACKET
    ensures AllMedia(Without(group, x) + [Media(ZEROS, number)])
    ensures Xor(At(Folded(Without(group, x) + [Media(ZEROS, number)]), i), At(Folded(group), i))
         == At(Protected(group[x].octets), i)
  {
    var survivors := Without(group, x);
    AllMediaWithout(group, x);
    SurvivorsAccumulated(survivors, number, i);
    assert group[x] in group;
    ProtectedWithout(group, x);
    hide Protected, Xor, Without;
    Cancellation(ProtectedAll(group), x, i);
    ParityOfAt(ProtectedAll(group), i);
    XorLaws(ParityAt(ProtectedAll(survivors), i), ParityAt(ProtectedAll(group), i), 0);
  }

  lemma {:induction false} ProtectedWithout(group: seq<Media>, x: nat)
    requires AllMedia(group) && x < |group|
    ensures AllMedia(Without(group, x))
    ensures ProtectedAll(Without(group, x)) == Without(ProtectedAll(group), x)
  {
    AllMediaWithout(group, x);
  }

  lemma {:induction false} ProtectedMultiset(a: seq<Media>, b: seq<Media>)
    requires AllMedia(a) && AllMedia(b) && multiset(a) == multiset(b)
    ensures multiset(ProtectedAll(a)) == multiset(ProtectedAll(b))
    decreases |a|
  {
    if a == [] {
      assert |b| == |multiset(b)| == 0;
    } else {
      var last := |a| - 1;
      assert a[last] in multiset(b);
      var x :| 0 <= x < |b| && b[x] == a[last];
      MultisetOfWithout(a, last);
      MultisetOfWithout(b, x);
      ProtectedWithout(a, last);
      ProtectedWithout(b, x);
      ProtectedMultiset(Without(a, last), Without(b, x));
      MultisetOfWithout(ProtectedAll(a), last);
      MultisetOfWithout(ProtectedAll(b), x);
      hide *;
      MultisetRestored(ProtectedAll(a), ProtectedAll(b), last, x);
    }
  }

  lemma {:induction false} MultisetRestored<T>(s: seq<T>, t: seq<T>, i: nat, j: nat)
    requires i < |s| && j < |t| && s[i] == t[j]
    requires multiset(s) - multiset{s[i]} == multiset(t) - multiset{t[j]}
    ensures multiset(s) == multiset(t)
  {
    assert s[i] in multiset(s) && t[j] in multiset(t);
    assert multiset(s) == (multiset(s) - multiset{s[i]}) + multiset{s[i]};
    assert multiset(t) == (multiset(t) - multiset{t[j]}) + multiset{t[j]};
  }

  /** The bit string does not depend on the order in which the group's packets were fed in. */
  lemma {:induction false} FoldIgnoresOrder(a: seq<Media>, b: seq<Media>)
    requires AllMedia(a) && AllMedia(b) && multiset(a) == multiset(b)
    ensures Folded(a) == Folded(b)
  {
    ProtectedMultiset(a, b);
    OrderIrrelevant(ProtectedAll(a), ProtectedAll(b));
  }

  // ---- one packet of a sent group is lost ----

  /** A group sent with its parity packet under RTP header `h`, of which member `x` is missing. */
  predicate OneMissing(h: RtpHeader, group: seq<Media>, x: nat, emitOffset: nat)
  {
    && h.version == 2 && !h.extension && h.headerExtension == []
    && h.csrc == |h.csrcs| <= 15 && h.payloadType < 128
    && AllMedia(group) && 2 <= |group| <= MAX_MASK_BITS && x < |group| && emitOffset <= MIN_PACKET
    && forall m :: m in group ==> |m.octets| < 0x1_0000 + emitOffset
  }

  function RawFec(h: RtpHeader, group: seq<Media>, x: nat, emitOffset: nat): seq<byte>
    requires OneMissing(h, group, x, emitOffset)
  {
    EncodeHeader(h) + FecPacketOf(group, |group|, emitOffset)
  }

  function ParsedFec(h: RtpHeader, group: seq<Media>, x: nat, emitOffset: nat): (fec: FecPacket)
    requires OneMissing(h, group, x, emitOffset)
  {
    FoldedLength(group);
    FecWire.Recovered(h, Folded(group), GroupBase(group), |group|, emitOffset)
  }

  /** The receiver's grammar makes exactly that packet of the sent octets. */
  lemma {:induction false} ParsedFromRaw(h: RtpHeader, group: seq<Media>, x: nat, emitOffset: nat)
    requires OneMissing(h, group, x, emitOffset)
    ensures DecodeFec(RawFec(h, group, x, emitOffset)) == Some(ParsedFec(h, group, x, emitOffset))
  {
    FoldedLength(group);
    FecWire.FecWireRoundTrip(h, Folded(group), GroupBase(group), |group|, emitOffset);
    hide Folded, DecodeFec, FecWire.Recovered, Packetised, EncodeHeader;
  }

  function Columns(h: RtpHeader, group: seq<Media>, x: nat, emitOffset: nat): (r: seq<byte>)
    requires OneMissing(h, group, x, emitOffset)
    ensures |r| == 10
  {
    AllMediaWithout(group, x);
    RawFecParts(h, group, x, emitOffset);
    HeaderColumns(RawFec(h, group, x, emitOffset), FIXED_HEADER + 4 * h.csrc, Without(group, x),
                  Without(group, x)[0].number)
  }

  lemma {:induction false} RawFecParts(h: RtpHeader, group: seq<Media>, x: nat, emitOffset: nat)
    requires OneMissing(h, group, x, emitOffset)
    ensures var raw, at := RawFec(h, group, x, emitOffset), FIXED_HEADER + 4 * h.csrc;
      && at + 10 <= |raw|
      && |Folded(group)| >= MIN_PACKET + 2
      && raw[at..at + 10] == FecWire.FecHeaderOctets(Folded(group), GroupBase(group), |group|)
  {
    hide Folded, FecPacketOf, EncodeHeader, GroupBase, FecWire.FecHeaderOctets, FecWire.LevelOctets;
    FecWire.FecPacketParts(group, |group|, emitOffset);
    HeaderLength(h);
    Middle(EncodeHeader(h), FecWire.FecHeaderOctets(Folded(group), GroupBase(group), |group|),
           FecWire.LevelOctets(Folded(group), |group|, emitOffset));
  }

  lemma {:induction false} Middle(a: seq<byte>, b: seq<byte>, c: seq<byte>)
    ensures (a + (b + c))[|a|..|a| + |b|] == b
  {
  }

  /** Each recovered column, apart from the base sequence number field, is the lost packet's own octet. */
  lemma {:induction false} ColumnRecovery(h: RtpHeader, group: seq<Media>, x: nat, emitOffset: nat, i: nat)
    requires OneMissing(h, group, x, emitOffset) && (i < 2 || 4 <= i < 10)
    ensures |group[x].octets| >= MIN_PACKET
    ensures var c, p := Columns(h, group, x, emitOffset), Protected(group[x].octets);
      if i == 0 then c[0] % 64 == p[0] % 64 else c[i] == p[i]
  {
    var number := Without(group, x)[0].number;
    var all := Without(group, x) + [Media(ZEROS, number)];
    RunsCancel(group, x, number, i);
    RawFecHeader(h, group, x, emitOffset, i);
    SecondRunHeader(all, i);
    ColumnIs(h, group, x, emitOffset, i);
    FoldedLength(group);
    FecWire.HeaderOctetsXor(Folded(all), Folded(group), |group|, i);
    hide *;
    AtInside(Folded(all), i);
    AtInside(Folded(group), i);
    AtInside(Protected(group[x].octets), i);
  }

  lemma {:induction false} AtInside(s: seq<byte>, i: nat)
    requires i < |s|
    ensures At(s, i) == s[i]
  {
  }

  lemma {:induction false} ColumnIs(h: RtpHeader, group: seq<Media>, x: nat, emitOffset: nat, i: nat)
    requires OneMissing(h, group, x, emitOffset) && i < 10
    ensures var second := SecondPacket(h, group, x, emitOffset);
      && FIXED_HEADER + 4 * h.csrc + 10 <= |RawFec(h, group, x, emitOffset)|
      && Columns(h, group, x, emitOffset)[i] == Xor(second[i], RawFec(h, group, x, emitOffset)[FIXED_HEADER + 4 * h.csrc + i])
  {
    RawFecParts(h, group, x, emitOffset);
    hide FecPacketOf, RawFec, Xor, Folded, GroupBase, FecWire.FecHeaderOctets;
  }

  /** What the second generator emits: the survivors and twelve zeros folded. */
  function SecondPacket(h: RtpHeader, group: seq<Media>, x: nat, emitOffset: nat): (second: seq<byte>)
    requires OneMissing(h, group, x, emitOffset)
    ensures |second| >= 10
  {
    var all := Without(group, x) + [Media(ZEROS, Without(group, x)[0].number)];
    AllMediaWithout(group, x);
    AllMediaSnoc(Without(group, x), Media(ZEROS, Without(group, x)[0].number));
    FecPacketLength(all, |all|, SHIPPED_EMIT_OFFSET);
    FecPacketOf(all, |all|, SHIPPED_EMIT_OFFSET)
  }

  lemma {:induction false} RawFecHeader(h: RtpHeader, group: seq<Media>, x: nat, emitOffset: nat, i: nat)
    requires OneMissing(h, group, x, emitOffset) && (i < 2 || 4 <= i < 10)
    ensures var raw, at := RawFec(h, group, x, emitOffset), FIXED_HEADER + 4 * h.csrc;
      && at + 10 <= |raw| && |Folded(group)| >= MIN_PACKET + 2
      && raw[at + i] == FecWire.HeaderOctet(Folded(group), |group|, i)
  {
    hide Folded, RawFec, GroupBase, FecWire.FecHeaderOctets, FecWire.HeaderOctet;
    RawFecParts(h, group, x, emitOffset);
    hide OneMissing, AllMedia;
    FecWire.HeaderOctetAt(Folded(group), GroupBase(group), |group|, i);
    SliceIndex(RawFec(h, group, x, emitOffset), FIXED_HEADER + 4 * h.csrc, i);
  }

  lemma {:induction false} SliceIndex(s: seq<byte>, at: nat, i: nat)
    requires at + 10 <= |s| && i < 10
    ensures s[at..at + 10][i] == s[at + i]
  {
  }

  lemma {:induction false} SecondRunHeader(all: seq<Media>, i: nat)
    requires AllMedia(all) && all != [] && (i < 2 || 4 <= i < 10)
    ensures |Folded(all)| >= MIN_PACKET + 2
    ensures var second := FecPacketOf(all, |all|, SHIPPED_EMIT_OFFSET);
      && |second| >= 10
      && second[i] == FecWire.HeaderOctet(Folded(all), |all|, i)
  {
    FecWire.FecPacketParts(all, |all|, SHIPPED_EMIT_OFFSET);
    FecWire.HeaderOctetAt(Folded(all), GroupBase(all), |all|, i);
    hide *;
  }

  /** `c` has the P, X, CC, M and PT bits, the timestamp and the length recovery field of packet `m`. */
  predicate HeaderMatches(c: seq<byte>, m: seq<byte>)
  {
    && |m| >= MIN_PACKET && |c| == 10
    && c[0] % 64 == m[0] % 64 && c[1] == m[1]
    && c[4..8] == m[4..8]
    && c[8..10] == Word((|m| - MIN_PACKET) % 0x1_0000)
  }

  /** The recovered columns are the lost packet's first octets, except the base sequence number field. */
  lemma {:induction false} HeaderRecovery(h: RtpHeader, group: seq<Media>, x: nat, emitOffset: nat)
    requires OneMissing(h, group, x, emitOffset)
    ensures HeaderMatches(Columns(h, group, x, emitOffset), group[x].octets)
  {
    hide Columns, HeaderMatches;
    AllColumns(h, group, x, emitOffset, Columns(h, group, x, emitOffset), group[x].octets);
    HeaderFromColumns(Columns(h, group, x, emitOffset), group[x].octets);
  }

  lemma {:induction false} HeaderFromColumns(c: seq<byte>, m: seq<byte>)
    requires |m| >= MIN_PACKET && |c| == 10
    requires c[0] % 64 == Protected(m)[0] % 64 && c[1] == Protected(m)[1]
    requires forall i :: 4 <= i < 10 ==> c[i] == Protected(m)[i]
    ensures HeaderMatches(c, m)
  {
    ProtectedParts(m);
    hide Protected, Word;
    assert c[4..8] == Protected(m)[4..8];
    assert c[8..10] == Protected(m)[8..10];
  }

  lemma {:induction false} AllColumns(h: RtpHeader, group: seq<Media>, x: nat, emitOffset: nat, c: seq<byte>,
                                      m: seq<byte>)
    requires OneMissing(h, group, x, emitOffset) && c == Columns(h, group, x, emitOffset) && m == group[x].octets
    ensures |m| >= MIN_PACKET && |c| == 10
    ensures c[0] % 64 == Protected(m)[0] % 64 && c[1] == Protected(m)[1]
    ensures forall i :: 4 <= i < 10 ==> c[i] == Protected(m)[i]
  {
    ColumnRecovery(h, group, x, emitOffset, 0);
    ColumnRecovery(h, group, x, emitOffset, 1);
    hide Columns, OneMissing, Protected;
    forall i | 4 <= i < 10 ensures c[i] == Protected(m)[i] {
      ColumnRecovery(h, group, x, emitOffset, i);
    }
  }

  lemma {:induction false} ProtectedParts(m: seq<byte>)
    requires |m| >= MIN_PACKET
    ensures Protected(m)[0] == m[0] && Protected(m)[1] == m[1] && Protected(m)[4..8] == m[4..8]
    ensures Protected(m)[8..10] == Word((|m| - MIN_PACKET) % 0x1_0000)
  {
  }

  /** What a packet becomes when its sequence number and SSRC are lost. */
  function Cleared(m: seq<byte>): (r: seq<byte>)
    requires |m| >= MIN_PACKET
    ensures |r| == |m|
  {
    [m[0], m[1], 0, 0] + m[4..8] + [0, 0, 0, 0] + m[12..]
  }

  function Zeros(n: nat): (r: seq<byte>)
    ensures |r| == n
  {
    seq(n, _ => 0)
  }

  /** The rebuilt twelve octets are the lost packet's, sequence number and SSRC cleared. */
  lemma {:induction false} FixedRecovery(h: RtpHeader, group: seq<Media>, x: nat, emitOffset: nat)
    requires OneMissing(h, group, x, emitOffset)
    ensures |group[x].octets| >= MIN_PACKET
    ensures group[x].octets[0] / 64 == 2 ==>
      EncodeFixed(RebuiltHeader(Columns(h, group, x, emitOffset))) == Cleared(group[x].octets)[..12]
  {
    HeaderRecovery(h, group, x, emitOffset);
    hide Columns;
    if group[x].octets[0] / 64 == 2 {
      FixedFromColumns(Columns(h, group, x, emitOffset), group[x].octets);
    }
  }

  lemma {:induction false} FixedFromColumns(c: seq<byte>, m: seq<byte>)
    requires HeaderMatches(c, m) && m[0] / 64 == 2
    ensures EncodeFixed(RebuiltHeader(c)) == Cleared(m)[..12]
  {
    var r := RebuiltHeader(c);
    var e := EncodeFixed(r);
    FirstOctet(r);
    SecondOctet(r);
    FixedParts(r);
    DwordRoundTrip(r.timestamp, c, 4);
    hide EncodeFixed, Dword, DwordAt, Word, Cleared;
    FlagsOf(c[0], m[0]);
    assert e[0] == m[0];
    assert e[1] == m[1];
    ZeroWords();
    assert e == [e[0], e[1]] + e[2..4] + e[4..8] + e[8..12];
    ClearedFront(m);
  }

  lemma {:induction false} ClearedFront(m: seq<byte>)
    requires |m| >= MIN_PACKET
    ensures Cleared(m)[..12] == [m[0], m[1]] + [0, 0] + m[4..8] + [0, 0, 0, 0]
  {
  }

  lemma {:induction false} FlagsOf(a: byte, b: byte)
    requires a % 64 == b % 64 && b / 64 == 2
    ensures 128 + Flag(a / 32 % 2 == 1, 32) + Flag(a / 16 % 2 == 1, 16) + a % 16 == b
  {
    SplitOctet(a);
  }

  lemma {:induction false} ZeroWords()
    ensures Word(0) == [0, 0] && Dword(0) == [0, 0, 0, 0]
  {
  }

  lemma {:induction false} LevelColumn(group: seq<Media>, k: nat, offset: nat, i: nat)
    requires AllMedia(group) && group != [] && 8 <= offset <= MIN_PACKET
    requires |Folded(group)| < 0x1_0000 + 2 + offset && |Folded(group)| >= MIN_PACKET + 2
    ensures At(FecWire.LevelOf(Folded(group), k, offset).payload, i) == Column(group, offset + i)
  {
    FoldedColumn(group, Folded(group), offset + i);
    AtTail(Folded(group), offset + 2, i);
    hide Column, Folded, At, WireMask;
  }

  lemma {:induction false} AtTail(s: seq<byte>, from: nat, i: nat)
    requires from <= |s|
    ensures At(s[from..], i) == At(s, from + i)
  {
  }

  lemma {:induction false} FoldedColumn(group: seq<Media>, bits: seq<byte>, j: nat)
    requires AllMedia(group) && bits == Folded(group) && 8 <= j
    ensures At(bits, j + 2) == Column(group, j)
  {
    hide Column, ProtectedAll, ParityAt, At;
    ProtectedColumn(group, j);
    ParityOfAt(ProtectedAll(group), j + 2);
  }

  /** Octet `i` of the rebuilt payload, for any pair of offsets. */
  lemma {:induction false} PayloadColumn(h: RtpHeader, group: seq<Media>, x: nat, emitOffset: nat,
                                         survivorOffset: nat, i: nat)
    requires OneMissing(h, group, x, emitOffset) && 8 <= emitOffset && survivorOffset <= MIN_PACKET
    requires i < |Folded(group)| - 2 - emitOffset
    ensures AllMedia(Without(group, x))
    ensures RebuiltPayload(ParsedFec(h, group, x, emitOffset).levels[0], Without(group, x), survivorOffset)[i]
         == Xor(Column(group, emitOffset + i), Column(Without(group, x), survivorOffset + i))
  {
    FoldedLength(group);
    AllMediaWithout(group, x);
    LevelColumn(group, |group|, emitOffset, i);
    TailColumn(Without(group, x), survivorOffset, i);
  }

  lemma {:induction false} SurvivorsFit(group: seq<Media>, x: nat, length: nat, offset: nat)
    requires AllMedia(group) && x < |group| && |Folded(group)| - 2 <= length + offset
    ensures Fits(Without(group, x), offset, length)
  {
    FoldedLength(group);
    hide Folded;
    forall m | m in Without(group, x) ensures |m.octets| <= length + offset {
      assert m in group;
    }
  }

  lemma {:induction false} LevelLength(h: RtpHeader, group: seq<Media>, x: nat, emitOffset: nat)
    requires OneMissing(h, group, x, emitOffset)
    ensures |Folded(group)| >= MIN_PACKET + 2
    ensures var level := ParsedFec(h, group, x, emitOffset).levels[0];
      |level.payload| == level.protectionLength == |Folded(group)| - 2 - emitOffset
  {
    FoldedLength(group);
    hide Folded;
  }

  function Survivors(h: RtpHeader, group: seq<Media>, x: nat, emitOffset: nat): (r: seq<Media>)
    requires OneMissing(h, group, x, emitOffset)
    ensures AllMedia(r) && r != [] && |r| + 1 == |group|
  {
    AllMediaWithout(group, x);
    Without(group, x)
  }

  /** Header octets from the columns, then the rebuilt payload. */
  function Rejoined(h: RtpHeader, group: seq<Media>, x: nat, emitOffset: nat, survivorOffset: nat): seq<byte>
    requires OneMissing(h, group, x, emitOffset) && survivorOffset <= MIN_PACKET
  {
    EncodeFixed(RebuiltHeader(Columns(h, group, x, emitOffset)))
    + RebuiltPayload(ParsedFec(h, group, x, emitOffset).levels[0], Survivors(h, group, x, emitOffset), survivorOffset)
  }

  /** Nothing in the reconstruction of a sent group throws or leaves a buffer. */
  lemma {:induction false} ReconstructionSucceeds(h: RtpHeader, group: seq<Media>, x: nat, emitOffset: nat,
                                                  survivorOffset: nat)
    requires OneMissing(h, group, x, emitOffset) && emitOffset <= survivorOffset <= MIN_PACKET
    ensures var octets := Rejoined(h, group, x, emitOffset, survivorOffset);
      Reconstruct(ParsedFec(h, group, x, emitOffset), RawFec(h, group, x, emitOffset),
                  Survivors(h, group, x, emitOffset), survivorOffset)
        == Rebuilt(DecodeJpeg(octets).packet, octets)
  {
    LevelLength(h, group, x, emitOffset);
    SurvivorsFit(group, x, |Folded(group)| - 2 - emitOffset, survivorOffset);
    RawFecParts(h, group, x, emitOffset);
    RejoinedIsRebuilt(h, group, x, emitOffset, survivorOffset);
    hide *;
    ReconstructRebuilds(ParsedFec(h, group, x, emitOffset), RawFec(h, group, x, emitOffset),
                        Survivors(h, group, x, emitOffset), survivorOffset);
  }

  lemma {:induction false} RejoinedIsRebuilt(h: RtpHeader, group: seq<Media>, x: nat, emitOffset: nat,
                                             survivorOffset: nat)
    requires OneMissing(h, group, x, emitOffset) && survivorOffset <= MIN_PACKET
    ensures FIXED_HEADER + 4 * h.csrc + 10 <= |RawFec(h, group, x, emitOffset)|
    ensures RebuiltOctets(ParsedFec(h, group, x, emitOffset), RawFec(h, group, x, emitOffset),
                          Survivors(h, group, x, emitOffset), survivorOffset)
         == Rejoined(h, group, x, emitOffset, survivorOffset)
  {
    RawFecParts(h, group, x, emitOffset);
    ParsedShape(h, group, x, emitOffset);
    ColumnsOfSurvivors(h, group, x, emitOffset);
    hide Folded, RebuiltPayload, HeaderColumns, EncodeFixed, RawFec, RebuiltHeader, ParsedFec, FecWire.FecHeaderOctets,
         AllMedia, GroupBase, Without, Columns, Survivors, RebuiltOctets;
    RebuiltIs(ParsedFec(h, group, x, emitOffset), RawFec(h, group, x, emitOffset), Survivors(h, group, x, emitOffset),
              survivorOffset, Columns(h, group, x, emitOffset));
  }

  lemma {:induction false} RebuiltIs(fec: FecPacket, raw: seq<byte>, media: seq<Media>, offset: nat, columns: seq<byte>)
    requires AllMedia(media) && media != [] && offset <= MIN_PACKET
    requires FIXED_HEADER + 4 * fec.header.csrc + 10 <= |raw| && fec.levels != []
    requires columns == HeaderColumns(raw, FIXED_HEADER + 4 * fec.header.csrc, media, media[0].number)
    ensures RebuiltOctets(fec, raw, media, offset)
         == EncodeFixed(RebuiltHeader(columns)) + RebuiltPayload(fec.levels[0], media, offset)
  {
    hide HeaderColumns, EncodeFixed, RebuiltHeader, RebuiltPayload;
  }

  lemma {:induction false} ColumnsOfSurvivors(h: RtpHeader, group: seq<Media>, x: nat, emitOffset: nat)
    requires OneMissing(h, group, x, emitOffset)
    ensures FIXED_HEADER + 4 * h.csrc + 10 <= |RawFec(h, group, x, emitOffset)|
    ensures var survivors := Survivors(h, group, x, emitOffset);
      Columns(h, group, x, emitOffset)
        == HeaderColumns(RawFec(h, group, x, emitOffset), FIXED_HEADER + 4 * h.csrc, survivors, survivors[0].number)
  {
    hide Folded, HeaderColumns, RawFec, ParsedFec, FecWire.FecHeaderOctets, AllMedia, GroupBase, Survivors, Without,
         OneMissing;
    RawFecParts(h, group, x, emitOffset);
    ParsedShape(h, group, x, emitOffset);
  }

  lemma {:induction false} ParsedShape(h: RtpHeader, group: seq<Media>, x: nat, emitOffset: nat)
    requires OneMissing(h, group, x, emitOffset)
    ensures ParsedFec(h, group, x, emitOffset).header == h && |ParsedFec(h, group, x, emitOffset).levels| == 1
    ensures Survivors(h, group, x, emitOffset) == Without(group, x)
    ensures |Survivors(h, group, x, emitOffset)| < MAX_MASK_BITS
  {
    hide Folded, FecWire.LevelOf;
  }

  lemma {:induction false} RejoinedPayloadAt(h: RtpHeader, group: seq<Media>, x: nat, i: nat)
    requires OneMissing(h, group, x, RFC_OFFSET) && i < |Folded(group)| - 2 - RFC_OFFSET
    ensures RebuiltPayload(ParsedFec(h, group, x, RFC_OFFSET).levels[0],
                           Survivors(h, group, x, RFC_OFFSET), RFC_OFFSET)[i]
         == At(group[x].octets, 12 + i)
  {
    assert Survivors(h, group, x, RFC_OFFSET) == Without(group, x);
    PayloadColumn(h, group, x, RFC_OFFSET, RFC_OFFSET, i);
    hide *;
    ColumnCancels(group, x, 12 + i);
  }

  lemma {:induction false} RejoinedPayload(h: RtpHeader, group: seq<Media>, x: nat)
    requires OneMissing(h, group, x, RFC_OFFSET)
    ensures var payload := RebuiltPayload(ParsedFec(h, group, x, RFC_OFFSET).levels[0],
                                          Survivors(h, group, x, RFC_OFFSET), RFC_OFFSET);
      && |payload| == |Folded(group)| - 2 - RFC_OFFSET
      && forall i :: 0 <= i < |payload| ==> payload[i] == At(group[x].octets, 12 + i)
  {
    LevelLength(h, group, x, RFC_OFFSET);
    hide *;
    var payload := RebuiltPayload(ParsedFec(h, group, x, RFC_OFFSET).levels[0],
                                  Survivors(h, group, x, RFC_OFFSET), RFC_OFFSET);
    forall i | 0 <= i < |payload| ensures payload[i] == At(group[x].octets, 12 + i) {
      RejoinedPayloadAt(h, group, x, i);
    }
  }

  /**
   * With both offsets at 12, as section 8.2 of RFC 5109 asks, the rebuilt octets are the lost packet with
   * sequence number and SSRC cleared, zero-padded to the longest packet of the group.
   */
  lemma {:induction false} ExactRecovery(h: RtpHeader, group: seq<Media>, x: nat)
    requires OneMissing(h, group, x, RFC_OFFSET)
    requires |group[x].octets| >= MIN_PACKET && group[x].octets[0] / 64 == 2
    ensures |group[x].octets| <= |Folded(group)| - 2
    ensures var octets := Cleared(group[x].octets) + Zeros(|Folded(group)| - 2 - |group[x].octets|);
      Reconstruct(ParsedFec(h, group, x, RFC_OFFSET), RawFec(h, group, x, RFC_OFFSET),
                  Survivors(h, group, x, RFC_OFFSET), RFC_OFFSET)
        == Rebuilt(DecodeJpeg(octets).packet, octets)
  {
    ReconstructionSucceeds(h, group, x, RFC_OFFSET, RFC_OFFSET);
    RejoinedIsCleared(h, group, x);
    hide *;
  }

  lemma {:induction false} RejoinedIsCleared(h: RtpHeader, group: seq<Media>, x: nat)
    requires OneMissing(h, group, x, RFC_OFFSET)
    requires |group[x].octets| >= MIN_PACKET && group[x].octets[0] / 64 == 2
    ensures |group[x].octets| <= |Folded(group)| - 2
    ensures Rejoined(h, group, x, RFC_OFFSET, RFC_OFFSET)
         == Cleared(group[x].octets) + Zeros(|Folded(group)| - 2 - |group[x].octets|)
  {
    var m := group[x].octets;
    FoldedLength(group);
    assert group[x] in group;
    FixedRecovery(h, group, x, RFC_OFFSET);
    RejoinedPayload(h, group, x);
    hide Folded, RebuiltPayload, Columns, EncodeFixed, RebuiltHeader, ParsedFec, Survivors;
    Assembled(m, RebuiltPayload(ParsedFec(h, group, x, RFC_OFFSET).levels[0], Survivors(h, group, x, RFC_OFFSET),
                                RFC_OFFSET), |Folded(group)| - 2);
  }

  lemma {:induction false} Assembled(m: seq<byte>, payload: seq<byte>, longest: nat)
    requires MIN_PACKET <= |m| <= longest && |payload| == longest - 12
    requires forall i :: 0 <= i < |payload| ==> payload[i] == At(m, 12 + i)
    ensures Cleared(m)[..12] + payload == Cleared(m) + Zeros(longest - |m|)
  {
    assert payload == m[12..] + Zeros(longest - |m|);
    assert Cleared(m) == Cleared(m)[..12] + m[12..];
  }
}
