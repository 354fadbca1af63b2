/** The RTP packet grammars and generators of `rtp_packet.hpp`. */
module RtpPacket {
  import opened Wrappers
  import opened Octets

  datatype RtpHeader = RtpHeader(
    version: byte, padding: bool, extension: bool, csrc: byte, marker: bool, payloadType: byte,
    sequenceNumber: uint16, timestamp: uint32, ssrc: uint32, csrcs: seq<uint32>, headerExtension: seq<byte>)

  datatype JpegPacket = JpegPacket(
    header: RtpHeader, typeSpecific: byte, fragmentOffset: nat, jpegType: byte, quantizationTable: byte,
    imageWidth: byte, imageHeight: byte, data: seq<byte>)

  /** A `uint64_t` mask is kept as its eight octets, most significant first. */
  datatype FecLevel = FecLevel(protectionLength: uint16, mask: seq<byte>, payload: seq<byte>)

  datatype FecPacket = FecPacket(
    header: RtpHeader, extensionFlag: bool, longMask: bool, pRecovery: bool, xRecovery: bool, ccRecovery: byte,
    mRecovery: bool, ptRecovery: byte, snBase: uint16, tsRecovery: uint32, lengthRecovery: uint16,
    levels: seq<FecLevel>)

  const JPEG_PAYLOAD_TYPE := 26
  const FEC_PAYLOAD_TYPE := 100
  const FIXED_HEADER := 12

  const INITIAL_HEADER := RtpHeader(2, false, false, 0, false, 0, 0, 0, 0, [], [])
  const INITIAL_JPEG := JpegPacket(INITIAL_HEADER, 0, 0, 0, 0, 0, 0, [])

  // ---- RTP header ----

  /** A grammar's verdict with whatever it had filled in, and how far it had read. */
  datatype HeaderParse = HeaderParse(ok: bool, header: RtpHeader, cursor: nat)

  function DecodeCsrcs(b: seq<byte>, at: nat, n: nat): (r: seq<uint32>)
    requires at + 4 * n <= |b|
    ensures |r| == n
  {
    seq(n, i requires 0 <= i < n => DwordAt(b, at + 4 * i))
  }

  /** The fixed twelve octets. */
  function DecodeFixed(b: seq<byte>): RtpHeader
    requires |b| >= FIXED_HEADER
  {
    RtpHeader(b[0] / 64, b[0] / 32 % 2 == 1, b[0] / 16 % 2 == 1, b[0] % 16, b[1] / 128 == 1, b[1] % 128,
              WordAt(b, 2), DwordAt(b, 4), DwordAt(b, 8), [], [])
  }

  /**
   * The extension bit makes the grammars read four octets and only then a length word, which may be missing
   * (it then counts as 0 and is not consumed).
   */
  function DecodeExtension(b: seq<byte>, h: RtpHeader, at: nat): HeaderParse
    requires at <= |b|
  {
    if at + 4 > |b| then HeaderParse(false, h, at)
    else
      var words := if at + 6 <= |b| then WordAt(b, at + 4) else 0;
      var rest := if at + 6 <= |b| then at + 6 else at + 4;
      if rest + 4 * words > |b| then HeaderParse(false, h.(headerExtension := b[at..at + 4]), rest)
      else HeaderParse(true, h.(headerExtension := b[at..at + 4] + b[rest..rest + 4 * words]), rest + 4 * words)
  }

  /** The RTP part shared by both grammars; only version 2 is read past the first octet. */
  function DecodeHeader(b: seq<byte>): (r: HeaderParse)
    ensures r.ok ==> FIXED_HEADER <= r.cursor <= |b| && r.header.version == 2
  {
    if |b| < FIXED_HEADER then HeaderParse(false, INITIAL_HEADER, 0)
    else
      var h := DecodeFixed(b);
      if h.version != 2 then HeaderParse(false, INITIAL_HEADER.(version := h.version), 1)
      else if FIXED_HEADER + 4 * h.csrc > |b| then HeaderParse(false, h, FIXED_HEADER)
      else
        var at := FIXED_HEADER + 4 * h.csrc;
        var full := h.(csrcs := DecodeCsrcs(b, FIXED_HEADER, h.csrc));
        if h.extension then DecodeExtension(b, full, at) else HeaderParse(true, full, at)
  }

  method ParseHeader(b: seq<byte>) returns (r: HeaderParse)
    ensures r == DecodeHeader(b)
  {
    if |b| < FIXED_HEADER {
      return HeaderParse(false, INITIAL_HEADER, 0);
    }
    var version := b[0] / 64;
    if version != 2 {
      return HeaderParse(false, INITIAL_HEADER.(version := version), 1);
    }
    var header := DecodeFixed(b);
    var cursor := FIXED_HEADER;
    if cursor + 4 * header.csrc > |b| {
      return HeaderParse(false, header, cursor);
    }
    var csrcs: seq<uint32> := [];
    var i := 0;
    while i < header.csrc
      invariant 0 <= i <= header.csrc && cursor == FIXED_HEADER + 4 * i
      invariant csrcs == DecodeCsrcs(b, FIXED_HEADER, i)
    {
      csrcs := csrcs + [DwordAt(b, cursor)];
      cursor := cursor + 4;
      i := i + 1;
    }
    header := header.(csrcs := csrcs);
    if header.extension {
      return DecodeExtension(b, header, cursor);
    }
    return HeaderParse(true, header, cursor);
  }

  function EncodeCsrcs(csrcs: seq<uint32>): (r: seq<byte>)
    ensures |r| == 4 * |csrcs|
  {
    if csrcs == [] then [] else EncodeCsrcs(csrcs[..|csrcs| - 1]) + Dword(csrcs[|csrcs| - 1])
  }

  function Flag(b: bool, weight: byte): byte
  {
    if b then weight else 0
  }

  /** The twelve octets written before the CSRC count is checked; oversized fields spill over their neighbours. */
  function EncodeFixed(h: RtpHeader): (r: seq<byte>)
    ensures |r| == FIXED_HEADER
  {
    [Or(Or(Or(128, Flag(h.padding, 32)), Flag(h.extension, 16)), h.csrc),
     Or(Flag(h.marker, 128), h.payloadType)]
    + Word(h.sequenceNumber) + Dword(h.timestamp) + Dword(h.ssrc)
  }

  predicate HeaderAccepted(h: RtpHeader)
  {
    h.version == 2 && h.csrc == |h.csrcs|
  }

  function EncodeHeader(h: RtpHeader): seq<byte>
  {
    EncodeFixed(h) + EncodeCsrcs(h.csrcs)
  }

  /** `standard_rtp_header_generator`: on a wrong CSRC count it fails with the fixed octets already written. */
  method GenerateHeader(h: RtpHeader) returns (ok: bool, sink: seq<byte>)
    ensures ok == HeaderAccepted(h)
    ensures sink == if h.version != 2 then [] else if ok then EncodeHeader(h) else EncodeFixed(h)
  {
    if h.version != 2 {
      return false, [];
    }
    hide EncodeFixed, Dword, EncodeCsrcs;
    sink := EncodeFixed(h);
    if h.csrc != |h.csrcs| {
      return false, sink;
    }
    NoCsrcs(h.csrcs);
    var i := 0;
    while i < |h.csrcs|
      invariant 0 <= i <= |h.csrcs|
      invariant sink == EncodeFixed(h) + EncodeCsrcs(h.csrcs[..i])
    {
      CsrcsSnoc(h.csrcs, i);
      sink := sink + Dword(h.csrcs[i]);
      i := i + 1;
    }
    assert h.csrcs[..i] == h.csrcs;
    ok := true;
  }

  lemma {:induction false} NoCsrcs(csrcs: seq<uint32>)
    ensures EncodeCsrcs(csrcs[..0]) == []
  {
  }

  lemma {:induction false} CsrcsSnoc(csrcs: seq<uint32>, i: nat)
    requires i < |csrcs|
    ensures EncodeCsrcs(csrcs[..i + 1]) == EncodeCsrcs(csrcs[..i]) + Dword(csrcs[i])
  {
    hide Dword;
    assert csrcs[..i + 1][..i] == csrcs[..i];
  }

  // ---- JPEG packets ----

  datatype JpegParse = JpegParse(ok: bool, packet: JpegPacket)

  function DecodeJpeg(b: seq<byte>): JpegParse
  {
    var rtp := DecodeHeader(b);
    var c := rtp.cursor;
    if !rtp.ok || rtp.header.payloadType != JPEG_PAYLOAD_TYPE || c + 8 > |b| then
      JpegParse(false, INITIAL_JPEG.(header := rtp.header))
    else
      JpegParse(true, JpegPacket(rtp.header, b[c], 0x1_0000 * (b[c + 1] as int) + WordAt(b, c + 2),
                                 b[c + 4], b[c + 5], b[c + 6], b[c + 7], b[c + 8..]))
  }

  method ParseJpeg(b: seq<byte>) returns (r: JpegParse)
    ensures r == DecodeJpeg(b)
  {
    var rtp := ParseHeader(b);
    var packet := INITIAL_JPEG.(header := rtp.header);
    if !rtp.ok {
      return JpegParse(false, packet);
    }
    if packet.header.payloadType != JPEG_PAYLOAD_TYPE {
      return JpegParse(false, packet);
    }
    var begin := rtp.cursor;
    if begin + 8 > |b| {
      return JpegParse(false, packet);
    }
    packet := packet.(typeSpecific := b[begin]);
    begin := begin + 1;
    var fragmentOffset := [0, b[begin], b[begin + 1], b[begin + 2]];
    packet := packet.(fragmentOffset := DwordAt(fragmentOffset, 0));
    begin := begin + 3;
    packet := packet.(jpegType := b[begin], quantizationTable := b[begin + 1],
                      imageWidth := b[begin + 2], imageHeight := b[begin + 3]);
    begin := begin + 4;
    return JpegParse(true, packet.(data := b[begin..]));
  }

  function EncodeProfile(p: JpegPacket): (r: seq<byte>)
    ensures |r| == 8
  {
    [p.typeSpecific] + Dword(p.fragmentOffset % 0x1_0000_0000)[1..]
    + [p.jpegType, p.quantizationTable, p.imageWidth, p.imageHeight]
  }

  function EncodeJpeg(p: JpegPacket): seq<byte>
  {
    EncodeHeader(p.header) + EncodeProfile(p) + p.data
  }

  method GenerateJpeg(p: JpegPacket) returns (ok: bool, sink: seq<byte>)
    ensures ok == HeaderAccepted(p.header)
    ensures sink == if p.header.version != 2 then [] else if ok then EncodeJpeg(p) else EncodeFixed(p.header)
  {
    hide EncodeFixed, EncodeCsrcs, EncodeProfile;
    ok, sink := GenerateHeader(p.header);
    if !ok {
      return;
    }
    sink := sink + EncodeProfile(p);
    var i := 0;
    while i < |p.data|
      invariant 0 <= i <= |p.data|
      invariant sink == EncodeHeader(p.header) + EncodeProfile(p) + p.data[..i]
    {
      sink := sink + [p.data[i]];
      i := i + 1;
    }
    assert p.data[..i] == p.data;
  }

  /** The packets the generator can express: no extension, and every field within its width. */
  predicate Expressible(p: JpegPacket)
  {
    && p.header.version == 2 && !p.header.extension && p.header.headerExtension == []
    && p.header.csrc == |p.header.csrcs| <= 15
    && p.header.payloadType == JPEG_PAYLOAD_TYPE
    && p.fragmentOffset < 0x100_0000
  }

  lemma {:induction false} OrIsSum(q: nat, b: byte, n: nat, p: nat)
    requires p == Pow2(n) && b < p && p * q < 256
    ensures Or(p * q, b) == p * q + b
  {
    OrDisjoint(q, b, n);
  }

  lemma {:induction false} FirstOctet(h: RtpHeader)
    requires h.csrc < 16
    ensures EncodeFixed(h)[0] == 128 + Flag(h.padding, 32) + Flag(h.extension, 16) + h.csrc
  {
    hide Or, Pow2, Word, Dword;
    PaddingBit(h.padding);
    ExtensionBit(h.padding, h.extension);
    CountBits(h.padding, h.extension, h.csrc);
  }

  lemma {:induction false} PaddingBit(padding: bool)
    ensures Or(128, Flag(padding, 32)) == 128 + Flag(padding, 32)
  {
    assert Pow2(6) == 64;
    hide Or, Pow2;
    OrIsSum(2, Flag(padding, 32), 6, 64);
  }

  lemma {:induction false} ExtensionBit(padding: bool, extension: bool)
    ensures Or(128 + Flag(padding, 32), Flag(extension, 16)) == 128 + Flag(padding, 32) + Flag(extension, 16)
  {
    assert Pow2(5) == 32;
    hide Or, Pow2;
    OrIsSum(if padding then 5 else 4, Flag(extension, 16), 5, 32);
  }

  lemma {:induction false} CountBits(padding: bool, extension: bool, count: byte)
    requires count < 16
    ensures Or(128 + Flag(padding, 32) + Flag(extension, 16), count) == 128 + Flag(padding, 32) + Flag(extension, 16) + count
  {
    assert Pow2(4) == 16;
    hide Or, Pow2;
    OrIsSum(8 + (if padding then 2 else 0) + (if extension then 1 else 0), count, 4, 16);
  }

  lemma {:induction false} SecondOctet(h: RtpHeader)
    requires h.payloadType < 128
    ensures EncodeFixed(h)[1] == Flag(h.marker, 128) + h.payloadType
  {
    assert Pow2(7) == 128;
    hide Or, Pow2, Word, Dword;
    OrIsSum(if h.marker then 1 else 0, h.payloadType, 7, 128);
  }

  lemma {:induction false} FixedParts(h: RtpHeader)
    ensures EncodeFixed(h)[2..4] == Word(h.sequenceNumber)
    ensures EncodeFixed(h)[4..8] == Dword(h.timestamp)
    ensures EncodeFixed(h)[8..12] == Dword(h.ssrc)
  {
    hide Or, Word, Dword;
  }

  /** What `EncodeFixed` writes, `DecodeFixed` reads back, whatever follows. */
  lemma {:induction false} FixedRoundTrip(h: RtpHeader, b: seq<byte>)
    requires h.version == 2 && h.csrc < 16 && h.payloadType < 128
    requires |b| >= FIXED_HEADER && b[..FIXED_HEADER] == EncodeFixed(h)
    ensures DecodeFixed(b) == h.(csrcs := [], headerExtension := [])
  {
    hide EncodeFixed, Word, Dword, WordAt, DwordAt;
    FirstOctet(h);
    SecondOctet(h);
    FixedParts(h);
    var e := EncodeFixed(h);
    assert b[0] == b[..12][0] == e[0] && b[1] == b[..12][1] == e[1];
    assert b[2..4] == e[2..4] && b[4..8] == e[4..8] && b[8..12] == e[8..12];
    WordRoundTrip(h.sequenceNumber, b, 2);
    DwordRoundTrip(h.timestamp, b, 4);
    DwordRoundTrip(h.ssrc, b, 8);
  }

  lemma {:induction false} CsrcsRoundTrip(csrcs: seq<uint32>, b: seq<byte>, at: nat)
    requires at + 4 * |csrcs| <= |b|
    ensures b[at..at + 4 * |csrcs|] == EncodeCsrcs(csrcs) <==> DecodeCsrcs(b, at, |csrcs|) == csrcs
  {
    if csrcs == [] {
    } else {
      var n := |csrcs| - 1;
      var front, last := csrcs[..n], csrcs[n];
      CsrcsRoundTrip(front, b, at);
      DwordRoundTrip(last, b, at + 4 * n);
      var whole, mid := b[at..at + 4 * |csrcs|], at + 4 * n;
      assert whole == b[at..mid] + b[mid..mid + 4];
      assert |EncodeCsrcs(front)| == |b[at..mid]|;
      var d := DecodeCsrcs(b, at, |csrcs|);
      assert d == DecodeCsrcs(b, at, n) + [DwordAt(b, mid)];
      assert csrcs == front + [last];
      if whole == EncodeCsrcs(csrcs) {
        assert b[at..mid] == whole[..4 * n] == EncodeCsrcs(front);
        assert b[mid..mid + 4] == whole[4 * n..] == Dword(last);
      }
      if d == csrcs {
        assert DecodeCsrcs(b, at, n) == d[..n] == front;
        assert DwordAt(b, mid) == d[n] == last;
      }
    }
  }

  lemma {:induction false} HeaderRoundTrip(h: RtpHeader, rest: seq<byte>)
    requires h.version == 2 && !h.extension && h.headerExtension == []
    requires h.csrc == |h.csrcs| <= 15 && h.payloadType < 128
    ensures DecodeHeader(EncodeHeader(h) + rest) == HeaderParse(true, h, FIXED_HEADER + 4 * h.csrc)
  {
    var b := EncodeHeader(h) + rest;
    assert b[..FIXED_HEADER] == EncodeFixed(h);
    FixedRoundTrip(h, b);
    assert b[FIXED_HEADER..FIXED_HEADER + 4 * |h.csrcs|] == EncodeCsrcs(h.csrcs);
    CsrcsRoundTrip(h.csrcs, b, FIXED_HEADER);
  }

  /** A header with the extension bit: four octets of any kind come first, and the length word is read behind them. */
  lemma {:induction false} ExtensionIsReadBehind(h: RtpHeader, profile: seq<byte>, words: uint16, y: seq<byte>)
    requires h.version == 2 && h.extension && h.headerExtension == []
    requires h.csrc == |h.csrcs| <= 15 && h.payloadType < 128 && |profile| == 4
    ensures var r := DecodeHeader(EncodeHeader(h) + (profile + (Word(words) + y)));
      && (r.ok <==> |y| >= 4 * words)
      && (r.ok ==> r == HeaderParse(true, h.(headerExtension := profile + y[..4 * words]), 18 + 4 * (|h.csrcs| + words)))
  {
    hide *;
    var head, tail := EncodeHeader(h), profile + (Word(words) + y);
    ToExtension(h, tail);
    SourcesReadBack(h, []);
    ExtensionParts(head, profile, words, y);
    ExtensionIs(head + tail, h, |head|, profile, words, y);
  }

  lemma {:induction false} ExtensionParts(head: seq<byte>, profile: seq<byte>, words: uint16, y: seq<byte>)
    requires |profile| == 4
    ensures var b, at := head + (profile + (Word(words) + y)), |head|;
      |b| == at + 6 + |y| && b[at..at + 4] == profile && WordAt(b, at + 4) == words && b[at + 6..] == y
  {
    var b, at := head + (profile + (Word(words) + y)), |head|;
    WordRoundTrip(words, b, at + 4);
    hide Word, WordAt;
    assert b[at + 4..at + 6] == Word(words);
  }

  lemma {:induction false} ExtensionIs(b: seq<byte>, h: RtpHeader, at: nat, profile: seq<byte>, words: uint16,
                                       y: seq<byte>)
    requires |b| == at + 6 + |y| && b[at..at + 4] == profile && WordAt(b, at + 4) == words && b[at + 6..] == y
    ensures var r := DecodeExtension(b, h, at);
      && (r.ok <==> |y| >= 4 * words)
      && (r.ok ==> r == HeaderParse(true, h.(headerExtension := profile + y[..4 * words]), at + 6 + 4 * words))
  {
    hide WordAt;
    assert |y| >= 4 * words ==> b[at + 6..at + 6 + 4 * words] == b[at + 6..][..4 * words];
  }

  lemma {:induction false} ToExtension(h: RtpHeader, tail: seq<byte>)
    requires h.version == 2 && h.extension && h.headerExtension == []
    requires h.csrc == |h.csrcs| <= 15 && h.payloadType < 128
    ensures var b := EncodeHeader(h) + tail;
      12 + 4 * |h.csrcs| <= |b| && DecodeHeader(b) == DecodeExtension(b, h, 12 + 4 * |h.csrcs|)
  {
    FixedReadBack(h, tail);
    SourcesReadBack(h, tail);
    hide DecodeExtension, DecodeFixed, DecodeCsrcs, EncodeHeader;
    HeaderParts(EncodeHeader(h) + tail, h);
  }

  lemma {:induction false} HeaderParts(b: seq<byte>, h: RtpHeader)
    requires h.version == 2 && h.extension && h.csrc == |h.csrcs| && 12 + 4 * |h.csrcs| <= |b|
    requires DecodeFixed(b) == h.(csrcs := [], headerExtension := []) && h.headerExtension == []
    requires DecodeCsrcs(b, 12, |h.csrcs|) == h.csrcs
    ensures DecodeHeader(b) == DecodeExtension(b, h, 12 + 4 * |h.csrcs|)
  {
    hide DecodeExtension, DecodeFixed, DecodeCsrcs;
    assert h.(csrcs := [], headerExtension := []).(csrcs := h.csrcs) == h;
  }

  lemma {:induction false} FixedReadBack(h: RtpHeader, tail: seq<byte>)
    requires h.version == 2 && h.csrc < 16 && h.payloadType < 128
    ensures |EncodeHeader(h)| >= 12
    ensures DecodeFixed(EncodeHeader(h) + tail) == h.(csrcs := [], headerExtension := [])
  {
    var b := EncodeHeader(h) + tail;
    assert b[..FIXED_HEADER] == EncodeFixed(h);
    FixedRoundTrip(h, b);
    hide DecodeFixed, EncodeFixed, EncodeCsrcs;
  }

  lemma {:induction false} SourcesReadBack(h: RtpHeader, tail: seq<byte>)
    ensures |EncodeHeader(h)| == 12 + 4 * |h.csrcs|
    ensures DecodeCsrcs(EncodeHeader(h) + tail, 12, |h.csrcs|) == h.csrcs
  {
    var b := EncodeHeader(h) + tail;
    HeaderLength(h);
    assert b[12..12 + 4 * |h.csrcs|] == EncodeCsrcs(h.csrcs);
    hide EncodeFixed, EncodeCsrcs, EncodeHeader, DecodeCsrcs;
    CsrcsRoundTrip(h.csrcs, b, 12);
  }

  lemma {:induction false} LowThreeOctets(n: nat, x: byte, y: byte, z: byte)
    requires n < 0x100_0000
    ensures Dword(n)[1..] == [x, y, z] <==> 0x1_0000 * (x as int) + 256 * (y as int) + z == n
  {
    OctetsOfDword(n);
    assert n == 0x1_0000 * (n / 0x1_0000) + 256 * (n % 0x1_0000 / 256) + n % 256;
    hide Dword;
  }

  lemma {:induction false} OctetsOfDword(n: nat)
    requires n < 0x100_0000
    ensures Dword(n)[1..] == [n / 0x1_0000, n % 0x1_0000 / 256, n % 256]
  {
    var d := Dword(n);
    assert d[0] == 0 && d[1] == n / 0x1_0000 && d[2] == n % 0x1_0000 / 256 && d[3] == n % 256;
    assert d[1..] == [d[1], d[2], d[3]];
  }

  lemma {:induction false} ProfileOctets(p: JpegPacket, b: seq<byte>, c: nat)
    requires p.fragmentOffset < 0x100_0000 && c + 8 <= |b|
    ensures b[c..c + 8] == EncodeProfile(p) <==>
      && b[c] == p.typeSpecific
      && 0x1_0000 * (b[c + 1] as int) + WordAt(b, c + 2) == p.fragmentOffset
      && b[c + 4] == p.jpegType && b[c + 5] == p.quantizationTable
      && b[c + 6] == p.imageWidth && b[c + 7] == p.imageHeight
  {
    LowThreeOctets(p.fragmentOffset, b[c + 1], b[c + 2], b[c + 3]);
    var d, e := Dword(p.fragmentOffset)[1..], EncodeProfile(p);
    assert p.fragmentOffset % 0x1_0000_0000 == p.fragmentOffset;
    hide Dword;
    assert d == [d[0], d[1], d[2]];
    assert e == [p.typeSpecific, d[0], d[1], d[2], p.jpegType, p.quantizationTable, p.imageWidth, p.imageHeight];
    assert b[c..c + 8] == [b[c], b[c + 1], b[c + 2], b[c + 3], b[c + 4], b[c + 5], b[c + 6], b[c + 7]];
  }

  /** Parsing what was generated gives the packet back. */
  lemma {:induction false} ParseAfterGenerate(p: JpegPacket)
    requires Expressible(p)
    ensures DecodeJpeg(EncodeJpeg(p)) == JpegParse(true, p)
  {
    hide EncodeHeader, EncodeProfile, DecodeHeader, WordAt;
    var head, profile := EncodeHeader(p.header), EncodeProfile(p);
    HeaderRoundTrip(p.header, profile + p.data);
    HeaderLength(p.header);
    var b, c := EncodeJpeg(p), |head|;
    assert b == head + (profile + p.data);
    assert b[c + 8..] == p.data;
    assert b[c..c + 8] == profile;
    ProfileOctets(p, b, c);
  }

  lemma {:induction false} HeaderLength(h: RtpHeader)
    ensures |EncodeHeader(h)| == FIXED_HEADER + 4 * |h.csrcs|
  {
  }

  /** Where each field of a header goes, for any that can be written: the fixed octets, and four for each source. */
  lemma {:induction false} HeaderOnWire(h: RtpHeader)
    requires h.csrc == |h.csrcs| <= 15 && h.payloadType < 128
    ensures var o := EncodeHeader(h);
      && |o| == 12 + 4 * |h.csrcs|
      && o[0] == 128 + (if h.padding then 32 else 0) + (if h.extension then 16 else 0) + |h.csrcs|
      && o[1] == (if h.marker then 128 else 0) + h.payloadType
      && WordAt(o, 2) == h.sequenceNumber && DwordAt(o, 4) == h.timestamp && DwordAt(o, 8) == h.ssrc
      && forall i :: 0 <= i < |h.csrcs| ==> DwordAt(o, 12 + 4 * i) == h.csrcs[i]
  {
    FixedOnWire(h);
    SourcesOnWire(h);
    HeaderLength(h);
    hide EncodeHeader, EncodeFixed, WordAt, DwordAt;
  }

  lemma {:induction false} FixedOnWire(h: RtpHeader)
    requires h.csrc < 16 && h.payloadType < 128
    ensures var o := EncodeHeader(h);
      && |o| >= 12
      && o[0] == 128 + (if h.padding then 32 else 0) + (if h.extension then 16 else 0) + h.csrc
      && o[1] == (if h.marker then 128 else 0) + h.payloadType
      && WordAt(o, 2) == h.sequenceNumber && DwordAt(o, 4) == h.timestamp && DwordAt(o, 8) == h.ssrc
  {
    var e, o := EncodeFixed(h), EncodeHeader(h);
    FirstOctet(h);
    SecondOctet(h);
    FixedParts(h);
    hide EncodeFixed, EncodeCsrcs, WordAt, DwordAt, Word, Dword;
    assert o[2..4] == e[2..4] && o[4..8] == e[4..8] && o[8..12] == e[8..12];
    WordRoundTrip(h.sequenceNumber, o, 2);
    DwordRoundTrip(h.timestamp, o, 4);
    DwordRoundTrip(h.ssrc, o, 8);
  }

  lemma {:induction false} SourcesOnWire(h: RtpHeader)
    ensures |EncodeHeader(h)| == 12 + 4 * |h.csrcs|
    ensures forall i :: 0 <= i < |h.csrcs| ==> DwordAt(EncodeHeader(h), 12 + 4 * i) == h.csrcs[i]
  {
    SourcesReadBack(h, []);
    assert EncodeHeader(h) + [] == EncodeHeader(h);
    hide EncodeHeader, DwordAt, DecodeCsrcs;
    EachSource(EncodeHeader(h), 12, |h.csrcs|);
  }

  lemma {:induction false} EachSource(b: seq<byte>, at: nat, n: nat)
    requires at + 4 * n <= |b|
    ensures forall i :: 0 <= i < n ==> DecodeCsrcs(b, at, n)[i] == DwordAt(b, at + 4 * i)
  {
    hide DwordAt;
  }

  /** Where each field of a media packet goes: behind the header eight octets, and the data as it is. */
  lemma {:induction false} JpegOnWire(p: JpegPacket)
    requires Expressible(p)
    ensures var o, c := EncodeJpeg(p), 12 + 4 * |p.header.csrcs|;
      && |o| == c + 8 + |p.data|
      && o[..c] == EncodeHeader(p.header)
      && o[c] == p.typeSpecific
      && 65536 * (o[c + 1] as int) + 256 * (o[c + 2] as int) + o[c + 3] == p.fragmentOffset
      && o[c + 4] == p.jpegType && o[c + 5] == p.quantizationTable
      && o[c + 6] == p.imageWidth && o[c + 7] == p.imageHeight
      && o[c + 8..] == p.data
  {
    var o, head, profile := EncodeJpeg(p), EncodeHeader(p.header), EncodeProfile(p);
    var c := |head|;
    HeaderLength(p.header);
    hide EncodeHeader, EncodeProfile;
    assert o == head + (profile + p.data);
    assert o[c..c + 8] == profile && o[c + 8..] == p.data && o[..c] == head;
    ProfileOctets(p, o, c);
  }

  lemma {:induction false} FirstOctetsReturn(b: seq<byte>)
    requires |b| >= FIXED_HEADER && b[0] / 64 == 2
    ensures EncodeFixed(DecodeFixed(b))[0] == b[0] && EncodeFixed(DecodeFixed(b))[1] == b[1]
  {
    var h := DecodeFixed(b);
    FirstOctet(h);
    SecondOctet(h);
    hide EncodeFixed, Word, Dword, WordAt, DwordAt;
    SplitOctet(b[0]);
  }

  lemma {:induction false} SplitOctet(o: byte)
    ensures o == 64 * (o / 64) + 32 * (o / 32 % 2) + 16 * (o / 16 % 2) + o % 16
  {
  }

  lemma {:induction false} FixedOctetsReturn(b: seq<byte>)
    requires |b| >= FIXED_HEADER && b[0] / 64 == 2
    ensures EncodeFixed(DecodeFixed(b)) == b[..FIXED_HEADER]
  {
    var h := DecodeFixed(b);
    var e := EncodeFixed(h);
    FirstOctetsReturn(b);
    FixedParts(h);
    hide EncodeFixed, Word, Dword, WordAt, DwordAt;
    WordRoundTrip(h.sequenceNumber, b, 2);
    DwordRoundTrip(h.timestamp, b, 4);
    DwordRoundTrip(h.ssrc, b, 8);
    InParts(b[..12]);
    InParts(e);
    assert b[..12][2..4] == b[2..4] && b[..12][4..8] == b[4..8] && b[..12][8..12] == b[8..12];
  }

  lemma {:induction false} InParts(b: seq<byte>)
    requires |b| == 12
    ensures b == [b[0], b[1]] + b[2..4] + b[4..8] + b[8..12]
  {
  }

  /** Every accepted octet string without the extension bit is exactly what the generator writes for its parse. */
  lemma {:induction false} GenerateAfterParse(b: seq<byte>)
    requires DecodeJpeg(b).ok && !DecodeJpeg(b).packet.header.extension
    ensures Expressible(DecodeJpeg(b).packet)
    ensures EncodeJpeg(DecodeJpeg(b).packet) == b
  {
    hide DecodeHeader, EncodeHeader, EncodeProfile, WordAt, Expressible;
    ParsedIsExpressible(b);
    HeaderReturns(b);
    ProfileReturns(b);
    var c := DecodeHeader(b).cursor;
    assert b == b[..c] + b[c..c + 8] + b[c + 8..];
  }

  lemma {:induction false} ProfileReturns(b: seq<byte>)
    requires DecodeJpeg(b).ok && Expressible(DecodeJpeg(b).packet)
    ensures EncodeProfile(DecodeJpeg(b).packet) == b[DecodeHeader(b).cursor..DecodeHeader(b).cursor + 8]
  {
    hide DecodeHeader, EncodeProfile, WordAt;
    ProfileOctets(DecodeJpeg(b).packet, b, DecodeHeader(b).cursor);
  }

  lemma {:induction false} ParsedIsExpressible(b: seq<byte>)
    requires DecodeJpeg(b).ok && !DecodeJpeg(b).packet.header.extension
    ensures Expressible(DecodeJpeg(b).packet)
  {
  }

  lemma {:induction false} HeaderReturns(b: seq<byte>)
    requires DecodeHeader(b).ok && !DecodeHeader(b).header.extension
    ensures EncodeHeader(DecodeHeader(b).header) == b[..DecodeHeader(b).cursor]
  {
    var h := DecodeHeader(b).header;
    FixedOctetsReturn(b);
    assert EncodeFixed(h) == EncodeFixed(DecodeFixed(b));
    CsrcsRoundTrip(h.csrcs, b, FIXED_HEADER);
    hide EncodeFixed, EncodeCsrcs;
    var c := DecodeHeader(b).cursor;
    assert b[..c] == b[..FIXED_HEADER] + b[FIXED_HEADER..c];
  }

  // ---- FEC packets ----

  function LevelHeaderSize(longMask: bool): nat
  {
    if longMask then 8 else 4
  }

  /** The level loop: each level's payload copies all up to the end, but only the protection length is skipped. */
  function DecodeLevels(b: seq<byte>, at: nat, size: nat): Option<seq<FecLevel>>
    requires at <= |b| && 2 <= size <= 8
    decreases |b| - at
  {
    if at + size > |b| then Some([])
    else
      var level := LevelAt(b, at, size);
      var next := at + size + level.protectionLength;
      if next > |b| then None else Extend([level], DecodeLevels(b, next, size))
  }

  /** The flags and recovery fields of the first two octets, and the rest. */
  function FecFields(header: RtpHeader, first: byte, second: byte, base: uint16, timestamp: uint32, length: uint16,
                     levels: seq<FecLevel>): FecPacket
  {
    FecPacket(header, first / 128 == 1, first / 64 % 2 == 1, first / 32 % 2 == 1, first / 16 % 2 == 1, first % 16,
              second / 128 == 1, second % 128, base, timestamp, length, levels)
  }

  function DecodeFec(b: seq<byte>): Option<FecPacket>
  {
    var rtp := DecodeHeader(b);
    var c := rtp.cursor;
    if !rtp.ok || c + 10 > |b| then None
    else
      var longMask := b[c] / 64 % 2 == 1;
      match DecodeLevels(b, c + 10, LevelHeaderSize(longMask))
      case None => None
      case Some(levels) =>
        Some(FecFields(rtp.header, b[c], b[c + 1], WordAt(b, c + 2), DwordAt(b, c + 4), WordAt(b, c + 8), levels))
  }

  function Extend(done: seq<FecLevel>, rest: Option<seq<FecLevel>>): Option<seq<FecLevel>>
  {
    match rest
    case None => None
    case Some(levels) => Some(done + levels)
  }

  lemma {:induction false} ExtendEmpty(rest: Option<seq<FecLevel>>)
    ensures Extend([], rest) == rest
  {
    assert rest.Some? ==> [] + rest.value == rest.value;
  }

  lemma {:induction false} ExtendNone(done: seq<FecLevel>)
    ensures Extend(done, Some([])) == Some(done)
  {
    assert done + [] == done;
  }

  lemma {:induction false} ExtendStep(done: seq<FecLevel>, level: FecLevel, rest: Option<seq<FecLevel>>)
    ensures Extend(done, Extend([level], rest)) == Extend(done + [level], rest)
  {
    if rest.Some? {
      assert done + ([level] + rest.value) == (done + [level]) + rest.value;
    }
  }

  function LevelAt(b: seq<byte>, at: nat, size: nat): FecLevel
    requires 2 <= size <= 8 && at + size <= |b|
  {
    FecLevel(WordAt(b, at), b[at + 2..at + size] + seq(10 - size, _ => 0), b[at + size..])
  }

  method ParseMask(b: seq<byte>, begin: nat, octets: nat) returns (mask: seq<byte>)
    requires octets <= 8 && begin + octets <= |b|
    ensures mask == b[begin..begin + octets] + seq(8 - octets, _ => 0)
  {
    mask := [];
    var i := 0;
    while i < octets
      invariant 0 <= i <= octets
      invariant mask == b[begin..begin + i]
    {
      mask := mask + [b[begin + i]];
      i := i + 1;
    }
    mask := mask + seq(8 - octets, _ => 0);
  }

  /** The level loop ends on every input because each round reads a level header. */
  method ParseLevels(b: seq<byte>, start: nat, size: nat) returns (r: Option<seq<FecLevel>>)
    requires start <= |b| && 2 <= size <= 8
    ensures r == DecodeLevels(b, start, size)
  {
    var levels: seq<FecLevel> := [];
    var begin := start;
    ExtendEmpty(DecodeLevels(b, start, size));
    while begin + size <= |b|
      invariant start <= begin <= |b|
      invariant DecodeLevels(b, start, size) == Extend(levels, DecodeLevels(b, begin, size))
      decreases |b| - begin
    {
      hide WordAt;
      var length := WordAt(b, begin);
      var mask := ParseMask(b, begin + 2, size - 2);
      var body := begin + size;
      if body + length > |b| {
        return None;
      }
      var level := FecLevel(length, mask, b[body..]);
      ExtendStep(levels, level, DecodeLevels(b, body + length, size));
      levels := levels + [level];
      begin := body + length;
    }
    ExtendNone(levels);
    return Some(levels);
  }

  /** `custom_fec_packet_grammar`. */
  method ParseFec(b: seq<byte>) returns (r: Option<FecPacket>)
    ensures r == DecodeFec(b)
  {
    hide DecodeHeader, WordAt, DwordAt;
    var rtp := ParseHeader(b);
    if !rtp.ok {
      return None;
    }
    var c := rtp.cursor;
    if c + 10 > |b| {
      return None;
    }
    var longMask := b[c] / 64 % 2 == 1;
    var levels := ParseLevels(b, c + 10, if longMask then 8 else 4);
    if levels.None? {
      return None;
    }
    return Some(FecPacket(rtp.header, b[c] / 128 == 1, longMask, b[c] / 32 % 2 == 1, b[c] / 16 % 2 == 1, b[c] % 16,
                          b[c + 1] / 128 == 1, b[c + 1] % 128, WordAt(b, c + 2), DwordAt(b, c + 4),
                          WordAt(b, c + 8), levels.value));
  }
}
