/** RTSP requests and responses: the grammars and generators of `rtsp_message.hpp`. */
module Messages {
  import opened Wrappers
  import opened Text

  datatype Header = Header(name: string, value: string)

  datatype Request = Request(method_: string, uri: string, major: nat, minor: nat, headers: seq<Header>)

  datatype Response = Response(major: nat, minor: nat, status: nat, reason: string, headers: seq<Header>)

  // ---- parsers ----

  predicate InQuotes(c: char)
  {
    !IsControl(c) && c != '"'
  }

  predicate IsText(c: char)
  {
    !IsControl(c)
  }

  function QuotedString(s: string): Parsed<string>
  {
    if s == "" || s[0] != '"' then Failed
    else
      match Many(s[1..], InQuotes)
      case Failed => Failed
      case Read(v, rest) => if rest != "" && rest[0] == '"' then Read(v, rest[1..]) else Failed
  }

  /** One line of a header value; the quotes of a quoted string are not kept. */
  function BodyLine(s: string): (r: Parsed<string>)
    ensures r.Read? ==> r.value != "" && |r.rest| < |s|
  {
    match QuotedString(s)
    case Read(v, rest) => Read(v, rest)
    case Failed => Many(s, IsText)
  }

  /** What a folded continuation would start with: past a line end and at least one white space. */
  function Continuation(s: string): Parsed<()>
  {
    match Literal(s, CRLF)
    case Failed => Failed
    case Read(_, rest) =>
      var n := Span(rest, IsSpace);
      if n == 0 then Failed else Read((), rest[n..])
  }

  /** `header_field_body_`: a line, and as many folded lines as follow. */
  function Body(s: string): (r: Parsed<string>)
    ensures r.Read? ==> r.value != "" && |r.rest| < |s|
    decreases |s|
  {
    match BodyLine(s)
    case Failed => Failed
    case Read(v, rest) =>
      match Continuation(rest)
      case Failed => Read(v, rest)
      case Read(_, more) =>
        match Body(more)
        case Failed => Read(v, rest)
        case Read(w, after) => Read(v + w, after)
  }

  /** The part of a header after the colon and white space. */
  function FieldBody(name: string, start: string): (r: Parsed<Header>)
    ensures r.Read? ==> |r.rest| < |start|
  {
    var body := Body(start);
    var value, afterValue := if body.Read? then body.value else "", if body.Read? then body.rest else start;
    match Literal(afterValue, CRLF)
    case Failed => Failed
    case Read(_, end) => Read(Header(name, value), end)
  }

  /** `header_`. */
  function HeaderField(s: string): (r: Parsed<Header>)
    ensures r.Read? ==> |r.rest| < |s|
  {
    match Many(s, IsToken)
    case Failed => Failed
    case Read(name, rest) =>
      match Literal(rest, ":")
      case Failed => Failed
      case Read(_, afterColon) =>
        FieldBody(name, afterColon[Span(afterColon, IsSpace)..])
  }

  /** `*header_`, which never fails. */
  function HeaderFields(s: string): (r: (seq<Header>, string))
    decreases |s|
  {
    match HeaderField(s)
    case Failed => ([], s)
    case Read(h, rest) =>
      var (hs, end) := HeaderFields(rest);
      ([h] + hs, end)
  }

  function SkipSpaces(s: string): Parsed<()>
  {
    var n := Span(s, IsSpace);
    if n == 0 then Failed else Read((), s[n..])
  }

  predicate IsUri(c: char)
  {
    !IsSpace(c)
  }

  predicate IsReason(c: char)
  {
    c != '\r' && c != '\n'
  }

  /** `RTSP/` major `.` minor. */
  function Version(s: string): Parsed<(nat, nat)>
  {
    match Literal(s, "RTSP/")
    case Failed => Failed
    case Read(_, s1) =>
      match Unbounded(s1)
      case Failed => Failed
      case Read(major, s2) =>
        match Literal(s2, ".")
        case Failed => Failed
        case Read(_, s3) =>
          match Unbounded(s3)
          case Failed => Failed
          case Read(minor, s4) => Read((major, minor), s4)
  }

  /** The headers and the empty line after a start line. */
  function HeaderBlock(s: string): Parsed<seq<Header>>
  {
    match Literal(s, CRLF)
    case Failed => Failed
    case Read(_, s1) =>
      var (hs, s2) := HeaderFields(s1);
      match Literal(s2, CRLF)
      case Failed => Failed
      case Read(_, rest) => Read(hs, rest)
  }

  /** Version and headers of a request whose method and URI are read. */
  function RequestEnd(method_: string, uri: string, s: string): Parsed<Request>
  {
    match Version(s)
    case Failed => Failed
    case Read(version, s1) =>
      match HeaderBlock(s1)
      case Failed => Failed
      case Read(hs, rest) => Read(Request(method_, uri, version.0, version.1, hs), rest)
  }

  function RequestTarget(method_: string, s: string): Parsed<Request>
  {
    match Many(s, IsUri)
    case Failed => Failed
    case Read(uri, s1) =>
      match SkipSpaces(s1)
      case Failed => Failed
      case Read(_, s2) => RequestEnd(method_, uri, s2)
  }

  /** `rtsp_request_grammar`. */
  function ParseRequest(s: string): Parsed<Request>
  {
    match Many(s, IsToken)
    case Failed => Failed
    case Read(method_, s1) =>
      match SkipSpaces(s1)
      case Failed => Failed
      case Read(_, s2) => RequestTarget(method_, s2)
  }

  /** Reason phrase and headers of a response whose version and status are read. */
  function ResponseEnd(version: (nat, nat), status: nat, s: string): Parsed<Response>
  {
    var n := Span(s, IsReason);
    match HeaderBlock(s[n..])
    case Failed => Failed
    case Read(hs, rest) => Read(Response(version.0, version.1, status, s[..n], hs), rest)
  }

  function ResponseStatus(version: (nat, nat), s: string): Parsed<Response>
  {
    match Number(s, 10, 3, 3, 1000)
    case Failed => Failed
    case Read(status, s1) =>
      match SkipSpaces(s1)
      case Failed => Failed
      case Read(_, s2) => ResponseEnd(version, status, s2)
  }

  /** `rtsp_response_grammar`. */
  function ParseResponse(s: string): Parsed<Response>
  {
    match Version(s)
    case Failed => Failed
    case Read(version, s1) =>
      match SkipSpaces(s1)
      case Failed => Failed
      case Read(_, s2) => ResponseStatus(version, s2)
  }

  /** Status and headers a parse has filled in, whether or not it went through; none if it did not get to the status. */
  function FilledResponse(s: string): Option<(nat, seq<Header>)>
  {
    match Version(s)
    case Failed => None
    case Read(_, s1) =>
      match SkipSpaces(s1)
      case Failed => None
      case Read(_, s2) =>
        match Number(s2, 10, 3, 3, 1000)
        case Failed => None
        case Read(status, s3) => Some((status, FilledHeaders(s3)))
  }

  /** The headers read behind the status, the reason phrase and its line end. */
  function FilledHeaders(s: string): seq<Header>
  {
    match SkipSpaces(s)
    case Failed => []
    case Read(_, s1) =>
      match Literal(s1[Span(s1, IsReason)..], CRLF)
      case Failed => []
      case Read(_, s2) => HeaderFields(s2).0
  }

  /** A parse that goes through has filled in just what it returns. */
  lemma {:induction false} FilledByParse(s: string)
    requires ParseResponse(s).Read?
    ensures var r := ParseResponse(s).value; FilledResponse(s) == Some((r.status, r.headers))
  {
    hide Version, SkipSpaces, Number, HeaderFields, Literal, Span;
  }

  // ---- generators ----

  function PrintHeader(h: Header): string
  {
    h.name + ": " + h.value + CRLF
  }

  function PrintHeaders(hs: seq<Header>): string
  {
    if hs == [] then "" else PrintHeader(hs[0]) + PrintHeaders(hs[1..])
  }

  function PrintVersion(major: nat, minor: nat): string
  {
    "RTSP/" + Print(major, 10) + "." + Print(minor, 10)
  }

  /** `generate_request`. */
  function PrintRequest(r: Request): string
  {
    r.method_ + " " + r.uri + " " + PrintVersion(r.major, r.minor) + CRLF + PrintHeaders(r.headers) + CRLF
  }

  /** `generate_response`. */
  function PrintResponse(r: Response): string
  {
    PrintVersion(r.major, r.minor) + " " + Print(r.status, 10) + " " + r.reason + CRLF + PrintHeaders(r.headers) + CRLF
  }

  // ---- what survives the trip ----

  predicate Printable(h: Header)
  {
    && h.name != "" && All(h.name, IsToken)
    && h.value != "" && All(h.value, IsText) && !IsSpace(h.value[0]) && h.value[0] != '"'
  }

  predicate AllPrintable(hs: seq<Header>)
  {
    forall i :: 0 <= i < |hs| ==> Printable(hs[i])
  }

  predicate PrintableStart(r: Request)
  {
    r.method_ != "" && All(r.method_, IsToken) && r.uri != "" && All(r.uri, IsUri)
  }

  predicate PrintableRequest(r: Request)
  {
    PrintableStart(r) && AllPrintable(r.headers)
  }

  predicate PrintableResponse(r: Response)
  {
    && 100 <= r.status <= 999
    && r.reason != "" && All(r.reason, IsReason) && !IsSpace(r.reason[0])
    && AllPrintable(r.headers)
  }

  /** Nothing that could be taken for a folded header line follows the empty line. */
  predicate NoFolding(tail: string)
  {
    Body(tail[Span(tail, IsSpace)..]).Failed?
  }

  // ---- header lines ----

  lemma {:induction false} PlainLine(value: string, rest: string)
    requires value != "" && All(value, IsText) && value[0] != '"' && StopsAt(rest, IsText)
    ensures BodyLine(value + rest) == Read(value, rest)
  {
    assert (value + rest)[0] == value[0];
    ManyExact(value, rest, IsText);
  }

  lemma {:induction false} ContinuationAt(next: string)
    ensures Continuation(CRLF + next) == var n := Span(next, IsSpace); if n == 0 then Failed else Read((), next[n..])
  {
    LiteralExact(CRLF, next);
  }

  lemma {:induction false} CrlfStopsText(next: string)
    ensures StopsAt(CRLF + next, IsText)
  {
    assert (CRLF + next)[0] == '\r';
  }

  /** What follows a header line, read as a continuation of its value. */
  function FoldedOnto(next: string): Parsed<string>
  {
    var n := Span(next, IsSpace);
    if n == 0 then Failed else Body(next[n..])
  }

  lemma {:induction false} ToFieldBody(h: Header, next: string)
    requires Printable(h)
    ensures HeaderField(PrintHeader(h) + next) == FieldBody(h.name, h.value + (CRLF + next))
  {
    var line := CRLF + next;
    var s := PrintHeader(h) + next;
    assert s == h.name + (":" + (" " + (h.value + line)));
    assert StopsAt(":" + (" " + (h.value + line)), IsToken);
    ManyExact(h.name, ":" + (" " + (h.value + line)), IsToken);
    LiteralExact(":", " " + (h.value + line));
    assert StopsAt(h.value + line, IsSpace) by {
      assert (h.value + line)[0] == h.value[0];
    }
    assert All(" ", IsSpace);
    SpanExact(" ", h.value + line, IsSpace);
    hide FieldBody, Span;
  }

  lemma {:induction false} BodyOfValue(value: string, next: string)
    requires value != "" && All(value, IsText) && value[0] != '"'
    ensures FoldedOnto(next).Failed? ==> Body(value + (CRLF + next)) == Read(value, CRLF + next)
    ensures FoldedOnto(next).Read? ==>
      Body(value + (CRLF + next)) == Read(value + FoldedOnto(next).value, FoldedOnto(next).rest)
  {
    CrlfStopsText(next);
    PlainLine(value, CRLF + next);
    ContinuationAt(next);
    hide BodyLine, Span;
  }

  /** A header line, told whether the value's last line goes on after it. */
  lemma {:induction false} HeaderLine(h: Header, next: string)
    requires Printable(h)
    ensures FoldedOnto(next).Failed? ==> HeaderField(PrintHeader(h) + next) == Read(h, next)
    ensures FoldedOnto(next).Read? ==>
      HeaderField(PrintHeader(h) + next).Failed? || HeaderField(PrintHeader(h) + next).value != h
  {
    ToFieldBody(h, next);
    BodyOfValue(h.value, next);
    LiteralExact(CRLF, next);
    assert FoldedOnto(next).Read? ==> |h.value + FoldedOnto(next).value| > |h.value|;
    hide HeaderField, PrintHeader, Body, Printable;
  }

  lemma {:induction false} HeaderFieldsEnd(tail: string)
    ensures HeaderFields(CRLF + tail) == ([], CRLF + tail)
  {
    assert (CRLF + tail)[0] == '\r';
  }

  /** A line that starts with a token character cannot be a continuation. */
  lemma {:induction false} NextLineIsNoFold(h: Header, rest: string)
    requires h.name != "" && IsToken(h.name[0])
    ensures Span(PrintHeader(h) + rest, IsSpace) == 0
  {
    assert (PrintHeader(h) + rest)[0] == h.name[0];
    assert IsToken(h.name[0]);
  }

  lemma {:induction false} SpacesOfTail(tail: string)
    ensures Span(CRLF + tail, IsSpace) == 2 + Span(tail, IsSpace)
    ensures (CRLF + tail)[2 + Span(tail, IsSpace)..] == tail[Span(tail, IsSpace)..]
  {
    var spaces, after := tail[..Span(tail, IsSpace)], tail[Span(tail, IsSpace)..];
    assert CRLF + tail == (CRLF + spaces) + after;
    assert All(CRLF + spaces, IsSpace);
    SpanExact(CRLF + spaces, after, IsSpace);
  }

  lemma {:induction false} TailFolds(tail: string)
    ensures FoldedOnto(CRLF + tail).Failed? <==> NoFolding(tail)
  {
    SpacesOfTail(tail);
    hide Body;
  }

  /** The printed headers come back, and nothing else does, exactly when there is nothing to fold. */
  lemma {:induction false} HeadersRoundTrip(hs: seq<Header>, tail: string)
    requires AllPrintable(hs)
    ensures HeaderFields(PrintHeaders(hs) + (CRLF + tail)) == (hs, CRLF + tail) <==> hs == [] || NoFolding(tail)
  {
    if hs == [] {
      HeaderFieldsEnd(tail);
      assert PrintHeaders(hs) + (CRLF + tail) == CRLF + tail;
    } else {
      var next := PrintHeaders(hs[1..]) + (CRLF + tail);
      assert PrintHeaders(hs) + (CRLF + tail) == PrintHeader(hs[0]) + next;
      HeaderLine(hs[0], next);
      HeadersRoundTrip(hs[1..], tail);
      NextFolds(hs, tail);
      HeaderFieldsStep(hs, PrintHeader(hs[0]) + next, next, CRLF + tail);
      hide HeaderFields, HeaderField, FoldedOnto, PrintHeader, PrintHeaders, NoFolding;
    }
  }

  /** After a printed header only the end of the block can look like a continuation. */
  lemma {:induction false} NextFolds(hs: seq<Header>, tail: string)
    requires AllPrintable(hs) && hs != []
    ensures FoldedOnto(PrintHeaders(hs[1..]) + (CRLF + tail)).Failed? <==> |hs| > 1 || NoFolding(tail)
  {
    if |hs| == 1 {
      TailFolds(tail);
      assert PrintHeaders(hs[1..]) + (CRLF + tail) == CRLF + tail;
    } else {
      var rest := PrintHeaders(hs[1..][1..]) + (CRLF + tail);
      assert PrintHeaders(hs[1..]) + (CRLF + tail) == PrintHeader(hs[1]) + rest;
      NextLineIsNoFold(hs[1], rest);
    }
  }

  lemma {:induction false} HeaderFieldsStep(hs: seq<Header>, s: string, next: string, end: string)
    requires hs != []
    ensures HeaderField(s) == Read(hs[0], next) ==>
      (HeaderFields(s) == (hs, end) <==> HeaderFields(next) == (hs[1..], end))
    ensures HeaderField(s).Failed? || HeaderField(s).value != hs[0] ==> HeaderFields(s) != (hs, end)
  {
    hide HeaderField;
    assert hs == [hs[0]] + hs[1..];
    if HeaderField(s).Read? {
      var r := HeaderFields(HeaderField(s).rest);
      assert ([HeaderField(s).value] + r.0)[1..] == r.0;
    }
  }

  // ---- whole messages ----

  /** A header block is what the header lines and the empty line after them make it. */
  lemma {:induction false} BlockOf(s1: string, hs: seq<Header>, tail: string)
    ensures HeaderBlock(CRLF + s1) == Read(hs, tail) <==> HeaderFields(s1) == (hs, CRLF + tail)
  {
    LiteralExact(CRLF, s1);
    LiteralExact(CRLF, tail);
    var (found, end) := HeaderFields(s1);
    hide HeaderFields;
    if CRLF <= end {
      assert end == CRLF + end[2..];
    }
  }

  lemma {:induction false} BlockRoundTrip(hs: seq<Header>, tail: string)
    requires AllPrintable(hs)
    ensures HeaderBlock(CRLF + (PrintHeaders(hs) + (CRLF + tail))) == Read(hs, tail) <==> hs == [] || NoFolding(tail)
  {
    hide *;
    BlockOf(PrintHeaders(hs) + (CRLF + tail), hs, tail);
    HeadersRoundTrip(hs, tail);
  }

  lemma {:induction false} VersionRoundTrip(major: nat, minor: nat, rest: string)
    requires StopsAt(rest, IsDecimal)
    ensures Version(PrintVersion(major, minor) + rest) == Read((major, minor), rest)
  {
    var s1 := Print(major, 10) + ("." + (Print(minor, 10) + rest));
    hide Print, Literal, Unbounded;
    assert PrintVersion(major, minor) + rest == "RTSP/" + s1;
    LiteralExact("RTSP/", s1);
    UnboundedExact(major, "." + (Print(minor, 10) + rest));
    LiteralExact(".", Print(minor, 10) + rest);
    UnboundedExact(minor, rest);
  }

  lemma {:induction false} OneSpace(rest: string)
    requires StopsAt(rest, IsSpace)
    ensures SkipSpaces(" " + rest) == Read((), rest)
  {
    assert All(" ", IsSpace);
    SpanExact(" ", rest, IsSpace);
  }

  lemma {:induction false} TargetStart(method_: string, uri: string, s4: string)
    requires uri != "" && All(uri, IsUri) && StopsAt(s4, IsSpace)
    ensures RequestTarget(method_, uri + (" " + s4)) == RequestEnd(method_, uri, s4)
  {
    ManyExact(uri, " " + s4, IsUri);
    OneSpace(s4);
    hide Many, SkipSpaces, RequestEnd;
  }

  lemma {:induction false} RequestStart(r: Request, s4: string)
    requires PrintableStart(r) && StopsAt(s4, IsSpace)
    ensures ParseRequest(r.method_ + (" " + (r.uri + (" " + s4)))) == RequestEnd(r.method_, r.uri, s4)
  {
    var s2 := r.uri + (" " + s4);
    ManyExact(r.method_, " " + s2, IsToken);
    assert s2[0] == r.uri[0];
    OneSpace(s2);
    TargetStart(r.method_, r.uri, s4);
    hide Many, SkipSpaces, RequestEnd, RequestTarget;
  }

  lemma {:induction false} PrintedRequest(r: Request, tail: string)
    ensures var block := CRLF + (PrintHeaders(r.headers) + (CRLF + tail));
      PrintRequest(r) + tail == r.method_ + (" " + (r.uri + (" " + (PrintVersion(r.major, r.minor) + block))))
  {
    hide PrintHeaders, PrintVersion;
  }

  lemma {:induction false} RequestEndOf(r: Request, tail: string)
    requires AllPrintable(r.headers)
    ensures var block := CRLF + (PrintHeaders(r.headers) + (CRLF + tail));
      var end := RequestEnd(r.method_, r.uri, PrintVersion(r.major, r.minor) + block);
      end == Read(r, tail) <==> r.headers == [] || NoFolding(tail)
  {
    var block := CRLF + (PrintHeaders(r.headers) + (CRLF + tail));
    assert block[0] == '\r';
    VersionRoundTrip(r.major, r.minor, block);
    BlockRoundTrip(r.headers, tail);
    hide Version, HeaderBlock, NoFolding, PrintHeaders, PrintVersion;
  }

  /**
   * A printed request parses back to itself and leaves `tail`, exactly when it has no headers or `tail` holds
   * nothing that could be folded into the last header. In particular it does at the end of the input.
   */
  lemma {:induction false} RequestRoundTrip(r: Request, tail: string)
    requires PrintableRequest(r)
    ensures ParseRequest(PrintRequest(r) + tail) == Read(r, tail) <==> r.headers == [] || NoFolding(tail)
  {
    var block := CRLF + (PrintHeaders(r.headers) + (CRLF + tail));
    var s4 := PrintVersion(r.major, r.minor) + block;
    PrintedRequest(r, tail);
    assert s4[0] == 'R';
    RequestStart(r, s4);
    RequestEndOf(r, tail);
    hide *;
  }

  lemma {:induction false} StatusStart(version: (nat, nat), status: nat, s4: string)
    requires 100 <= status <= 999 && StopsAt(s4, IsSpace)
    ensures ResponseStatus(version, Print(status, 10) + (" " + s4)) == ResponseEnd(version, status, s4)
  {
    PrintedLength(status, 10, 3);
    PrintedLength(status, 10, 2);
    assert Power(10, 2) == 100 && Power(10, 3) == 1000;
    NumberExact(status, 10, 3, 3, 1000, " " + s4);
    OneSpace(s4);
    hide SkipSpaces, Number, ResponseEnd, Print;
  }

  lemma {:induction false} ResponseStart(r: Response, s4: string)
    requires PrintableResponse(r) && StopsAt(s4, IsSpace)
    ensures ParseResponse(PrintVersion(r.major, r.minor) + (" " + (Print(r.status, 10) + (" " + s4))))
         == ResponseEnd((r.major, r.minor), r.status, s4)
  {
    var s2 := Print(r.status, 10) + (" " + s4);
    VersionRoundTrip(r.major, r.minor, " " + s2);
    assert s2[0] == Print(r.status, 10)[0];
    assert DigitIn(10, s2[0]);
    OneSpace(s2);
    StatusStart((r.major, r.minor), r.status, s4);
    hide SkipSpaces, Version, PrintVersion, ResponseStatus, ResponseEnd;
  }

  /** The same for responses. */
  lemma {:induction false} ResponseRoundTrip(r: Response, tail: string)
    requires PrintableResponse(r)
    ensures ParseResponse(PrintResponse(r) + tail) == Read(r, tail) <==> r.headers == [] || NoFolding(tail)
  {
    var block := CRLF + (PrintHeaders(r.headers) + (CRLF + tail));
    var s4 := r.reason + block;
    assert PrintResponse(r) + tail == PrintVersion(r.major, r.minor) + (" " + (Print(r.status, 10) + (" " + s4))) by {
      hide PrintHeaders, PrintVersion, NoFolding, ParseResponse, PrintableResponse;
    }
    assert s4[0] == r.reason[0] && block[0] == '\r';
    hide HeaderBlock, NoFolding, PrintHeaders, PrintVersion, PrintResponse, ParseResponse, Span, Print;
    ResponseStart(r, s4);
    SpanExact(r.reason, block, IsReason);
    BlockRoundTrip(r.headers, tail);
  }

  /** A message that ends the input is never folded. */
  lemma {:induction false} EndIsNoFold()
    ensures NoFolding("")
  {
  }

  /** A header without a value swallows the end of the message, and then lacks a line end of its own. */
  lemma {:induction false} BlankHeader(name: string)
    requires name != "" && All(name, IsToken)
    ensures HeaderField(PrintHeader(Header(name, "")) + CRLF) == Failed
  {
    var spaces := " " + CRLF + CRLF;
    BlankLine(name);
    ManyExact(name, ":" + spaces, IsToken);
    LiteralExact(":", spaces);
    BlankField(name);
    hide FieldBody, Span, PrintHeader, Many, Literal, IsToken, IsSpace;
  }

  lemma {:induction false} BlankLine(name: string)
    ensures PrintHeader(Header(name, "")) + CRLF == name + (":" + (" " + CRLF + CRLF))
  {
  }

  lemma {:induction false} BlankField(name: string)
    ensures var spaces := " " + CRLF + CRLF; FieldBody(name, spaces[Span(spaces, IsSpace)..]) == Failed
  {
    var spaces := " " + CRLF + CRLF;
    assert All(spaces, IsSpace);
    SpanExact(spaces, "", IsSpace);
    assert spaces + "" == spaces;
    assert spaces[|spaces|..] == "";
    hide Span, IsSpace;
  }

  /** Printed headers in front of a header without a value come back, and the loop stops there. */
  lemma {:induction false} BlankFields(hs: seq<Header>, name: string)
    requires AllPrintable(hs) && name != "" && All(name, IsToken)
    ensures var last := PrintHeader(Header(name, "")) + CRLF; HeaderFields(PrintHeaders(hs) + last) == (hs, last)
  {
    var last := PrintHeader(Header(name, "")) + CRLF;
    hide PrintHeader, HeaderFields, HeaderField, FoldedOnto;
    if hs == [] {
      BlankHeader(name);
      NoFields(last);
      assert PrintHeaders(hs) + last == last;
    } else {
      var next := PrintHeaders(hs[1..]) + last;
      assert PrintHeaders(hs) + last == PrintHeader(hs[0]) + next;
      hide PrintHeaders;
      TokenStart(hs[1..], name, last);
      HeaderLine(hs[0], next);
      BlankFields(hs[1..], name);
      HeaderFieldsStep(hs, PrintHeader(hs[0]) + next, next, last);
    }
  }

  lemma {:induction false} NoFields(s: string)
    requires HeaderField(s).Failed?
    ensures HeaderFields(s) == ([], s)
  {
  }

  /** The first of the headers starts with a token character, so it is no continuation of the line before it. */
  lemma {:induction false} TokenStart(hs: seq<Header>, name: string, last: string)
    requires AllPrintable(hs) && name != "" && All(name, IsToken) && last == PrintHeader(Header(name, "")) + CRLF
    ensures FoldedOnto(PrintHeaders(hs) + last).Failed?
  {
    if hs == [] {
      NextLineIsNoFold(Header(name, ""), CRLF);
      assert PrintHeaders(hs) + last == last;
    } else {
      var rest := PrintHeaders(hs[1..]) + last;
      assert PrintHeaders(hs) + last == PrintHeader(hs[0]) + rest;
      NextLineIsNoFold(hs[0], rest);
    }
    hide Body, PrintHeader;
  }

  lemma {:induction false} BlankBlock(hs: seq<Header>, name: string)
    requires AllPrintable(hs) && name != "" && All(name, IsToken)
    ensures HeaderBlock(CRLF + (PrintHeaders(hs) + (PrintHeader(Header(name, "")) + CRLF))) == Failed
  {
    var last := PrintHeader(Header(name, "")) + CRLF;
    assert last[0] == name[0] && IsToken(name[0]);
    assert !(CRLF <= last);
    BlankFields(hs, name);
    LiteralExact(CRLF, PrintHeaders(hs) + last);
    hide HeaderFields, PrintHeader, PrintHeaders, IsToken;
  }

  /** A request whose last header has no value is not a request. */
  lemma {:induction false} BlankValueIsUnreadable(r: Request, hs: seq<Header>, name: string)
    requires PrintableStart(r) && AllPrintable(hs) && name != "" && All(name, IsToken)
    requires r.headers == hs + [Header(name, "")]
    ensures ParseRequest(PrintRequest(r)) == Failed
  {
    var block := CRLF + (PrintHeaders(hs) + (PrintHeader(Header(name, "")) + CRLF));
    BlankText(r, hs, name);
    var s4 := PrintVersion(r.major, r.minor) + block;
    assert s4[0] == 'R' && block[0] == '\r';
    RequestStart(r, s4);
    VersionRoundTrip(r.major, r.minor, block);
    BlankBlock(hs, name);
    hide HeaderBlock, PrintHeader, PrintHeaders, PrintVersion, ParseRequest, PrintRequest, Version;
  }

  lemma {:induction false} PrintedSnoc(hs: seq<Header>, last: Header)
    ensures PrintHeaders(hs + [last]) == PrintHeaders(hs) + PrintHeader(last)
  {
    if hs == [] {
      assert [] + [last] == [last];
      assert PrintHeaders([last]) == PrintHeader(last) + PrintHeaders([last][1..]) == PrintHeader(last);
    } else {
      PrintedSnoc(hs[1..], last);
      assert (hs + [last])[1..] == hs[1..] + [last];
    }
    hide PrintHeader;
  }

  lemma {:induction false} BlankText(r: Request, hs: seq<Header>, name: string)
    requires r.headers == hs + [Header(name, "")]
    ensures var block := CRLF + (PrintHeaders(hs) + (PrintHeader(Header(name, "")) + CRLF));
      PrintRequest(r) == r.method_ + (" " + (r.uri + (" " + (PrintVersion(r.major, r.minor) + block))))
  {
    PrintedRequest(r, "");
    PrintedSnoc(hs, Header(name, ""));
    hide PrintHeader, PrintHeaders, PrintVersion, PrintRequest;
    assert PrintHeaders(r.headers) + (CRLF + "") == PrintHeaders(hs) + (PrintHeader(Header(name, "")) + CRLF);
    assert PrintRequest(r) + "" == PrintRequest(r);
  }

  /** Another request right behind the first one is: its start line becomes part of the last header's value. */
  lemma {:induction false} PipelinedRequestFolds(r: Request, next: Request)
    requires PrintableRequest(r) && PrintableRequest(next) && r.headers != []
    ensures ParseRequest(PrintRequest(r) + PrintRequest(next)) != Read(r, PrintRequest(next))
  {
    RequestRoundTrip(r, PrintRequest(next));
    StartLineIsText(next);
  }

  lemma {:induction false} StartLineIsText(next: Request)
    requires PrintableRequest(next)
    ensures !NoFolding(PrintRequest(next))
  {
    var s := PrintRequest(next);
    assert s[0] == next.method_[0];
    assert IsToken(s[0]);
    assert Span(s, IsSpace) == 0;
    assert s[0..] == s;
    assert Span(s, IsText) > 0;
  }
}
