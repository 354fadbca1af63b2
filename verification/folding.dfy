/** What the message grammars accept beyond what the generators print: folded header lines and any white space. */
module Folding {
  import opened Wrappers
  import opened Text
  import opened Messages

  /** A further line of a header value: white space, and then text. */
  datatype Line = Line(space: string, text: string)

  predicate IsBlank(s: string)
  {
    s != "" && All(s, IsSpace)
  }

  predicate IsLineText(s: string)
  {
    s != "" && All(s, IsText) && !IsSpace(s[0]) && s[0] != '"'
  }

  predicate AreLines(more: seq<Line>)
  {
    forall i :: 0 <= i < |more| ==> IsBlank(more[i].space) && IsLineText(more[i].text)
  }

  /** A value over several lines, the last line's end, and what follows. */
  function Folded(value: string, more: seq<Line>, next: string): string
    decreases |more|
  {
    value + (CRLF + if more == [] then next else more[0].space + Folded(more[0].text, more[1..], next))
  }

  /** The texts of all lines, without line ends and white space between them. */
  function Unfolded(value: string, more: seq<Line>): string
    decreases |more|
  {
    if more == [] then value else value + Unfolded(more[0].text, more[1..])
  }

  lemma {:induction false} FoldedStart(value: string, more: seq<Line>, next: string)
    requires IsLineText(value)
    ensures var s := Folded(value, more, next); s != "" && !IsSpace(s[0])
  {
    assert Folded(value, more, next)[0] == value[0];
  }

  /** A folded value is read as its lines joined, up to the last line's end. */
  lemma {:induction false} BodyUnfolds(value: string, more: seq<Line>, next: string)
    requires IsLineText(value) && AreLines(more) && FoldedOnto(next).Failed?
    ensures Body(Folded(value, more, next)) == Read(Unfolded(value, more), CRLF + next)
    decreases |more|
  {
    if more == [] {
      BodyOfValue(value, next);
    } else {
      var rest := Folded(more[0].text, more[1..], next);
      var tail := more[0].space + rest;
      FirstLine(more);
      BodyUnfolds(more[0].text, more[1..], next);
      FoldedStart(more[0].text, more[1..], next);
      SpacesOff(more[0].space, rest);
      hide Body, IsBlank, IsLineText, AreLines, Span, IsText, IsSpace;
      BodyOfFirst(value, tail);
    }
  }

  lemma {:induction false} FirstLine(more: seq<Line>)
    requires AreLines(more) && more != []
    ensures IsBlank(more[0].space) && IsLineText(more[0].text) && AreLines(more[1..])
  {
    hide IsBlank, IsLineText;
  }

  lemma {:induction false} SpacesOff(space: string, rest: string)
    requires IsBlank(space) && rest != "" && !IsSpace(rest[0])
    ensures Span(space + rest, IsSpace) == |space| > 0 && (space + rest)[|space|..] == rest
  {
    SpanExact(space, rest, IsSpace);
    hide Span;
  }

  lemma {:induction false} BodyOfFirst(value: string, tail: string)
    requires IsLineText(value) && FoldedOnto(tail).Read?
    ensures Body(value + (CRLF + tail)) == Read(value + FoldedOnto(tail).value, FoldedOnto(tail).rest)
  {
    BodyOfValue(value, tail);
    hide Body, FoldedOnto;
  }

  /** A header folded over any number of lines is the header with its lines joined. */
  lemma {:induction false} HeaderUnfolds(name: string, space: string, value: string, more: seq<Line>, next: string)
    requires name != "" && All(name, IsToken) && All(space, IsSpace)
    requires IsLineText(value) && AreLines(more) && FoldedOnto(next).Failed?
    ensures HeaderField(name + (":" + (space + Folded(value, more, next)))) == Read(Header(name, Unfolded(value, more)), next)
  {
    var body := Folded(value, more, next);
    BodyUnfolds(value, more, next);
    FoldedStart(value, more, next);
    hide Folded, Unfolded, Body, FoldedOnto, IsLineText, AreLines;
    FieldOf(name, space, body, Unfolded(value, more), next);
  }

  lemma {:induction false} FieldOf(name: string, space: string, body: string, value: string, next: string)
    requires name != "" && All(name, IsToken) && All(space, IsSpace) && body != "" && !IsSpace(body[0])
    requires Body(body) == Read(value, CRLF + next)
    ensures HeaderField(name + (":" + (space + body))) == Read(Header(name, value), next)
  {
    assert StopsAt(":" + (space + body), IsToken);
    ManyExact(name, ":" + (space + body), IsToken);
    LiteralExact(":", space + body);
    SpanExact(space, body, IsSpace);
    LiteralExact(CRLF, next);
    hide Body, Span, Many, Literal, IsToken, IsSpace;
  }

  /** The quotes around a value are not kept, and white space inside them is. */
  lemma {:induction false} QuotesComeOff(name: string, space: string, value: string, next: string)
    requires name != "" && All(name, IsToken) && All(space, IsSpace)
    requires value != "" && All(value, InQuotes) && FoldedOnto(next).Failed?
    ensures HeaderField(name + (":" + (space + ("\"" + (value + ("\"" + (CRLF + next))))))) == Read(Header(name, value), next)
  {
    var body := "\"" + (value + ("\"" + (CRLF + next)));
    QuotedLine(value, CRLF + next);
    ContinuationAt(next);
    assert body[0] == '"';
    assert Body(body) == Read(value, CRLF + next) by {
      hide BodyLine, Span;
    }
    FieldOf(name, space, body, value, next);
    hide Body, HeaderField;
  }

  lemma {:induction false} QuotedLine(value: string, rest: string)
    requires value != "" && All(value, InQuotes)
    ensures BodyLine("\"" + (value + ("\"" + rest))) == Read(value, rest)
  {
    var s := "\"" + (value + ("\"" + rest));
    assert s[0] == '"' && s[1..] == value + ("\"" + rest);
    assert ("\"" + rest)[0] == '"';
    ManyExact(value, "\"" + rest, InQuotes);
    assert ("\"" + rest)[1..] == rest;
    hide Many;
  }

  /** Any white space may stand between the parts of a request's start line. */
  lemma {:induction false} LooseRequest(method_: string, first: string, uri: string, second: string, end: string)
    requires method_ != "" && All(method_, IsToken) && uri != "" && All(uri, IsUri)
    requires IsBlank(first) && IsBlank(second) && end != "" && !IsSpace(end[0])
    ensures ParseRequest(method_ + (first + (uri + (second + end)))) == RequestEnd(method_, uri, end)
  {
    var target := uri + (second + end);
    assert target[0] == uri[0] && IsUri(uri[0]);
    assert (first + target)[0] == first[0] && IsSpace(first[0]);
    assert !IsToken(first[0]);
    ManyExact(method_, first + target, IsToken);
    SpacesOff(first, target);
    TargetOf(method_, uri, second, end);
    hide Many, Span, RequestEnd, RequestTarget, IsToken, IsSpace, All;
  }

  lemma {:induction false} TargetOf(method_: string, uri: string, second: string, end: string)
    requires uri != "" && All(uri, IsUri) && IsBlank(second) && end != "" && !IsSpace(end[0])
    ensures RequestTarget(method_, uri + (second + end)) == RequestEnd(method_, uri, end)
  {
    assert (second + end)[0] == second[0] && IsSpace(second[0]);
    ManyExact(uri, second + end, IsUri);
    SpacesOff(second, end);
    hide Many, Span, RequestEnd, IsSpace, All;
  }

  // ---- answers that are cut short ----

  /** Printed headers in front of what is neither a header nor a continuation are read, and the loop stops there. */
  lemma {:induction false} HeadersUpTo(hs: seq<Header>, last: string)
    requires AllPrintable(hs) && HeaderField(last).Failed? && FoldedOnto(last).Failed?
    ensures HeaderFields(PrintHeaders(hs) + last) == (hs, last)
  {
    hide PrintHeader, HeaderFields, HeaderField, FoldedOnto;
    if hs == [] {
      NoFields(last);
      assert PrintHeaders(hs) + last == last;
    } else {
      var next := PrintHeaders(hs[1..]) + last;
      assert PrintHeaders(hs) + last == PrintHeader(hs[0]) + next;
      hide PrintHeaders;
      HeadersUpTo(hs[1..], last);
      NextIsNoFold(hs[1..], last);
      HeaderLine(hs[0], next);
      HeaderFieldsStep(hs, PrintHeader(hs[0]) + next, next, last);
    }
  }

  lemma {:induction false} NextIsNoFold(hs: seq<Header>, last: string)
    requires AllPrintable(hs) && FoldedOnto(last).Failed?
    ensures FoldedOnto(PrintHeaders(hs) + last).Failed?
  {
    if hs == [] {
      assert PrintHeaders(hs) + last == last;
    } else {
      var rest := PrintHeaders(hs[1..]) + last;
      assert PrintHeaders(hs) + last == PrintHeader(hs[0]) + rest;
      NextLineIsNoFold(hs[0], rest);
    }
    hide Body, PrintHeader;
  }

  /** An answer whose empty line is missing fails to parse, and the client goes on with all of its status and headers. */
  lemma {:induction false} CutShortIsFilled(r: Response)
    requires PrintableResponse(r)
    ensures var rest := r.reason + (CRLF + PrintHeaders(r.headers));
      var text := PrintVersion(r.major, r.minor) + (" " + (Print(r.status, 10) + (" " + rest)));
      FilledResponse(text) == Some((r.status, r.headers)) && ParseResponse(text).Failed?
  {
    var block := CRLF + PrintHeaders(r.headers);
    var s4 := r.reason + block;
    assert PrintHeaders(r.headers) + "" == PrintHeaders(r.headers);
    HeadersUpTo(r.headers, "");
    assert s4[0] == r.reason[0] && block[0] == '\r';
    SpanExact(r.reason, block, IsReason);
    LiteralExact(CRLF, PrintHeaders(r.headers));
    hide PrintHeaders, PrintVersion, Span, Print, HeaderFields, Version, Number, AllPrintable;
    StatusFilled(r, s4);
    ResponseStart(r, s4);
    BlockIsOpen(PrintHeaders(r.headers), r.headers);
  }

  lemma {:induction false} BlockIsOpen(text: string, hs: seq<Header>)
    requires HeaderFields(text) == (hs, "")
    ensures HeaderBlock(CRLF + text).Failed?
  {
    LiteralExact(CRLF, text);
    hide HeaderFields;
  }

  lemma {:induction false} StatusFilled(r: Response, s4: string)
    requires 100 <= r.status <= 999 && s4 != "" && !IsSpace(s4[0])
    ensures FilledResponse(PrintVersion(r.major, r.minor) + (" " + (Print(r.status, 10) + (" " + s4))))
         == Some((r.status, FilledHeaders(" " + s4)))
    ensures SkipSpaces(" " + s4) == Read((), s4)
  {
    var s2 := Print(r.status, 10) + (" " + s4);
    VersionRoundTrip(r.major, r.minor, " " + s2);
    assert s2[0] == Print(r.status, 10)[0];
    assert DigitIn(10, s2[0]);
    OneSpace(s2);
    OneSpace(s4);
    PrintedLength(r.status, 10, 3);
    PrintedLength(r.status, 10, 2);
    assert Power(10, 2) == 100 && Power(10, 3) == 1000;
    NumberExact(r.status, 10, 3, 3, 1000, " " + s4);
    hide SkipSpaces, Version, PrintVersion, FilledHeaders, Number, Print;
  }
}
