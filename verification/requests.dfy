/** What the client asks, octet for octet, and what it makes of an answer, told in status codes. */
module Requests {
  import opened Wrappers
  import opened Text
  import opened Messages
  import opened HeaderNormalisation
  import opened RtspSession
  import C = ControlClient
  import T = Transport

  // ---- asking ----

  /** A session is set up from `init` only, played from `ready` or `playing`, paused from `playing`; all else at any time. */
  lemma {:induction false} AskedIff(c: C.Client, kind: C.Kind, url: string, wish: C.Wish)
    ensures var (after, request) := C.Send(c, kind, url, wish);
      && (kind == C.Setup ==> (request.Some? <==> c.state == Init))
      && (kind == C.Play ==> (request.Some? <==> c.state == Ready || c.state == Playing))
      && (kind == C.Pause ==> (request.Some? <==> c.state == Playing))
      && (kind == C.Teardown || kind == C.Options || kind == C.Describe ==> request.Some?)
      && (request.None? ==> after == c)
      && (request.Some? ==>
            && after == c.(nextCseq := c.nextCseq + 1, outstanding := after.outstanding)
            && after.outstanding == c.outstanding[c.nextCseq % 4294967296 := kind])
  {
  }

  function Start(name: string, url: string, cseq: nat): string
  {
    name + " " + url + " RTSP/1.0\r\nCSeq: " + Print(cseq, 10) + "\r\n"
  }

  lemma {:induction false} StartIs(name: string, url: string, cseq: nat, rest: seq<Header>)
    ensures PrintRequest(Request(name, url, 1, 0, [Header("CSeq", Print(cseq, 10))] + rest))
         == Start(name, url, cseq) + (PrintHeaders(rest) + "\r\n")
  {
    var first := Header("CSeq", Print(cseq, 10));
    VersionIs();
    FirstPrinted(first, rest);
    hide PrintVersion, Print, PrintHeaders;
    StartText(name, url, Print(cseq, 10), PrintHeaders(rest));
  }

  lemma {:induction false} VersionIs()
    ensures PrintVersion(1, 0) == "RTSP/1.0"
  {
    assert Print(1, 10) == "1" && Print(0, 10) == "0";
  }

  lemma {:induction false} FirstPrinted(h: Header, rest: seq<Header>)
    ensures PrintHeaders([h] + rest) == PrintHeader(h) + PrintHeaders(rest)
    ensures PrintHeaders([]) == ""
  {
    assert ([h] + rest)[1..] == rest;
    hide PrintHeader;
  }

  lemma {:induction false} StartText(name: string, url: string, n: string, rest: string)
    ensures name + " " + url + " " + "RTSP/1.0" + CRLF + (("CSeq" + ": " + n + CRLF) + rest) + CRLF
         == (name + " " + url + " RTSP/1.0\r\nCSeq: " + n + "\r\n") + (rest + "\r\n")
  {
    assert " RTSP/1.0\r\nCSeq: " == " " + ("RTSP/1.0" + (CRLF + ("CSeq" + ": ")));
  }

  /** The header lines of each request behind its number. */
  function Lines(kind: C.Kind, id: string, wish: C.Wish): string
  {
    match kind
    case Options => ""
    case Describe => ""
    case Play => "session: " + id + "\r\n"
    case Pause => "session: " + id + "\r\n"
    case Teardown => "session: " + id + "\r\n"
    case Setup =>
      "Transport: RTP/AVP/UDP;unicast;client_port=" + Print(wish.port, 10) + "\r\n"
      + if wish.options.None? then "" else
          "Require: " + "net.markusklemm.options" + "\r\n" + "net.markusklemm.options" + ": " + wish.options.value + "\r\n"
  }

  function Name(kind: C.Kind): string
  {
    match kind
    case Options => "OPTIONS"
    case Describe => "DESCRIBE"
    case Play => "PLAY"
    case Pause => "PAUSE"
    case Teardown => "TEARDOWN"
    case Setup => "SETUP"
  }

  /** Every character the client sends: start line, number, the method's own headers, and an empty line. */
  lemma {:induction false} RequestOnWire(c: C.Client, kind: C.Kind, url: string, wish: C.Wish)
    requires C.Send(c, kind, url, wish).1.Some?
    ensures PrintRequest(C.Send(c, kind, url, wish).1.value)
         == Start(Name(kind), url, c.nextCseq) + (Lines(kind, c.id, wish) + "\r\n")
  {
    OwnLines(kind, c.id, wish);
    StartIs(Name(kind), url, c.nextCseq, C.OwnHeaders(c.id, kind, wish));
    hide PrintRequest, PrintHeaders, Lines, Print, C.OwnHeaders, Start;
  }

  lemma {:induction false} OwnLines(kind: C.Kind, id: string, wish: C.Wish)
    ensures PrintHeaders(C.OwnHeaders(id, kind, wish)) == Lines(kind, id, wish)
  {
    hide T.PrintSpec, T.ClientSpec, Print;
    match kind
    case Setup => SetupLines(wish);
    case Options => assert PrintHeaders([]) == "";
    case Describe => assert PrintHeaders([]) == "";
    case _ => OneLine("session", id);
  }

  lemma {:induction false} OneLine(name: string, value: string)
    ensures PrintHeaders([Header(name, value)]) == name + ": " + value + "\r\n"
  {
    FirstPrinted(Header(name, value), []);
    assert [Header(name, value)] + [] == [Header(name, value)];
    hide PrintHeaders;
  }

  lemma {:induction false} SetupLines(wish: C.Wish)
    ensures PrintHeaders(C.OwnHeaders("", C.Setup, wish)) == Lines(C.Setup, "", wish)
  {
    var first := Header("Transport", T.PrintSpec(T.ClientSpec(wish.port)));
    TransportLine(wish.port);
    hide T.PrintSpec, T.ClientSpec, Print, PrintHeaders, PrintHeader;
    if wish.options.Some? {
      var tag, options := Header("Require", T.OPTION_NAME), Header(T.OPTION_NAME, wish.options.value);
      FirstPrinted(first, [tag, options]);
      FirstPrinted(tag, [options]);
      assert [tag] + [options] == [tag, options];
      OneLine(T.OPTION_NAME, wish.options.value);
      TagLines(wish.options.value);
    } else {
      FirstPrinted(first, []);
      assert PrintHeader(first) + "" == PrintHeader(first);
    }
  }

  lemma {:induction false} TransportLine(port: T.PortNumber)
    ensures PrintHeader(Header("Transport", T.PrintSpec(T.ClientSpec(port))))
         == "Transport: RTP/AVP/UDP;unicast;client_port=" + Print(port, 10) + "\r\n"
  {
    TransportText(port);
    hide T.PrintSpec, T.ClientSpec, Print;
    Spaced("RTP/AVP/UDP;unicast;client_port=", Print(port, 10));
    assert "Transport: " + "RTP/AVP/UDP;unicast;client_port=" == "Transport: RTP/AVP/UDP;unicast;client_port=";
  }

  lemma {:induction false} Spaced(a: string, b: string)
    ensures "Transport" + ": " + (a + b) + CRLF == ("Transport: " + a) + b + "\r\n"
  {
  }

  lemma {:induction false} TagLines(value: string)
    ensures PrintHeader(Header("Require", T.OPTION_NAME)) + (T.OPTION_NAME + ": " + value + "\r\n")
         == "Require: " + "net.markusklemm.options" + "\r\n" + "net.markusklemm.options" + ": " + value + "\r\n"
  {
    assert T.OPTION_NAME == "net.markusklemm.options";
    TwoLines("net.markusklemm.options", value);
  }

  lemma {:induction false} TwoLines(name: string, value: string)
    ensures ("Require" + ": " + name + CRLF) + (name + ": " + value + "\r\n")
         == "Require: " + name + "\r\n" + name + ": " + value + "\r\n"
  {
    assert "Require" + ": " == "Require: ";
  }

  lemma {:induction false} TransportText(port: T.PortNumber)
    ensures T.PrintSpec(T.ClientSpec(port)) == "RTP/AVP/UDP;unicast;client_port=" + Print(port, 10)
  {
    T.ClientText(port);
    hide T.PrintSpec, Print;
    Spelled(Print(port, 10));
  }

  lemma {:induction false} Spelled(digits: string)
    ensures "RTP" + ("/" + ("AVP" + ("/" + ("UDP" + (";" + ("unicast" + (";" + ("client_port" + ("=" + (digits + ""))))))))))
         == "RTP/AVP/UDP;unicast;client_port=" + digits
  {
    assert "RTP" + ("/" + ("AVP" + ("/" + ("UDP" + (";" + ("unicast" + (";" + ("client_port" + "="))))))))
        == "RTP/AVP/UDP;unicast;client_port=";
  }

  // ---- answers ----

  /** What a well-formed answer to SETUP must hold, or the client stops; its state changes only after the receiver is there. */
  lemma {:induction false} SetupIsAdopted(c: C.Client, status: nat, h: Normalised, portFree: bool)
    ensures var (after, ok) := C.Adopt(c, status, h, portFree);
      var complete := 200 <= status <= 299 && "session" in h && "transport" in h;
      && (ok <==> complete && T.ReadTransport(h["transport"]).Agreed? && portFree)
      && (ok ==>
            var reading := T.ReadTransport(h["transport"]);
            after == c.(id := h["session"], state := Ready, receiver := Some(C.Receiver(reading.port, reading.ssrc))))
      && (!ok ==> after == if complete then c.(id := h["session"]) else c)
  {
    hide T.ReadTransport;
  }

  /**
   * An answer without a number stops the client; a provisional one, or one that answers nothing outstanding, changes
   * nothing; PLAY, PAUSE and TEARDOWN lead to `playing`, `ready` and `init` whatever the status, OPTIONS and DESCRIBE nowhere.
   */
  lemma {:induction false} AnswerIsHandled(c: C.Client, status: nat, received: seq<Header>, portFree: bool)
    ensures var h, after := Normalize(received), C.Receive(c, status, received, portFree);
      if "cseq" !in h then after == c.(reading := false)
      else
        var cseq := C.ReadCseq(h["cseq"]);
        if status <= 199 || cseq !in c.outstanding then after == c
        else if c.outstanding[cseq] == C.Setup then
          && (after.reading != c.reading ==> after.outstanding == c.outstanding)
          && (C.Adopt(c, status, h, portFree).1 ==> after.outstanding == c.outstanding - {cseq} && after.reading == c.reading)
          && (!C.Adopt(c, status, h, portFree).1 ==> !after.reading && after.outstanding == c.outstanding)
        else
          after == c.(outstanding := c.outstanding - {cseq},
                      state := if c.outstanding[cseq] == C.Play then Playing
                               else if c.outstanding[cseq] == C.Pause then Ready
                               else if c.outstanding[cseq] == C.Teardown then Init
                               else c.state)
  {
    hide Normalize, C.ReadCseq, T.ReadTransport;
  }

  /** The number in an answer's header: what it starts with if that fits 32 bits, and otherwise 0. */
  lemma {:induction false} NumberIsRead(n: nat, rest: string)
    requires rest == "" || !DigitIn(10, rest[0])
    ensures C.ReadCseq(Print(n, 10) + rest) == if n < 4294967296 then n else 0
    ensures C.ReadCseq(rest) == 0
  {
    UnboundedExact(n, rest);
    SpanExact("", rest, c => DigitIn(10, c));
    assert "" + rest == rest;
    hide Print, Span;
  }

  // ---- characters ----

  /** The two characters are the same letter of the English alphabet, or the same character. */
  predicate SameLetter(a: char, b: char)
  {
    a == b
    || (65 <= a as int <= 90 && b as int == a as int + 32)
    || (65 <= b as int <= 90 && a as int == b as int + 32)
  }

  predicate SameLetters(a: string, b: string)
  {
    |a| == |b| && forall i :: 0 <= i < |a| ==> SameLetter(a[i], b[i])
  }

  /** Header names are told apart without regard to the case of English letters, and by everything else. */
  lemma {:induction false} CaseIsIgnored(a: string, b: string)
    ensures ToLower(a) == ToLower(b) <==> SameLetters(a, b)
    ensures forall i :: 0 <= i < |a| ==> !(65 <= ToLower(a)[i] as int <= 90)
  {
    if ToLower(a) == ToLower(b) {
      assert |a| == |ToLower(a)| == |b|;
      forall i | 0 <= i < |a| ensures SameLetter(a[i], b[i]) {
        assert ToLower(a)[i] == ToLower(b)[i];
      }
    }
    if SameLetters(a, b) {
      forall i | 0 <= i < |a| ensures ToLower(a)[i] == ToLower(b)[i] {
        assert SameLetter(a[i], b[i]);
      }
      assert ToLower(a) == ToLower(b);
    }
  }

  /** Requests and answers whose header names differ only in case are normalised alike. */
  lemma {:induction false} NormalisedAlike(a: seq<Header>, b: seq<Header>)
    requires |a| == |b|
    requires forall i :: 0 <= i < |a| ==> SameLetters(a[i].name, b[i].name) && a[i].value == b[i].value
    ensures Normalize(a) == Normalize(b)
  {
    forall key ensures ValuesOf(a, key) == ValuesOf(b, key) {
      ValuesAlike(a, b, key);
    }
    SameValuesSameResult(a, b);
  }

  lemma {:induction false} ValuesAlike(a: seq<Header>, b: seq<Header>, key: string)
    requires |a| == |b|
    requires forall i :: 0 <= i < |a| ==> SameLetters(a[i].name, b[i].name) && a[i].value == b[i].value
    ensures ValuesOf(a, key) == ValuesOf(b, key)
  {
    if a != [] {
      var n := |a| - 1;
      ValuesAlike(a[..n], b[..n], key);
      CaseIsIgnored(a[n].name, b[n].name);
    }
    hide ToLower, SameLetters;
  }

  /** Tokens, white space and control characters by their codes (section 15.1 of RFC 2326 for the separators). */
  lemma {:induction false} CharactersByCode(c: char)
    ensures IsSpace(c) <==> c as int == 32 || 9 <= c as int <= 13
    ensures IsControl(c) <==> c as int <= 31 || c as int == 127
    ensures IsToken(c) <==>
      c as int >= 33 && c as int !in {34, 40, 41, 44, 47, 58, 59, 60, 61, 62, 63, 64, 91, 92, 93, 123, 125, 127}
  {
  }
}
