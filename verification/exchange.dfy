/** One request of the client and its answer: through the printed texts, the server, and back to the client. */
module Exchange {
  import opened Wrappers
  import opened Text
  import opened Messages
  import opened HeaderNormalisation
  import opened RtspSession
  import C = ControlClient
  import S = RtspServer
  import T = Transport

  // ---- what the two ends are given ----

  predicate IsIdentifier(id: string)
  {
    id != "" && All(id, IsToken)
  }

  predicate IsUrl(url: string)
  {
    url != "" && All(url, IsUri)
  }

  predicate IsValue(text: string)
  {
    text != "" && All(text, IsText) && !IsSpace(text[0]) && text[0] != '"'
  }

  predicate PrintableWish(wish: C.Wish)
  {
    wish.options.Some? ==> IsValue(wish.options.value)
  }

  predicate ReadableWorld(world: S.World)
  {
    IsIdentifier(world.freshId)
  }

  predicate NeedsSession(kind: C.Kind)
  {
    kind == C.Play || kind == C.Pause || kind == C.Teardown
  }

  // ---- names ----

  lemma {:induction false} LowerNames()
    ensures ToLower("CSeq") == "cseq" && ToLower("session") == "session" && ToLower("Session") == "session"
    ensures ToLower("Transport") == "transport" && ToLower("Public") == "public"
  {
    assert ToLower("CSeq") == "cseq";
    assert ToLower("Transport") == "transport";
  }

  lemma {:induction false} LowerOptionNames()
    ensures ToLower("Require") == "require" && ToLower(T.OPTION_NAME) == T.OPTION_NAME
  {
    assert ToLower("Require") == "require";
    forall i | 0 <= i < |T.OPTION_NAME| ensures Lower(T.OPTION_NAME[i]) == T.OPTION_NAME[i] {
      assert !('A' <= T.OPTION_NAME[i] <= 'Z');
    }
  }

  // ---- the request as the server sees it ----

  lemma {:induction false} RequestNames(id: string, cseq: nat, kind: C.Kind, url: string, wish: C.Wish)
    ensures var hs := C.RequestFor(id, cseq, kind, url, wish).headers;
      && |hs| >= 1 && ToLower(hs[0].name) == "cseq" && hs[0].value == Print(cseq, 10)
      && (NeedsSession(kind) ==> |hs| == 2 && ToLower(hs[1].name) == "session" && hs[1].value == id)
      && (kind == C.Setup ==>
            |hs| >= 2 && ToLower(hs[1].name) == "transport" && hs[1].value == T.PrintSpec(T.ClientSpec(wish.port)))
      && (forall i :: 1 <= i < |hs| ==> ToLower(hs[i].name) != "cseq")
      && (!NeedsSession(kind) ==> forall i :: 0 <= i < |hs| ==> ToLower(hs[i].name) != "session")
      && (forall i :: 2 <= i < |hs| ==> ToLower(hs[i].name) != "transport")
  {
    LowerNames();
    LowerOptionNames();
    hide ToLower, Print, T.PrintSpec;
  }

  lemma {:induction false} RequestView(id: string, cseq: nat, kind: C.Kind, url: string, wish: C.Wish)
    ensures var h := Normalize(C.RequestFor(id, cseq, kind, url, wish).headers);
      && "cseq" in h && h["cseq"] == Print(cseq, 10)
      && ("session" in h <==> NeedsSession(kind))
      && (NeedsSession(kind) ==> h["session"] == id)
      && (kind == C.Setup ==> "transport" in h && h["transport"] == T.PrintSpec(T.ClientSpec(wish.port)))
  {
    var hs := C.RequestFor(id, cseq, kind, url, wish).headers;
    RequestNames(id, cseq, kind, url, wish);
    hide ToLower, Print, T.PrintSpec, Normalize, T.ClientSpec, C.RequestFor;
    SingleValue(hs, 0, "cseq");
    if NeedsSession(kind) {
      SingleValue(hs, 1, "session");
    } else {
      NoValue(hs, "session");
    }
    if kind == C.Setup {
      SingleValue(hs, 1, "transport");
    }
  }

  /** Channel options are required exactly when the client wishes for them, and then are what it wishes for. */
  lemma {:induction false} OptionView(id: string, cseq: nat, url: string, wish: C.Wish)
    ensures var h := Normalize(C.RequestFor(id, cseq, C.Setup, url, wish).headers);
      && ("require" in h <==> wish.options.Some?)
      && (wish.options.Some? ==>
            h["require"] == T.OPTION_NAME && T.OPTION_NAME in h && h[T.OPTION_NAME] == wish.options.value)
  {
    var hs := C.RequestFor(id, cseq, C.Setup, url, wish).headers;
    LowerNames();
    LowerOptionNames();
    hide ToLower, Print, T.PrintSpec, Normalize, T.ClientSpec;
    if wish.options.Some? {
      assert |hs| == 4;
      SingleValue(hs, 2, "require");
      SingleValue(hs, 3, T.OPTION_NAME);
    } else {
      assert |hs| == 2;
      NoValue(hs, "require");
    }
  }

  // ---- texts ----

  lemma {:induction false} DigitsAreText(n: nat, radix: Radix)
    ensures IsValue(Print(n, radix))
  {
    var s := Print(n, radix);
    forall i | 0 <= i < |s| ensures !IsControl(s[i]) && !IsSpace(s[i]) && s[i] != '"' {
      assert DigitIn(radix, s[i]);
    }
  }

  lemma {:induction false} IdentifierIsText(id: string)
    requires IsIdentifier(id)
    ensures IsValue(id)
  {
    forall i | 0 <= i < |id| ensures !IsControl(id[i]) && !IsSpace(id[i]) && id[i] != '"' {
      assert IsToken(id[i]);
    }
  }

  lemma {:induction false} ClientPortTextIsText(port: T.PortNumber, tail: string)
    requires All(tail, IsText)
    ensures All(T.ClientPortText(port, tail), IsText)
  {
    DigitsAreText(port, 10);
    hide Print;
  }

  lemma {:induction false} ServerPartIsText(ssrc: T.SsrcNumber, port: T.PortNumber)
    ensures All(T.SsrcText(ssrc, port), IsText)
  {
    DigitsAreText(port, 10);
    DigitsAreText(ssrc, 16);
    hide Print;
  }

  lemma {:induction false} SpecTextIsValue(tail: string)
    requires All(tail, IsText)
    ensures IsValue("RTP" + ("/" + ("AVP" + ("/" + ("UDP" + (";" + ("unicast" + tail)))))))
  {
    assert "RTP" + ("/" + ("AVP" + ("/" + ("UDP" + (";" + ("unicast" + tail)))))) == "RTP/AVP/UDP;unicast" + tail;
    assert ("RTP/AVP/UDP;unicast" + tail)[0] == 'R';
  }

  lemma {:induction false} ClientSpecIsValue(port: T.PortNumber)
    ensures IsValue(T.PrintSpec(T.ClientSpec(port)))
  {
    T.ClientText(port);
    ClientPortTextIsText(port, "");
    hide T.PrintSpec, T.ClientSpec, T.ClientPortText, IsValue;
    SpecTextIsValue(T.ClientPortText(port, ""));
  }

  lemma {:induction false} ChosenSpecIsValue(clientPort: T.PortNumber, ssrc: T.SsrcNumber, port: T.PortNumber)
    ensures IsValue(T.PrintSpec(T.ChosenSpec(clientPort, ssrc, T.Single(port))))
  {
    T.ChosenText(clientPort, ssrc, port);
    ServerPartIsText(ssrc, port);
    ClientPortTextIsText(clientPort, T.SsrcText(ssrc, port));
    hide T.PrintSpec, T.ChosenSpec, T.ClientPortText, T.SsrcText, IsValue;
    SpecTextIsValue(T.ClientPortText(clientPort, T.SsrcText(ssrc, port)));
  }

  lemma {:induction false} NamesAreTokens()
    ensures All("CSeq", IsToken) && All("Transport", IsToken) && All("session", IsToken)
    ensures All("Require", IsToken) && All(T.OPTION_NAME, IsToken)
    ensures All("Session", IsToken) && All("Public", IsToken)
  {
    WordIsToken("CSeq");
    WordIsToken("Transport");
    WordIsToken("session");
    WordIsToken("Require");
    WordIsToken("Session");
    WordIsToken("Public");
    WordIsToken(T.OPTION_NAME);
    hide IsToken, IsWord;
  }

  lemma {:induction false} MethodsAreTokens(kind: C.Kind)
    ensures C.MethodName(kind) != "" && All(C.MethodName(kind), IsToken)
  {
    WordIsToken(C.MethodName(kind));
    hide IsToken;
  }

  /** Whatever the client sends parses back, but for a session header without a value. */
  lemma {:induction false} SentIsPrintable(id: string, cseq: nat, kind: C.Kind, url: string, wish: C.Wish)
    requires IsUrl(url) && PrintableWish(wish) && (NeedsSession(kind) ==> IsIdentifier(id))
    ensures PrintableRequest(C.RequestFor(id, cseq, kind, url, wish))
  {
    NamesAreTokens();
    MethodsAreTokens(kind);
    DigitsAreText(cseq, 10);
    ClientSpecIsValue(wish.port);
    if NeedsSession(kind) {
      IdentifierIsText(id);
    }
    hide IsToken, IsText, IsSpace, Print, T.PrintSpec, T.ClientSpec, C.MethodName, All;
  }

  // ---- one request at the server ----

  /** A request as the client asked it. */
  datatype Question = Question(id: string, cseq: nat, kind: C.Kind, wish: C.Wish)

  function RequestOf(q: Question, url: string): Request
  {
    C.RequestFor(q.id, q.cseq, q.kind, url, q.wish)
  }

  /** Asked before any SETUP was answered: the session header has no value. */
  predicate Blank(q: Question)
  {
    NeedsSession(q.kind) && q.id == ""
  }

  predicate Askable(q: Question)
  {
    PrintableWish(q.wish) && (NeedsSession(q.kind) ==> q.id == "" || IsIdentifier(q.id))
  }

  /** The server's answer on values; none after an exception. */
  function Served(s: S.Server, q: Question, url: string, host: S.Host, world: S.World): (S.Server, Option<Response>)
  {
    if Blank(q) then (s, Some(S.UNREADABLE))
    else
      match S.Handle(s, RequestOf(q, url), host, world)
      case (after, Threw) => (after, None)
      case (after, Answer(response)) => (after, Some(response))
  }

  lemma {:induction false} TextStart(q: Question, url: string)
    ensures var text := PrintRequest(RequestOf(q, url)); text[Span(text, IsSpace)..] == text
  {
    var text := PrintRequest(RequestOf(q, url));
    MethodsAreTokens(q.kind);
    assert text[0] == C.MethodName(q.kind)[0];
    assert IsToken(text[0]);
    assert Span(text, IsSpace) == 0;
  }

  lemma {:induction false} QuestionParses(q: Question, url: string)
    requires IsUrl(url) && Askable(q) && !Blank(q)
    ensures ParseRequest(PrintRequest(RequestOf(q, url))) == Read(RequestOf(q, url), "")
  {
    SentIsPrintable(q.id, q.cseq, q.kind, url, q.wish);
    EndIsNoFold();
    hide PrintableRequest, ParseRequest, PrintRequest, NoFolding, C.RequestFor;
    RequestRoundTrip(RequestOf(q, url), "");
    assert PrintRequest(RequestOf(q, url)) + "" == PrintRequest(RequestOf(q, url));
  }

  lemma {:induction false} BlankIsUnreadable(q: Question, url: string)
    requires IsUrl(url) && Blank(q)
    ensures ParseRequest(PrintRequest(RequestOf(q, url))) == Failed
  {
    NamesAreTokens();
    MethodsAreTokens(q.kind);
    DigitsAreText(q.cseq, 10);
    hide IsToken, IsText, IsSpace, Print, C.MethodName, All, ParseRequest, PrintRequest;
    var r := RequestOf(q, url);
    assert r.headers == [r.headers[0]] + [Header("session", "")];
    BlankValueIsUnreadable(r, [r.headers[0]], "session");
  }

  lemma {:induction false} RespondOf(s: S.Server, text: string, host: S.Host, world: S.World)
    requires text[Span(text, IsSpace)..] == text
    ensures ParseRequest(text).Failed? ==> S.Respond(s, text, host, world) == (s, Some(PrintResponse(S.UNREADABLE)))
    ensures ParseRequest(text).Read? ==>
      var (after, reply) := S.Handle(s, ParseRequest(text).value, host, world);
      S.Respond(s, text, host, world) == (after, if reply.Threw? then None else Some(PrintResponse(reply.response)))
  {
    hide ParseRequest, PrintResponse, S.Handle, Span;
  }

  /** What is served is what was asked, through the printed text. */
  lemma {:induction false} ServedText(s: S.Server, q: Question, url: string, host: S.Host, world: S.World)
    requires IsUrl(url) && Askable(q)
    ensures var (after, response) := Served(s, q, url, host, world);
      S.Respond(s, PrintRequest(RequestOf(q, url)), host, world)
        == (after, if response.Some? then Some(PrintResponse(response.value)) else None)
  {
    hide Blank, RequestOf, ParseRequest, PrintRequest, PrintResponse, S.Handle, S.Respond, Askable, IsUrl, Span;
    TextStart(q, url);
    if Blank(q) {
      BlankIsUnreadable(q, url);
    } else {
      QuestionParses(q, url);
    }
    RespondOf(s, PrintRequest(RequestOf(q, url)), host, world);
  }

  lemma {:induction false} SetupBranch(s: S.Server, request: Request, host: S.Host, world: S.World)
    requires request.method_ == "SETUP"
    requires var h := Normalize(request.headers); "cseq" in h && h["cseq"] != "" && "session" !in h
    ensures S.Handle(s, request, host, world) == S.OnSetup(s, request.uri, Normalize(request.headers), host, world)
  {
    hide Normalize, S.OnSetup, S.OnSession, S.Bare;
  }

  lemma {:induction false} SessionBranch(s: S.Server, request: Request, host: S.Host, world: S.World)
    requires request.method_ == "PLAY" || request.method_ == "PAUSE" || request.method_ == "TEARDOWN"
    requires var h := Normalize(request.headers); "cseq" in h && h["cseq"] != "" && "session" in h
    ensures var h := Normalize(request.headers);
      S.Handle(s, request, host, world) == if h["session"] in s.sessions then S.OnSession(s, request.method_, h, host)
                                           else (s, S.Answer(S.Bare(454, "Session not found", h)))
  {
    hide Normalize, S.OnSetup, S.OnSession, S.Bare;
  }

  lemma {:induction false} OtherBranch(s: S.Server, request: Request, host: S.Host, world: S.World)
    requires request.method_ == "DESCRIBE" || request.method_ == "OPTIONS"
    requires var h := Normalize(request.headers); "cseq" in h && h["cseq"] != ""
    ensures var h := Normalize(request.headers);
      S.Handle(s, request, host, world)
        == (s, S.Answer(if request.method_ == "DESCRIBE" then S.Bare(501, "\"DESCRIBE\" not implemented", h)
                        else OptionsResponse(h["cseq"])))
  {
    hide Normalize, S.OnSetup, S.OnSession, S.Bare;
  }

  function OptionsResponse(cseq: string): Response
  {
    Response(1, 0, 200, "OK", [Header("CSeq", cseq), Header("Public", "SETUP, TEARDOWN, PLAY, PAUSE")])
  }

  // ---- answers ----

  /** An answer that comes through, numbered like the request if it is numbered at all. */
  predicate AnswerOk(cseq: nat, r: Response)
  {
    && PrintableResponse(r) && r.status >= 200
    && var h := Normalize(r.headers);
      "cseq" in h ==> h["cseq"] == Print(cseq, 10)
  }

  /** The common part of all answers but one. */
  predicate Numbered(cseq: nat, hs: seq<Header>)
  {
    hs != [] && hs[0] == Header("CSeq", Print(cseq, 10)) && forall i :: 1 <= i < |hs| ==> ToLower(hs[i].name) != "cseq"
  }

  lemma {:induction false} NumberedAnswer(cseq: nat, r: Response)
    requires Numbered(cseq, r.headers) && PrintableResponse(r) && r.status >= 200
    ensures AnswerOk(cseq, r)
    ensures "cseq" in Normalize(r.headers) && Normalize(r.headers)["cseq"] == Print(cseq, 10)
  {
    LowerNames();
    hide ToLower, Normalize, Print, PrintableResponse;
    SingleValue(r.headers, 0, "cseq");
  }

  lemma {:induction false} UnreadableAnswer(cseq: nat)
    ensures AnswerOk(cseq, S.UNREADABLE) && "cseq" !in Normalize(S.UNREADABLE.headers)
  {
    hide Normalize;
    NoValue([], "cseq");
  }

  predicate IsReasonText(reason: string)
  {
    reason != "" && All(reason, IsReason) && !IsSpace(reason[0])
  }

  lemma {:induction false} BareAnswer(cseq: nat, status: nat, reason: string, h: Normalised)
    requires "cseq" in h && h["cseq"] == Print(cseq, 10) && 200 <= status <= 999 && IsReasonText(reason)
    ensures AnswerOk(cseq, S.Bare(status, reason, h))
    ensures "cseq" in Normalize(S.Bare(status, reason, h).headers)
  {
    NamesAreTokens();
    DigitsAreText(cseq, 10);
    hide IsToken, IsText, IsSpace, IsReason, Print, ToLower, Normalize, All;
    NumberedAnswer(cseq, S.Bare(status, reason, h));
  }

  /** Answers that name the session: the skeleton, and what is made from it. */
  lemma {:induction false} SessionAnswer(cseq: nat, id: string, status: nat, reason: string)
    requires IsIdentifier(id) && 200 <= status <= 999 && IsReasonText(reason)
    ensures var r := S.Refusal(S.Skeleton(id, Print(cseq, 10)), status, reason);
      AnswerOk(cseq, r) && "cseq" in Normalize(r.headers)
  {
    var r := S.Refusal(S.Skeleton(id, Print(cseq, 10)), status, reason);
    NamesAreTokens();
    LowerNames();
    DigitsAreText(cseq, 10);
    IdentifierIsText(id);
    hide IsToken, IsText, IsSpace, IsReason, Print, ToLower, Normalize, All;
    NumberedAnswer(cseq, r);
  }

  lemma {:induction false} ReasonsAreText(url: string)
    requires IsUrl(url)
    ensures IsReasonText("OK") && IsReasonText("Session not found") && IsReasonText("\"DESCRIBE\" not implemented")
    ensures IsReasonText("Method Not Valid in This State") && IsReasonText("Ressource \"" + url + "\" Not Found")
  {
    assert ("Ressource \"" + url + "\" Not Found")[0] == 'R';
  }

  lemma {:induction false} WordsAreText(words: string)
    requires All(words, c => IsWord(c) || c == ' ' || c == ',')
    ensures All(words, IsText)
  {
    forall i | 0 <= i < |words| ensures IsText(words[i]) {
      assert IsWord(words[i]) || words[i] == ' ' || words[i] == ',';
    }
  }

  lemma {:induction false} OptionsAnswer(cseq: nat)
    ensures var r := OptionsResponse(Print(cseq, 10)); AnswerOk(cseq, r) && "cseq" in Normalize(r.headers)
  {
    var r := OptionsResponse(Print(cseq, 10));
    NamesAreTokens();
    LowerNames();
    DigitsAreText(cseq, 10);
    WordsAreText(r.headers[1].value);
    hide IsToken, IsText, IsWord, Print, ToLower, Normalize;
    NumberedAnswer(cseq, r);
  }

  // ---- requests that change no session ----

  lemma {:induction false} OtherServed(s: S.Server, q: Question, url: string, host: S.Host, world: S.World)
    requires (q.kind == C.Options || q.kind == C.Describe) && IsUrl(url)
    ensures var (after, r) := Served(s, q, url, host, world);
      after == s && r.Some? && AnswerOk(q.cseq, r.value) && "cseq" in Normalize(r.value.headers)
  {
    RequestView(q.id, q.cseq, q.kind, url, q.wish);
    DigitsAreText(q.cseq, 10);
    ReasonsAreText(url);
    var request := RequestOf(q, url);
    var h := Normalize(request.headers);
    hide Normalize, Print, S.Handle, S.Bare, IsText, IsSpace, All, IsReasonText, AnswerOk, OptionsResponse;
    OtherBranch(s, request, host, world);
    OptionsAnswer(q.cseq);
    BareAnswer(q.cseq, 501, "\"DESCRIBE\" not implemented", h);
  }

  /** A request that names a session, as far as its branch and number go. */
  lemma {:induction false} SessionDispatch(s: S.Server, q: Question, url: string, host: S.Host, world: S.World)
    requires NeedsSession(q.kind)
    ensures var h, r := Normalize(RequestOf(q, url).headers), S.Handle(s, RequestOf(q, url), host, world);
      && "cseq" in h && h["cseq"] == Print(q.cseq, 10) && "session" in h && h["session"] == q.id
      && r == if q.id in s.sessions then S.OnSession(s, C.MethodName(q.kind), h, host)
              else (s, S.Answer(S.Bare(454, "Session not found", h)))
  {
    RequestView(q.id, q.cseq, q.kind, url, q.wish);
    DigitsAreText(q.cseq, 10);
    hide Normalize, Print, S.Handle, S.Bare, S.OnSession, IsText, IsSpace, All;
    SessionBranch(s, RequestOf(q, url), host, world);
  }

  lemma {:induction false} AbsentServed(s: S.Server, q: Question, url: string, host: S.Host, world: S.World)
    requires NeedsSession(q.kind) && q.id != "" && q.id !in s.sessions && IsUrl(url)
    ensures var (after, r) := Served(s, q, url, host, world);
      after == s && r.Some? && AnswerOk(q.cseq, r.value) && "cseq" in Normalize(r.value.headers)
  {
    SessionDispatch(s, q, url, host, world);
    ReasonsAreText(url);
    hide Normalize, Print, S.Handle, S.Bare, S.OnSession, RequestOf, AnswerOk, IsReasonText;
    BareAnswer(q.cseq, 454, "Session not found", Normalize(RequestOf(q, url).headers));
  }

  // ---- requests on a session ----

  /** What PLAY and PAUSE make of a session's state (Appendix A.2 of RFC 2326). */
  function StateServed(kind: C.Kind, state: State): State
  {
    if kind == C.Play then (if state == Init then Init else Playing)
    else if kind == C.Pause && state == Playing then Ready
    else state
  }

  lemma {:induction false} OnSessionEffect(s: S.Server, kind: C.Kind, h: Normalised, host: S.Host, cseq: nat,
                                           id: string)
    requires NeedsSession(kind) && id in s.sessions && IsIdentifier(id)
    requires "cseq" in h && h["cseq"] == Print(cseq, 10) && "session" in h && h["session"] == id
    ensures var (after, r) := S.OnSession(s, C.MethodName(kind), h, host);
      && r.Answer? && AnswerOk(cseq, r.response) && "cseq" in Normalize(r.response.headers)
      && after.byHost == s.byHost
      && after.sessions == if kind == C.Teardown then s.sessions - {id}
           else s.sessions[id := s.sessions[id].(state := StateServed(kind, s.sessions[id].state), lastSeen := host)]
  {
    hide Normalize, Print, AnswerOk, IsIdentifier, IsReasonText, S.Skeleton;
    assert IsReasonText("OK") && IsReasonText("Method Not Valid in This State") by {
      ReasonsAreText("x");
    }
    SessionAnswer(cseq, id, 200, "OK");
    SessionAnswer(cseq, id, 455, "Method Not Valid in This State");
    SkeletonIsOk(id, Print(cseq, 10));
  }

  lemma {:induction false} SkeletonIsOk(id: string, cseq: string)
    ensures S.Refusal(S.Skeleton(id, cseq), 200, "OK") == S.Skeleton(id, cseq)
  {
  }

  lemma {:induction false} SessionServed(s: S.Server, q: Question, url: string, host: S.Host, world: S.World)
    requires NeedsSession(q.kind) && q.id in s.sessions && IsIdentifier(q.id)
    ensures var (after, r) := Served(s, q, url, host, world);
      && r.Some? && AnswerOk(q.cseq, r.value) && "cseq" in Normalize(r.value.headers)
      && after.byHost == s.byHost
      && after.sessions == if q.kind == C.Teardown then s.sessions - {q.id}
           else s.sessions[q.id := s.sessions[q.id].(state := StateServed(q.kind, s.sessions[q.id].state), lastSeen := host)]
  {
    assert q.id != "";
    SessionDispatch(s, q, url, host, world);
    hide Normalize, Print, S.Handle, S.OnSession, RequestOf, AnswerOk, IsIdentifier, StateServed;
    OnSessionEffect(s, q.kind, Normalize(RequestOf(q, url).headers), host, q.cseq, q.id);
  }

  // ---- SETUP ----

  function ServerPortFor(port: T.PortNumber): T.PortNumber
  {
    (port + 2) % 0x1_0000
  }

  /** The answer to a SETUP that went through. */
  function Accepted(id: string, cseq: string, port: T.PortNumber, ssrc: T.SsrcNumber): Response
  {
    var spec := T.ChosenSpec(port, ssrc, T.Single(ServerPortFor(port)));
    Response(1, 0, 200, "OK", [Header("CSeq", cseq), Header("Session", id), Header("Transport", T.PrintSpec(spec))])
  }

  lemma {:induction false} ClientTransportIsRead(port: T.PortNumber)
    ensures S.ReadRequested(T.PrintSpec(T.ClientSpec(port))) == S.Specs([T.ClientSpec(port)])
  {
    var text := T.PrintSpec(T.ClientSpec(port));
    ClientSpecIsValue(port);
    assert Span(text, IsSpace) == 0;
    assert text[0..] == text;
    T.ClientRequestParses(port);
    hide T.PrintSpec, T.ClientSpec, T.ParseTransport;
  }

  /** One tag alone is read to its end. */
  lemma {:induction false} TagIsRead(tag: string)
    requires tag != "" && All(tag, IsToken)
    ensures S.RequiredTags(tag) == ([tag], "")
  {
    assert IsToken(tag[0]);
    SpanExact("", tag, IsSpace);
    assert "" + tag == tag && tag + "" == tag && tag[0..] == tag;
    ManyExact(tag, "", IsToken);
    assert S.MoreTags("") == ([], "");
    assert [tag] + [] == [tag];
    hide Many, IsToken, IsSpace, All;
  }

  lemma {:induction false} OwnTagIsRead()
    ensures S.RequiredTags(T.OPTION_NAME) == ([T.OPTION_NAME], "")
  {
    NamesAreTokens();
    assert T.OPTION_NAME != "";
    hide *;
    TagIsRead(T.OPTION_NAME);
  }

  /** What the server makes of the options the client wishes for: it reads them to the end or names where it stopped. */
  lemma {:induction false} OptionsChecked(q: Question, url: string, world: S.World)
    requires q.kind == C.Setup
    ensures S.CheckOptions(Normalize(RequestOf(q, url).headers), world)
         == if OptionsRead(q, world) then S.Passed else S.Refused(400, OptionReason(q.wish.options.value, world.optionRead), [])
  {
    OptionView(q.id, q.cseq, url, q.wish);
    OwnTagIsRead();
    hide Normalize, S.RequiredTags, C.RequestFor;
    assert S.Unsupported([T.OPTION_NAME]) == [];
  }

  predicate OptionsRead(q: Question, world: S.World)
  {
    q.wish.options.Some? ==> |q.wish.options.value| <= world.optionRead
  }

  function OptionReason(text: string, read: nat): string
    requires read < |text|
  {
    "Bad Request: Could not read " + T.OPTION_NAME + " header after " + text[read..]
  }

  lemma {:induction false} OptionReasonIsText(text: string, read: nat)
    requires read < |text| && IsValue(text)
    ensures IsReasonText(OptionReason(text, read))
  {
    var front := "Bad Request: Could not read " + T.OPTION_NAME + " header after ";
    assert OptionReason(text, read) == front + text[read..];
    assert IsReasonText(front) by {
      assert front[0] == 'B';
    }
    hide *;
    ReasonExtended(front, text, read);
  }

  lemma {:induction false} ReasonExtended(front: string, text: string, read: nat)
    requires IsReasonText(front) && read < |text| && IsValue(text)
    ensures IsReasonText(front + text[read..])
  {
    forall i | 0 <= i < |text| ensures IsReason(text[i]) {
      assert IsText(text[i]);
    }
  }

  /** The four ends of a client's SETUP. */
  lemma {:induction false} SetupOutcome(q: Question, session: S.Session, id: string, url: string, world: S.World)
    requires session.state == Init && q.kind == C.Setup
    ensures var h := Normalize(RequestOf(q, url).headers);
      "cseq" in h && S.Setup(session, id, url, h, world)
        == SetupEnd(q, session, S.Skeleton(id, h["cseq"]), id, url, h["cseq"], world)
  {
    hide T.PrintSpec, T.ClientSpec, S.Skeleton, Normalize, S.Setup, SetupEnd, C.RequestFor;
    var h := Normalize(RequestOf(q, url).headers);
    RequestView(q.id, q.cseq, q.kind, url, q.wish);
    SetupOutcomeFrom(q, session, id, url, world, h);
  }

  lemma {:induction false} SetupOutcomeFrom(q: Question, session: S.Session, id: string, url: string, world: S.World,
                                            h: Normalised)
    requires session.state == Init && q.kind == C.Setup && h == Normalize(RequestOf(q, url).headers) && "cseq" in h
    requires "transport" in h && h["transport"] == T.PrintSpec(T.ClientSpec(q.wish.port))
    ensures S.Setup(session, id, url, h, world) == SetupEnd(q, session, S.Skeleton(id, h["cseq"]), id, url, h["cseq"], world)
  {
    hide T.PrintSpec, T.ClientSpec, S.ReadRequested, T.Choose, T.ChosenSpec, S.Skeleton, S.SetupTransport, Accepted,
         S.SenderFor,
         Normalize, RequestOf, S.CheckOptions, OptionsRead, OptionReason;
    OptionsChecked(q, url, world);
    ClientTransportIsRead(q.wish.port);
    T.ChoiceForClient(q.wish.port, world.randomPort, world.randomSsrc);
    TransportOutcome(session, id, url, h["cseq"], q.wish.port, world);
    var skeleton := S.Skeleton(id, h["cseq"]);
    assert skeleton.headers + [] == skeleton.headers;
  }

  function SetupEnd(q: Question, session: S.Session, skeleton: Response, id: string, url: string, cseq: string,
                    world: S.World)
    : (S.Session, S.Reply)
  {
    var port := q.wish.port;
    if !OptionsRead(q, world) then
      (session, S.Answer(S.Refusal(skeleton, 400, OptionReason(q.wish.options.value, world.optionRead))))
    else if !world.resourceFound then
      (session, S.Answer(S.Refusal(skeleton, 404, "Ressource \"" + url + "\" Not Found")))
    else if !world.portFree then (session, S.Threw)
    else
      (S.Session(Ready, Some(S.RtpSender(session.lastSeen, port, ServerPortFor(port), world.randomSsrc)), session.lastSeen),
       S.Answer(Accepted(id, cseq, port, world.randomSsrc)))
  }

  lemma {:induction false} TransportOutcome(session: S.Session, id: string, url: string, cseq: string,
                                            port: T.PortNumber, world: S.World)
    requires session.state == Init
    ensures var skeleton := S.Skeleton(id, cseq);
      S.SetupTransport(session, skeleton, url, Some(T.ChosenSpec(port, world.randomSsrc, T.Single(ServerPortFor(port)))), world) ==
        if !world.resourceFound then
          (session, S.Answer(S.Refusal(skeleton, 404, "Ressource \"" + url + "\" Not Found")))
        else if !world.portFree then (session, S.Threw)
        else
          (S.Session(Ready, Some(S.RtpSender(session.lastSeen, port, ServerPortFor(port), world.randomSsrc)), session.lastSeen),
           S.Answer(Accepted(id, cseq, port, world.randomSsrc)))
  {
    hide T.PrintSpec, ServerPortFor;
    var last := Accepted(id, cseq, port, world.randomSsrc).headers[2];
    assert S.Skeleton(id, cseq).headers + [last] == Accepted(id, cseq, port, world.randomSsrc).headers;
  }

  lemma {:induction false} AcceptedAnswer(id: string, cseq: nat, port: T.PortNumber, ssrc: T.SsrcNumber)
    requires IsIdentifier(id)
    ensures var r := Accepted(id, Print(cseq, 10), port, ssrc); var h := Normalize(r.headers);
      && AnswerOk(cseq, r) && "cseq" in h
      && "session" in h && h["session"] == id
      && "transport" in h && h["transport"] == T.PrintSpec(T.ChosenSpec(port, ssrc, T.Single(ServerPortFor(port))))
  {
    var r := Accepted(id, Print(cseq, 10), port, ssrc);
    NamesAreTokens();
    LowerNames();
    DigitsAreText(cseq, 10);
    IdentifierIsText(id);
    ChosenSpecIsValue(port, ssrc, ServerPortFor(port));
    hide IsToken, IsText, IsSpace, Print, ToLower, Normalize, T.PrintSpec, T.ChosenSpec, All, ServerPortFor;
    assert IsReasonText("OK") by {
      ReasonsAreText("x");
    }
    NumberedAnswer(cseq, r);
    AcceptedHeaders(id, Print(cseq, 10), port, ssrc);
  }

  lemma {:induction false} AcceptedHeaders(id: string, cseq: string, port: T.PortNumber, ssrc: T.SsrcNumber)
    ensures var h := Normalize(Accepted(id, cseq, port, ssrc).headers);
      && "session" in h && h["session"] == id
      && "transport" in h && h["transport"] == T.PrintSpec(T.ChosenSpec(port, ssrc, T.Single(ServerPortFor(port))))
  {
    var hs := Accepted(id, cseq, port, ssrc).headers;
    LowerNames();
    hide ToLower, Normalize, T.PrintSpec, T.ChosenSpec, ServerPortFor;
    SingleValue(hs, 1, "session");
    SingleValue(hs, 2, "transport");
  }
}
