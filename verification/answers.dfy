/** Which answer the server gives to which request, told in status codes, and what that means over whole runs. */
module Answers {
  import opened Wrappers
  import opened Text
  import opened Messages
  import opened HeaderNormalisation
  import opened RtspSession
  import opened Requests
  import S = RtspServer
  import T = Transport

  /** The request carries a sequence number. */
  predicate HasNumber(h: Normalised)
  {
    "cseq" in h && h["cseq"] != ""
  }

  /** An answer on a session: its number, and the session's identifier. */
  function OnSession(status: nat, reason: string, h: Normalised, id: string): Response
    requires HasNumber(h)
  {
    Response(1, 0, status, reason, [Header("CSeq", h["cseq"]), Header("Session", id)])
  }

  /** An answer that only echoes the number. */
  function Plain(status: nat, reason: string, h: Normalised): Response
    requires HasNumber(h)
  {
    Response(1, 0, status, reason, [Header("CSeq", h["cseq"])])
  }

  // ---- a stored session ----

  /**
   * A request that names a stored session: PLAY is answered 200 unless the session is in `Init`, and leaves it playing;
   * PAUSE only when it is playing, and leaves it ready; TEARDOWN always, and removes it; everything else 455.
   */
  lemma {:induction false} StoredSessionAnswers(s: S.Server, request: Request, requester: S.Host, world: S.World)
    requires var h := Normalize(request.headers); HasNumber(h) && "session" in h && h["session"] in s.sessions
    ensures var h := Normalize(request.headers);
      var id, (after, r) := h["session"], S.Handle(s, request, requester, world);
      var state := s.sessions[id].state;
      var ok, refused := OnSession(200, "OK", h, id), OnSession(455, "Method Not Valid in This State", h, id);
      && (request.method_ == "PLAY" ==>
            && r == S.Answer(if state == Ready || state == Playing then ok else refused)
            && id in after.sessions && after.sessions[id].state == if state == Init then Init else Playing)
      && (request.method_ == "PAUSE" ==>
            && r == S.Answer(if state == Playing then ok else refused)
            && id in after.sessions && after.sessions[id].state == if state == Init then Init else Ready)
      && (request.method_ == "TEARDOWN" ==> r == S.Answer(ok) && after.sessions == s.sessions - {id})
  {
    hide Normalize, S.OnSetup;
  }

  // ---- requests that reach no session ----

  /** All other answers but those of `setup`; none of them changes anything. */
  lemma {:induction false} OtherAnswers(s: S.Server, request: Request, requester: S.Host, world: S.World)
    ensures var h, name := Normalize(request.headers), request.method_;
      var (after, r) := S.Handle(s, request, requester, world);
      && (!HasNumber(h) ==> after == s && r == S.Answer(Response(1, 0, 400, "Bad Request: CSeq missing", [])))
      && (HasNumber(h) && name == "OPTIONS" ==>
            && after == s
            && r == S.Answer(Response(1, 0, 200, "OK", [Header("CSeq", h["cseq"]),
                                                        Header("Public", "SETUP, TEARDOWN, PLAY, PAUSE")])))
      && (HasNumber(h) && name == "DESCRIBE" ==>
            after == s && r == S.Answer(Plain(501, "\"DESCRIBE\" not implemented", h)))
      && (HasNumber(h) && name == "SETUP" && "session" in h ==>
            after == s && r == S.Answer(Plain(459, "Aggregate Operation Not Allowed", h)))
      && (HasNumber(h) && name !in {"OPTIONS", "DESCRIBE", "SETUP"} && "session" !in h ==>
            after == s && r == S.Answer(Plain(400, "Session header not found", h)))
      && (HasNumber(h) && name in {"PLAY", "PAUSE", "TEARDOWN"} && "session" in h && h["session"] !in s.sessions ==>
            after == s && r == S.Answer(Plain(454, "Session not found", h)))
      && (HasNumber(h) && name !in {"OPTIONS", "DESCRIBE", "SETUP", "PLAY", "PAUSE", "TEARDOWN"} && "session" in h ==>
            after == s && r == S.Answer(Plain(501, "\"" + name + "\" not implemented", h)))
  {
    hide Normalize, S.OnSetup, S.OnSession;
  }

  // ---- answers as texts ----

  /** An answer on a session, octet for octet. */
  lemma {:induction false} AnswerOnWire(status: nat, reason: string, h: Normalised, id: string)
    requires HasNumber(h)
    ensures PrintResponse(OnSession(status, reason, h, id))
         == "RTSP/1.0 " + Print(status, 10) + " " + reason + "\r\n" + "CSeq: " + h["cseq"] + "\r\n"
            + "Session: " + id + "\r\n" + "\r\n"
  {
    var cseq, session := Header("CSeq", h["cseq"]), Header("Session", id);
    VersionIs();
    TwoPrinted(cseq, session);
    hide Print, PrintVersion, PrintHeaders;
    ResponseText(Print(status, 10), reason, h["cseq"], id);
  }

  lemma {:induction false} TwoPrinted(a: Header, b: Header)
    ensures PrintHeaders([a, b]) == PrintHeader(a) + PrintHeader(b)
  {
    FirstPrinted(a, [b]);
    FirstPrinted(b, []);
    assert [a] + [b] == [a, b] && [b] + [] == [b];
    hide PrintHeaders, PrintHeader;
  }

  lemma {:induction false} ResponseText(status: string, reason: string, cseq: string, id: string)
    ensures "RTSP/1.0" + " " + status + " " + reason + CRLF
            + (("CSeq" + ": " + cseq + CRLF) + ("Session" + ": " + id + CRLF)) + CRLF
         == "RTSP/1.0 " + status + " " + reason + "\r\n" + "CSeq: " + cseq + "\r\n" + "Session: " + id + "\r\n" + "\r\n"
  {
    assert "RTSP/1.0" + " " == "RTSP/1.0 " && "CSeq" + ": " == "CSeq: " && "Session" + ": " == "Session: ";
  }

  /** What is no request is answered as such and changes nothing. */
  lemma {:induction false} UnreadableAnswers(s: S.Server, text: string, requester: S.Host, world: S.World)
    requires ParseRequest(text[Span(text, IsSpace)..]).Failed?
    ensures S.Respond(s, text, requester, world) == (s, Some("RTSP/1.0 400 Bad Request\r\n\r\n"))
  {
    VersionIs();
    assert Print(4, 10) == "4" && Print(40, 10) == "40" && Print(400, 10) == "400";
    hide Print, PrintVersion, ParseRequest, Span;
    assert PrintHeaders([]) == "";
    assert "RTSP/1.0" + " " + "400" + " " + "Bad Request" + CRLF + "" + CRLF == "RTSP/1.0 400 Bad Request\r\n\r\n";
  }

  // ---- SETUP: the Require header ----

  predicate IsTag(tag: string)
  {
    tag != "" && All(tag, IsToken)
  }

  predicate AreTags(tags: seq<string>)
  {
    tags != [] && forall i :: 0 <= i < |tags| ==> IsTag(tags[i])
  }

  /** No further tag can be read here. */
  predicate EndsTags(rest: string)
  {
    rest == "" || (!IsToken(rest[0]) && (rest[0] == ',' ==> |rest| == 1 || !IsToken(rest[1])))
  }

  lemma {:induction false} JoinFirst(tag: string, tags: seq<string>)
    requires tags != []
    ensures Join([tag] + tags) == tag + "," + Join(tags)
  {
    var all := [tag] + tags;
    assert Join([tag]) == tag;
    if |tags| == 1 {
      assert all[..1] == [tag] && all[1] == tags[0];
    } else {
      var n := |tags| - 1;
      JoinFirst(tag, tags[..n]);
      assert all[..|all| - 1] == [tag] + tags[..n];
      assert all[|all| - 1] == tags[n];
    }
  }

  /** Tags joined by commas are read one by one, up to what is no further tag. */
  lemma {:induction false} MoreTagsRead(tags: seq<string>, rest: string)
    requires AreTags(tags) && EndsTags(rest)
    ensures S.MoreTags("," + (Join(tags) + rest)) == (tags, rest)
    ensures S.ParseTags(Join(tags) + rest) == Read(tags, rest)
  {
    var tag := tags[0];
    if |tags| == 1 {
      assert tags == [tag] + [];
      NoMoreTags(rest);
      TagRead(tag, rest, [], rest);
    } else {
      var more := Join(tags[1..]) + rest;
      assert tags == [tag] + tags[1..];
      JoinFirst(tag, tags[1..]);
      MoreTagsRead(tags[1..], rest);
      TagRead(tag, "," + more, tags[1..], rest);
      Reassociated(tag, Join(tags[1..]), rest);
    }
    hide S.MoreTags, S.ParseTags, Join, EndsTags;
  }

  lemma {:induction false} Reassociated(a: string, b: string, c: string)
    ensures (a + "," + b) + c == a + ("," + (b + c))
  {
  }

  lemma {:induction false} NoMoreTags(rest: string)
    requires EndsTags(rest)
    ensures S.MoreTags(rest) == ([], rest)
  {
    if "," <= rest {
      assert rest[0] == ',';
    }
  }

  lemma {:induction false} TagRead(tag: string, next: string, more: seq<string>, rest: string)
    requires IsTag(tag) && StopsAt(next, IsToken) && S.MoreTags(next) == (more, rest)
    ensures S.ParseTags(tag + next) == Read([tag] + more, rest)
    ensures S.MoreTags("," + (tag + next)) == ([tag] + more, rest)
  {
    ManyExact(tag, next, IsToken);
    LiteralExact(",", tag + next);
    hide Many, Literal, IsToken, All;
  }

  lemma {:induction false} TagsAreRead(tags: seq<string>, rest: string)
    requires AreTags(tags) && EndsTags(rest)
    ensures S.RequiredTags(Join(tags) + rest) == (tags, rest[Span(rest, IsSpace)..])
  {
    var text := Join(tags) + rest;
    MoreTagsRead(tags, rest);
    JoinStarts(tags);
    assert text[0] == Join(tags)[0];
    assert Span(text, IsSpace) == 0;
    assert text[0..] == text;
    hide S.ParseTags, Join;
  }

  lemma {:induction false} JoinStarts(tags: seq<string>)
    requires AreTags(tags)
    ensures Join(tags) != "" && !IsSpace(Join(tags)[0])
  {
    if |tags| == 1 {
      assert IsToken(tags[0][0]);
    } else {
      JoinStarts(tags[..|tags| - 1]);
    }
  }

  function ValuesIn(hs: seq<Header>): (r: seq<string>)
    ensures |r| == |hs|
  {
    seq(|hs|, i requires 0 <= i < |hs| => hs[i].value)
  }

  /** Each tag that is not the library's own is listed as often as it is required, and nothing else is. */
  lemma {:induction false} UnsupportedAre(tags: seq<string>)
    ensures forall tag :: multiset(S.Unsupported(tags))[tag]
                       == if tag == "net.markusklemm.options" then 0 else multiset(tags)[tag]
    ensures S.Unsupported(tags) == [] <==> AllOwn(tags)
  {
    if tags != [] {
      UnsupportedAre(tags[1..]);
      assert tags == [tags[0]] + tags[1..];
      if tags[0] == "net.markusklemm.options" {
        assert forall i :: 0 <= i < |tags| ==> i == 0 || tags[i] == tags[1..][i - 1];
      }
    }
  }

  /** A SETUP without a session, and an identifier the server does not know yet. */
  predicate FreshSetup(s: S.Server, request: Request, world: S.World)
  {
    var h := Normalize(request.headers);
    request.method_ == "SETUP" && HasNumber(h) && "session" !in h && world.freshId !in s.sessions
  }

  /** What a SETUP leaves behind when it is not answered 200: a session in `Init`, registered for the requester. */
  function Refused(s: S.Server, requester: S.Host, world: S.World): S.Server
  {
    S.Server(s.sessions[world.freshId := S.Session(Init, None, requester)], s.byHost + [S.Entry(requester, world.freshId)])
  }

  lemma {:induction false} ReachesSetup(s: S.Server, request: Request, requester: S.Host, world: S.World)
    requires FreshSetup(s, request, world)
    ensures var h := Normalize(request.headers);
      var (session, r) := S.Setup(S.Session(Init, None, requester), world.freshId, request.uri, h, world);
      S.Handle(s, request, requester, world)
        == (S.Server(s.sessions[world.freshId := session], s.byHost + [S.Entry(requester, world.freshId)]), r)
  {
    hide Normalize, S.Setup;
  }

  predicate AllOwn(tags: seq<string>)
  {
    forall i :: 0 <= i < |tags| ==> tags[i] == "net.markusklemm.options"
  }

  /** Headers named `Unsupported`, one for each time a tag that is not the library's own is required. */
  ghost predicate ListsUnsupported(extra: seq<Header>, tags: seq<string>)
  {
    && (forall i :: 0 <= i < |extra| ==> extra[i].name == "Unsupported")
    && forall tag :: multiset(ValuesIn(extra))[tag]
                  == if tag == "net.markusklemm.options" then 0 else multiset(tags)[tag]
  }

  /** How the Require header, and the option header it asks for, are judged. */
  ghost predicate JudgedOptions(check: S.OptionCheck, h: Normalised, tags: seq<string>, rest: string, read: nat)
  {
    if rest != "" then check == S.Refused(400, "Bad Request: Could not read transport header after" + rest, [])
    else if !AllOwn(tags) then
      && check.Refused? && check.status == 551 && check.reason == "Option not supported"
      && ListsUnsupported(check.extra, tags)
    else if "net.markusklemm.options" !in h then
      check == S.Refused(400, "net.markusklemm.options header missing", [])
    else if read < |h["net.markusklemm.options"]| then
      check == S.Refused(400, "Bad Request: Could not read net.markusklemm.options header after "
                              + h["net.markusklemm.options"][read..], [])
    else check == S.Passed
  }

  lemma {:induction false} OptionsAreJudged(h: Normalised, world: S.World, tags: seq<string>, rest: string)
    requires AreTags(tags) && EndsTags(rest) && (rest == "" || !IsSpace(rest[0]))
    requires "require" in h && h["require"] == Join(tags) + rest
    ensures JudgedOptions(S.CheckOptions(h, world), h, tags, rest, world.optionRead)
  {
    TagsAreRead(tags, rest);
    UnsupportedAre(tags);
    RestStays(rest);
    hide Join, S.RequiredTags, S.Unsupported, AreTags, EndsTags, S.CheckParameters;
    ParametersAreJudged(h, world);
    var unsupported := S.Unsupported(tags);
    if rest == "" && unsupported != [] {
      assert ValuesIn(S.CheckOptions(h, world).extra) == unsupported;
    }
  }

  lemma {:induction false} ParametersAreJudged(h: Normalised, world: S.World)
    ensures S.CheckParameters(h, world) ==
      if "net.markusklemm.options" !in h then S.Refused(400, "net.markusklemm.options header missing", [])
      else if world.optionRead < |h["net.markusklemm.options"]| then
        S.Refused(400, "Bad Request: Could not read net.markusklemm.options header after "
                       + h["net.markusklemm.options"][world.optionRead..], [])
      else S.Passed
  {
    Spelled(T.OPTION_NAME);
  }

  lemma {:induction false} Spelled(name: string)
    requires name == "net.markusklemm.options"
    ensures name + " header missing" == "net.markusklemm.options header missing"
    ensures "Bad Request: Could not read " + name + " header after "
         == "Bad Request: Could not read net.markusklemm.options header after "
  {
  }

  /** SETUP refused with a status, a reason and further headers; the session stays in `Init`. */
  ghost predicate RefusedWith(s: S.Server, after: S.Server, r: S.Reply, h: Normalised, requester: S.Host,
                              world: S.World, check: S.OptionCheck)
    requires HasNumber(h) && check.Refused?
  {
    && after == Refused(s, requester, world)
    && r.Answer?
    && r.response == Response(1, 0, check.status, check.reason,
                              [Header("CSeq", h["cseq"]), Header("Session", world.freshId)] + check.extra)
  }

  /**
   * The Require header holds tags and then something that is none, or an unsupported tag, or the option header is missing or
   * not read to its end: SETUP is refused with 400, 551 and the unsupported tags, 400, and 400, in this order.
   */
  lemma {:induction false} RequireAnswers(s: S.Server, request: Request, requester: S.Host, world: S.World,
                                          tags: seq<string>, rest: string) returns (check: S.OptionCheck)
    requires FreshSetup(s, request, world) && AreTags(tags) && EndsTags(rest) && (rest == "" || !IsSpace(rest[0]))
    requires var h := Normalize(request.headers); "require" in h && h["require"] == Join(tags) + rest
    ensures JudgedOptions(check, Normalize(request.headers), tags, rest, world.optionRead)
    ensures var (after, r) := S.Handle(s, request, requester, world);
      check.Refused? ==> RefusedWith(s, after, r, Normalize(request.headers), requester, world, check)
  {
    var h := Normalize(request.headers);
    check := S.CheckOptions(h, world);
    ReachesSetup(s, request, requester, world);
    OptionsAreJudged(h, world, tags, rest);
    hide Normalize, S.Handle, Join, S.RequestedTransports, S.SetupTransport, AreTags, EndsTags, JudgedOptions,
         S.CheckOptions;
  }

  lemma {:induction false} RestStays(rest: string)
    requires rest == "" || !IsSpace(rest[0])
    ensures rest[Span(rest, IsSpace)..] == rest
  {
  }

  // ---- SETUP: the Transport header ----

  /** Nothing is required, or nothing but the library's own options, and these are read to their end. */
  predicate OptionsFine(h: Normalised, world: S.World, tags: seq<string>)
  {
    "require" in h ==>
      && AreTags(tags) && h["require"] == Join(tags) && AllOwn(tags)
      && "net.markusklemm.options" in h && |h["net.markusklemm.options"]| <= world.optionRead
  }

  lemma {:induction false} FineOptionsPass(h: Normalised, world: S.World, tags: seq<string>)
    requires OptionsFine(h, world, tags)
    ensures S.CheckOptions(h, world) == S.Passed
  {
    if "require" in h {
      assert Join(tags) + "" == Join(tags);
      OptionsAreJudged(h, world, tags, "");
    }
    hide AreTags, Join;
  }

  /** The requested specifications, read to the end of the header; none if there is no header or it is empty. */
  predicate Asks(h: Normalised, specs: seq<T.Spec>)
  {
    if "transport" !in h || h["transport"] == "" then specs == []
    else !IsSpace(h["transport"][0]) && T.ParseTransport(h["transport"]) == Read(specs, "")
  }

  lemma {:induction false} AskedIs(h: Normalised, specs: seq<T.Spec>)
    requires Asks(h, specs)
    ensures S.RequestedTransports(h) == S.Specs(specs)
  {
    hide T.ParseTransport;
    if "transport" in h {
      RestStays(h["transport"]);
      if h["transport"] == "" {
        NothingParses();
      }
    }
  }

  lemma {:induction false} NothingParses()
    ensures T.ParseTransport("") == Failed
  {
  }

  /** The sender made for a choice, which must name one server port. */
  function SenderOf(cs: seq<T.Parameter>, host: S.Host): S.RtpSender
    requires |cs| == 4 && cs[1].Port? && cs[1].numbers.Single? && cs[2].Ssrc? && cs[3].Port? && cs[3].numbers.Single?
  {
    S.RtpSender(host, cs[1].numbers.number, cs[3].numbers.number, cs[2].ssrc)
  }

  const NO_TRANSPORT: string :=
    "Unsupported Transport: The Transport field did not contain a supported transport specification."

  /** The new session and its answer, for what was chosen and what the outside allows. */
  predicate TransportEnd(choice: Option<T.Spec>, h: Normalised, uri: string, requester: S.Host, world: S.World,
                         session: S.Session, r: S.Reply)
    requires HasNumber(h)
  {
    var unset, id := S.Session(Init, None, requester), world.freshId;
    if choice.None? then session == unset && r == S.Answer(OnSession(461, NO_TRANSPORT, h, id))
    else if !world.resourceFound then
      session == unset && r == S.Answer(OnSession(404, "Ressource \"" + uri + "\" Not Found", h, id))
    else
      var cs := choice.value.parameters;
      && |cs| == 4 && cs[1].Port? && cs[1].numbers.Single? && cs[2].Ssrc? && cs[3].Port?
      && if !world.portFree || cs[3].numbers.Range? then session == unset && r == S.Threw
         else
           && session == S.Session(Ready, Some(SenderOf(cs, requester)), requester)
           && r == S.Answer(Response(1, 0, 200, "OK", [Header("CSeq", h["cseq"]), Header("Session", id),
                                                       Header("Transport", T.PrintSpec(choice.value))]))
  }

  /**
   * The ends of a SETUP whose headers are read: nothing acceptable is asked for (461), the resource is missing (404), an
   * exception for a taken port or a requested range of server ports, or 200 with the choice printed and a ready session
   * that sends from the chosen port to the chosen port of the requester.
   */
  lemma {:induction false} TransportAnswers(s: S.Server, request: Request, requester: S.Host, world: S.World,
                                            tags: seq<string>, specs: seq<T.Spec>)
    requires FreshSetup(s, request, world)
    requires OptionsFine(Normalize(request.headers), world, tags) && Asks(Normalize(request.headers), specs)
    ensures var h, id := Normalize(request.headers), world.freshId;
      var (after, r) := S.Handle(s, request, requester, world);
      && id in after.sessions
      && after == Refused(s, requester, world).(sessions := s.sessions[id := after.sessions[id]])
      && TransportEnd(T.Choose(specs, world.randomPort, world.randomSsrc), h, request.uri, requester, world,
                      after.sessions[id], r)
  {
    var h := Normalize(request.headers);
    ReachesSetup(s, request, requester, world);
    FineOptionsPass(h, world, tags);
    AskedIs(h, specs);
    ChoiceHasSinglePort(specs, world);
    EndOfTransport(T.Choose(specs, world.randomPort, world.randomSsrc), h, request.uri, requester, world);
    hide Normalize, S.Handle, S.CheckOptions, S.RequestedTransports, T.Choose, OptionsFine, Asks, TransportEnd,
         S.SetupTransport, S.Skeleton, T.FourParameters;
  }

  lemma {:induction false} EndOfTransport(choice: Option<T.Spec>, h: Normalised, uri: string, requester: S.Host,
                                          world: S.World)
    requires HasNumber(h)
    requires choice.Some? ==> T.FourParameters(choice.value) && choice.value.parameters[1].numbers.Single?
    ensures var (session, r) := S.SetupTransport(S.Session(Init, None, requester), S.Skeleton(world.freshId, h["cseq"]),
                                                 uri, choice, world);
      TransportEnd(choice, h, uri, requester, world, session, r)
  {
    hide T.PrintSpec;
  }

  /** An identifier that comes up again while its session is set up: 455, and the session as it was. */
  lemma {:induction false} CollidingSetupAnswers(s: S.Server, request: Request, requester: S.Host, world: S.World,
                                                 tags: seq<string>, specs: seq<T.Spec>)
    requires var h := Normalize(request.headers); request.method_ == "SETUP" && HasNumber(h) && "session" !in h
    requires world.freshId in s.sessions && s.sessions[world.freshId].state != Init
    requires OptionsFine(Normalize(request.headers), world, tags) && Asks(Normalize(request.headers), specs)
    requires T.Choose(specs, world.randomPort, world.randomSsrc).Some?
    ensures var h, id := Normalize(request.headers), world.freshId;
      var (after, r) := S.Handle(s, request, requester, world);
      && r == S.Answer(OnSession(455, "Method Not Valid In This State", h, id))
      && after.sessions == s.sessions[id := s.sessions[id].(lastSeen := requester)]
  {
    var h := Normalize(request.headers);
    FineOptionsPass(h, world, tags);
    AskedIs(h, specs);
    hide Normalize, S.CheckOptions, S.RequestedTransports, T.Choose, OptionsFine, Asks;
  }

  // ---- white space around texts ----

  lemma {:induction false} PadOff(pad: string, text: string)
    requires All(pad, IsSpace) && (text == "" || !IsSpace(text[0]))
    ensures (pad + text)[Span(pad + text, IsSpace)..] == text && text[Span(text, IsSpace)..] == text
  {
    SpanExact(pad, text, IsSpace);
    SpanExact("", text, IsSpace);
    assert "" + text == text;
    hide Span;
  }

  /** White space in front of a request or of its Transport header is passed over, and behind the latter as well. */
  lemma {:induction false} PaddingIsSkipped(s: S.Server, pad: string, text: string, requester: S.Host, world: S.World)
    requires All(pad, IsSpace) && (text == "" || !IsSpace(text[0]))
    ensures S.Respond(s, pad + text, requester, world) == S.Respond(s, text, requester, world)
    ensures S.ReadRequested(pad + text) == S.ReadRequested(text)
    ensures T.ParseTransport(text).Read? && All(T.ParseTransport(text).rest, IsSpace) ==>
      S.ReadRequested(text) == S.Specs(T.ParseTransport(text).value)
  {
    PadOff(pad, text);
    if T.ParseTransport(text).Read? && All(T.ParseTransport(text).rest, IsSpace) {
      var rest := T.ParseTransport(text).rest;
      PadOff(rest, "");
      assert rest + "" == rest;
    }
    hide ParseRequest, T.ParseTransport, S.Handle, PrintResponse, Span;
  }

  lemma {:induction false} ChoiceHasSinglePort(specs: seq<T.Spec>, world: S.World)
    ensures var choice := T.Choose(specs, world.randomPort, world.randomSsrc);
      choice.Some? ==> T.FourParameters(choice.value) && choice.value.parameters[1].numbers.Single?
  {
  }

  /** A Transport header that cannot be read, or not to its end: 400, and where reading stopped. */
  lemma {:induction false} UnreadTransportAnswers(s: S.Server, request: Request, requester: S.Host, world: S.World,
                                                  tags: seq<string>, rest: string)
    requires FreshSetup(s, request, world) && OptionsFine(Normalize(request.headers), world, tags)
    requires var h := Normalize(request.headers);
      "transport" in h && h["transport"] != "" && !IsSpace(h["transport"][0])
      && rest != "" && !IsSpace(rest[0])
      && match T.ParseTransport(h["transport"])
         case Failed => rest == h["transport"]
         case Read(_, end) => rest == end
    ensures S.Handle(s, request, requester, world)
         == (Refused(s, requester, world),
             S.Answer(OnSession(400, "Bad Request: Could not read transport header after" + rest,
                                Normalize(request.headers), world.freshId)))
  {
    var h := Normalize(request.headers);
    ReachesSetup(s, request, requester, world);
    FineOptionsPass(h, world, tags);
    RestStays(h["transport"]);
    RestStays(rest);
    hide Normalize, S.Handle, S.CheckOptions, T.ParseTransport, T.Choose, OptionsFine;
  }

  // ---- whole runs ----

  predicate NamesStored(s: S.Server, request: Request, id: string)
  {
    HasNumber(Normalize(request.headers)) && S.Names(request, id) && id in s.sessions
  }

  predicate IsOk(r: S.Reply)
  {
    r.Answer? && r.response.status == 200
  }

  /** After any run from an empty server: PLAY is answered 200 iff the session has a sender, and iff it then plays. */
  lemma {:induction false} PlayIsAnswered(events: seq<S.Event>, request: Request, requester: S.Host, world: S.World,
                                          id: string)
    requires S.FreshIds(S.Server(map[], []), events) && request.method_ == "PLAY"
    requires NamesStored(S.Run(S.Server(map[], []), events), request, id)
    ensures var s := S.Run(S.Server(map[], []), events);
      var (after, r) := S.Handle(s, request, requester, world);
      && id in after.sessions
      && (IsOk(r) <==> s.sessions[id].sender.Some?)
      && (IsOk(r) <==> after.sessions[id].state == Playing)
  {
    var empty := S.Server(map[], []);
    var s := S.Run(empty, events);
    S.RunKeepsInv(empty, events);
    assert s.sessions[id].state == Init <==> s.sessions[id].sender.None?;
    StoredSessionAnswers(s, request, requester, world);
    hide Normalize, S.Handle, S.Run, S.Inv, S.FreshIds;
  }

  /** Requests that do not name the session and do not create it, and timeouts of hosts it is not registered for. */
  predicate Bystander(s: S.Server, e: S.Event, id: string)
  {
    match e
    case Incoming(request, _, world) => !S.Names(request, id) && world.freshId != id
    case HostTimeout(host) => id !in S.IdsOf(s.byHost, host)
  }

  predicate Bystanders(s: S.Server, events: seq<S.Event>, id: string)
    decreases |events|
  {
    events == [] || (Bystander(s, events[0], id) && Bystanders(S.After(s, events[0]), events[1..], id))
  }

  /** What goes on around a session leaves it as it was. */
  lemma {:induction false} Undisturbed(s: S.Server, events: seq<S.Event>, id: string)
    requires Bystanders(s, events, id) && id in s.sessions
    ensures id in S.Run(s, events).sessions && S.Run(s, events).sessions[id] == s.sessions[id]
    decreases |events|
  {
    if events != [] {
      BystanderStep(s, events[0], id);
      Undisturbed(S.After(s, events[0]), events[1..], id);
    }
    hide S.After, Bystander;
  }

  lemma {:induction false} BystanderStep(s: S.Server, e: S.Event, id: string)
    requires Bystander(s, e, id) && id in s.sessions
    ensures id in S.After(s, e).sessions && S.After(s, e).sessions[id] == s.sessions[id]
  {
    match e
    case Incoming(request, requester, world) => S.OthersUntouched(s, request, requester, world, id);
    case HostTimeout(host) =>
    hide S.Handle, S.Names;
  }

  /**
   * PAUSE is answered 200 iff the last PLAY or PAUSE on the session, whatever happened elsewhere since, was a PLAY
   * answered 200: of two PAUSEs one behind the other the second is always refused.
   */
  lemma {:induction false} PauseIsAnswered(
    s: S.Server, first: Request, firstHost: S.Host, firstWorld: S.World, between: seq<S.Event>,
    second: Request, secondHost: S.Host, secondWorld: S.World, id: string)
    requires NamesStored(s, first, id) && (first.method_ == "PLAY" || first.method_ == "PAUSE")
    requires Bystanders(S.Handle(s, first, firstHost, firstWorld).0, between, id)
    requires second.method_ == "PAUSE" && HasNumber(Normalize(second.headers)) && S.Names(second, id)
    ensures var (after, r) := S.Handle(s, first, firstHost, firstWorld);
      var last := S.Handle(S.Run(after, between), second, secondHost, secondWorld).1;
      IsOk(last) <==> first.method_ == "PLAY" && IsOk(r)
  {
    var after := S.Handle(s, first, firstHost, firstWorld).0;
    StoredSessionAnswers(s, first, firstHost, firstWorld);
    Undisturbed(after, between, id);
    StoredSessionAnswers(S.Run(after, between), second, secondHost, secondWorld);
    hide Normalize, S.Handle, S.Run, Bystanders;
  }
}
