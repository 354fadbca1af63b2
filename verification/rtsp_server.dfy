/** The server's sessions: `rtsp_server_internals.cpp` and the methods of `rtsp_methods.cpp`. */
module RtspServer {
  import opened Wrappers
  import opened Text
  import opened Messages
  import opened HeaderNormalisation
  import opened RtspSession
  import T = Transport

  type Host = string

  /** The RTP sender a session owns once it is set up. */
  datatype RtpSender = RtpSender(host: Host, clientPort: T.PortNumber, serverPort: T.PortNumber, ssrc: T.SsrcNumber)

  datatype Session = Session(state: State, sender: Option<RtpSender>, lastSeen: Host)

  /**
   * What a call finds outside: a fresh identifier, random numbers, the file system, the socket, and how many characters
   * of an option header the option grammar (a floating-point number among them) reads.
   */
  datatype World = World(
    freshId: string, randomPort: T.PortNumber, randomSsrc: T.SsrcNumber, resourceFound: bool, portFree: bool,
    optionRead: nat)

  /** A response, or an exception that leaves the handler. */
  datatype Reply = Answer(response: Response) | Threw

  datatype Entry = Entry(host: Host, id: string)

  datatype Server = Server(sessions: map<string, Session>, byHost: seq<Entry>)

  // ---- methods ----

  /** `common_response_sekeleton`. */
  function Skeleton(id: string, cseq: string): Response
  {
    Response(1, 0, 200, "OK", [Header("CSeq", cseq), Header("Session", id)])
  }

  function Refusal(response: Response, status: nat, reason: string): Response
  {
    response.(status := status, reason := reason)
  }

  /** The sender made from the chosen transport; a server port range makes `boost::get` throw. */
  function SenderFor(spec: T.Spec, host: Host): Option<RtpSender>
    requires T.FourParameters(spec)
  {
    if spec.parameters[1].numbers.Single? && spec.parameters[3].numbers.Single? then
      Some(RtpSender(host, spec.parameters[1].numbers.number, spec.parameters[3].numbers.number,
           spec.parameters[2].ssrc))
    else None
  }

  /** What is read out of a requested transport header: specifications, or the text where reading stopped. */
  datatype Requested = Specs(specs: seq<T.Spec>) | Unread(rest: string)

  /** `phrase_parse` with a white space skipper: white space before and after the header's text is passed over. */
  function ReadRequested(text: string): Requested
  {
    var start := text[Span(text, IsSpace)..];
    match T.ParseTransport(start)
    case Failed => if start == "" then Specs([]) else Unread(start)
    case Read(specs, rest) =>
      var end := rest[Span(rest, IsSpace)..];
      if end == "" then Specs(specs) else Unread(end)
  }

  function RequestedTransports(headers: Normalised): Requested
  {
    if "transport" in headers then ReadRequested(headers["transport"]) else Specs([])
  }

  // ---- the Require header ----

  /** `require_`: option tags separated by commas; a comma that no tag follows is left unread. */
  function ParseTags(s: string): Parsed<seq<string>>
  {
    match Many(s, IsToken)
    case Failed => Failed
    case Read(tag, rest) =>
      var (tags, end) := MoreTags(rest);
      Read([tag] + tags, end)
  }

  function MoreTags(s: string): (seq<string>, string)
    decreases |s|
  {
    match Literal(s, ",")
    case Failed => ([], s)
    case Read(_, s1) =>
      match Many(s1, IsToken)
      case Failed => ([], s)
      case Read(tag, rest) =>
        var (tags, end) := MoreTags(rest);
        ([tag] + tags, end)
  }

  /** The tags read by `phrase_parse`, and where reading stopped. */
  function RequiredTags(text: string): (seq<string>, string)
  {
    var start := text[Span(text, IsSpace)..];
    match ParseTags(start)
    case Failed => ([], start)
    case Read(tags, rest) => (tags, rest[Span(rest, IsSpace)..])
  }

  function Unsupported(tags: seq<string>): seq<string>
  {
    if tags == [] then []
    else (if tags[0] == T.OPTION_NAME then [] else [tags[0]]) + Unsupported(tags[1..])
  }

  datatype OptionCheck = Passed | Refused(status: nat, reason: string, extra: seq<Header>)

  /** The option header, once it is required. */
  function CheckParameters(headers: Normalised, world: World): OptionCheck
  {
    if T.OPTION_NAME !in headers then Refused(400, T.OPTION_NAME + " header missing", [])
    else
      var text := headers[T.OPTION_NAME];
      if world.optionRead < |text| then
        Refused(400, "Bad Request: Could not read " + T.OPTION_NAME + " header after " + text[world.optionRead..], [])
      else Passed
  }

  function CheckOptions(headers: Normalised, world: World): OptionCheck
  {
    if "require" !in headers then Passed
    else
      var (tags, rest) := RequiredTags(headers["require"]);
      if rest != "" then Refused(400, "Bad Request: Could not read transport header after" + rest, [])
      else
        var unsupported := Unsupported(tags);
        if unsupported != [] then
          Refused(551, "Option not supported", seq(|unsupported|, i requires 0 <= i < |unsupported| =>
            Header("Unsupported", unsupported[i])))
        else CheckParameters(headers, world)
  }

  const UNSUPPORTED: string :=
    "Unsupported Transport: The Transport field did not contain a supported transport specification."

  /** `setup` on the session just inserted. */
  function Setup(session: Session, id: string, uri: string, headers: Normalised, world: World): (Session, Reply)
    requires "cseq" in headers
  {
    var response := Skeleton(id, headers["cseq"]);
    var check := CheckOptions(headers, world);
    if check.Refused? then
      (session, Answer(Refusal(response, check.status, check.reason).(headers := response.headers + check.extra)))
    else
      match RequestedTransports(headers)
      case Unread(rest) =>
        (session, Answer(Refusal(response, 400, "Bad Request: Could not read transport header after" + rest)))
      case Specs(specs) => SetupTransport(session, response, uri, T.Choose(specs, world.randomPort, world.randomSsrc), world)
  }

  /** The rest of `setup`, once a transport is or is not chosen. */
  function SetupTransport(session: Session, response: Response, uri: string, chosen: Option<T.Spec>, world: World)
    : (Session, Reply)
    requires chosen.Some? ==> T.FourParameters(chosen.value)
  {
    if chosen.None? then (session, Answer(Refusal(response, 461, UNSUPPORTED)))
    else if session.state != Init then (session, Answer(Refusal(response, 455, "Method Not Valid In This State")))
    else if !world.resourceFound then
      (session, Answer(Refusal(response, 404, "Ressource \"" + uri + "\" Not Found")))
    else
      var sender := SenderFor(chosen.value, session.lastSeen);
      if sender.None? || !world.portFree then (session, Threw)
      else
        (session.(state := Ready, sender := sender),
         Answer(response.(headers := response.headers + [Header("Transport", T.PrintSpec(chosen.value))])))
  }

  function Play(session: Session, id: string, cseq: string): (Session, Response)
  {
    match session.state
    case Playing => (session, Skeleton(id, cseq))
    case Init => (session, Refusal(Skeleton(id, cseq), 455, "Method Not Valid in This State"))
    case Ready => (session.(state := Playing), Skeleton(id, cseq))
  }

  function Pause(session: Session, id: string, cseq: string): (Session, Response)
  {
    if session.state != Playing then (session, Refusal(Skeleton(id, cseq), 455, "Method Not Valid in This State"))
    else (session.(state := Ready), Skeleton(id, cseq))
  }

  predicate KnownMethod(name: string)
  {
    name == "OPTIONS" || name == "SETUP" || name == "TEARDOWN" || name == "PLAY" || name == "PAUSE"
  }

  /** A response that only echoes the sequence number. */
  function Bare(status: nat, reason: string, headers: Normalised): Response
    requires "cseq" in headers
  {
    Response(1, 0, status, reason, [Header("CSeq", headers["cseq"])])
  }

  /** A request that names a stored session. */
  function OnSession(s: Server, name: string, headers: Normalised, requester: Host): (Server, Reply)
    requires "cseq" in headers && "session" in headers && headers["session"] in s.sessions
  {
    var id := headers["session"];
    var session := s.sessions[id].(lastSeen := requester);
    if name == "TEARDOWN" then
      (s.(sessions := s.sessions - {id}), Answer(Skeleton(id, headers["cseq"])))
    else
      var (after, response) := if name == "PLAY" then Play(session, id, headers["cseq"])
                               else if name == "PAUSE" then Pause(session, id, headers["cseq"])
                               else (session, Skeleton(id, headers["cseq"]));
      (s.(sessions := s.sessions[id := after]), Answer(response))
  }

  function OnSetup(s: Server, uri: string, headers: Normalised, requester: Host, world: World): (Server, Reply)
    requires "cseq" in headers
  {
    var id := world.freshId;
    var inserted := if id in s.sessions then s.sessions[id] else Session(Init, None, requester);
    var (session, reply) := Setup(inserted.(lastSeen := requester), id, uri, headers, world);
    (Server(s.sessions[id := session], s.byHost + [Entry(requester, id)]), reply)
  }

  /** `handle_incoming_request`. */
  function Handle(s: Server, request: Request, requester: Host, world: World): (Server, Reply)
  {
    var headers, name := Normalize(request.headers), request.method_;
    if "cseq" !in headers || headers["cseq"] == "" then
      (s, Answer(Response(1, 0, 400, "Bad Request: CSeq missing", [])))
    else if name == "OPTIONS" then
      (s, Answer(Response(1, 0, 200, "OK", [Header("CSeq", headers["cseq"]), Header("Public", "SETUP, TEARDOWN, PLAY, PAUSE")])))
    else if name == "DESCRIBE" then (s, Answer(Bare(501, "\"DESCRIBE\" not implemented", headers)))
    else if name == "SETUP" && "session" in headers then
      (s, Answer(Bare(459, "Aggregate Operation Not Allowed", headers)))
    else if name == "SETUP" then OnSetup(s, request.uri, headers, requester, world)
    else if "session" !in headers then (s, Answer(Bare(400, "Session header not found", headers)))
    else if KnownMethod(name) then
      if headers["session"] !in s.sessions then (s, Answer(Bare(454, "Session not found", headers)))
      else OnSession(s, name, headers, requester)
    else (s, Answer(Bare(501, "\"" + name + "\" not implemented", headers)))
  }

  /** `tcp_connection::header_read`: the answer to one request's text; nothing is sent after an exception. */
  function Respond(s: Server, text: string, requester: Host, world: World): (Server, Option<string>)
  {
    match ParseRequest(text[Span(text, IsSpace)..])
    case Failed => (s, Some(PrintResponse(UNREADABLE)))
    case Read(request, _) =>
      match Handle(s, request, requester, world)
      case (after, Threw) => (after, None)
      case (after, Answer(response)) => (after, Some(PrintResponse(response)))
  }

  const UNREADABLE: Response := Response(1, 0, 400, "Bad Request", [])

  // ---- the object ----

  /** The entries of other hosts. */
  function WithoutHost(entries: seq<Entry>, host: Host): seq<Entry>
  {
    if entries == [] then []
    else (if entries[0].host == host then [] else [entries[0]]) + WithoutHost(entries[1..], host)
  }

  function IdsOf(entries: seq<Entry>, host: Host): set<string>
  {
    set e | e in entries && e.host == host :: e.id
  }

  class RtspServerState {
    var sessions: map<string, Session>
    var sessionsByHost: seq<Entry>

    function State(): Server
      reads this
    {
      Server(sessions, sessionsByHost)
    }

    constructor ()
      ensures State() == Server(map[], [])
    {
      sessions := map[];
      sessionsByHost := [];
    }

    method HandleSetup(uri: string, headers: Normalised, requester: Host, world: World) returns (r: Reply)
      requires "cseq" in headers
      modifies this
      ensures (State(), r) == OnSetup(old(State()), uri, headers, requester, world)
    {
      hide Setup;
      var id := world.freshId;
      if id !in sessions {
        sessions := sessions[id := Session(Init, None, requester)];
      }
      var session := sessions[id].(lastSeen := requester);
      sessions := sessions[id := session];
      sessionsByHost := sessionsByHost + [Entry(requester, id)];
      session, r := Setup(session, id, uri, headers, world).0, Setup(session, id, uri, headers, world).1;
      sessions := sessions[id := session];
      assert sessions == old(sessions)[id := session];
    }

    method HandleOnSession(name: string, headers: Normalised, requester: Host) returns (r: Reply)
      requires "cseq" in headers && "session" in headers && headers["session"] in sessions
      modifies this`sessions
      ensures (State(), r) == OnSession(old(State()), name, headers, requester)
    {
      hide Skeleton, Refusal;
      var id, cseq := headers["session"], headers["cseq"];
      var session := sessions[id].(lastSeen := requester);
      sessions := sessions[id := session];
      var response := Skeleton(id, cseq);
      if name == "TEARDOWN" {
        sessions := sessions - {id};
        assert sessions == old(sessions) - {id};
        return Answer(response);
      }
      if name == "PLAY" {
        if session.state == Init {
          response := Refusal(response, 455, "Method Not Valid in This State");
        } else if session.state == Ready {
          session := session.(state := Playing);
        }
      } else if name == "PAUSE" {
        if session.state != Playing {
          response := Refusal(response, 455, "Method Not Valid in This State");
        } else {
          session := session.(state := Ready);
        }
      }
      sessions := sessions[id := session];
      assert sessions == old(sessions)[id := session];
      return Answer(response);
    }

    /** `handle_incoming_request`. */
    method HandleIncomingRequest(request: Request, requester: Host, world: World) returns (r: Reply)
      modifies this
      ensures (State(), r) == Handle(old(State()), request, requester, world)
    {
      hide OnSetup, OnSession, Normalize;
      var headers := NormalizeHeaders(request.headers);
      var name := request.method_;
      if "cseq" !in headers || headers["cseq"] == "" {
        return Answer(Response(1, 0, 400, "Bad Request: CSeq missing", []));
      }
      if name == "OPTIONS" {
        return Answer(Response(1, 0, 200, "OK",
                               [Header("CSeq", headers["cseq"]), Header("Public", "SETUP, TEARDOWN, PLAY, PAUSE")]));
      }
      if name == "DESCRIBE" {
        return Answer(Bare(501, "\"DESCRIBE\" not implemented", headers));
      }
      if name == "SETUP" && "session" in headers {
        return Answer(Bare(459, "Aggregate Operation Not Allowed", headers));
      }
      if name == "SETUP" {
        r := HandleSetup(request.uri, headers, requester, world);
        return;
      }
      if "session" !in headers {
        return Answer(Bare(400, "Session header not found", headers));
      }
      if !KnownMethod(name) {
        return Answer(Bare(501, "\"" + name + "\" not implemented", headers));
      }
      if headers["session"] !in sessions {
        return Answer(Bare(454, "Session not found", headers));
      }
      r := HandleOnSession(name, headers, requester);
    }

    /** `handle_timeout_of_host`: removes exactly the sessions set up from that host, and all its entries. */
    method HandleTimeoutOfHost(host: Host)
      modifies this
      ensures sessions == old(sessions) - IdsOf(old(sessionsByHost), host)
      ensures sessionsByHost == WithoutHost(old(sessionsByHost), host)
    {
      var i := FindHost(sessionsByHost, host);
      ghost var removed: set<string> := {};
      assert sessions == old(sessions) - removed;
      while i < |sessionsByHost|
        invariant 0 <= i <= |sessionsByHost|
        invariant i < |sessionsByHost| ==> sessionsByHost[i].host == host
        invariant i == |sessionsByHost| ==> forall e :: e in sessionsByHost ==> e.host != host
        invariant WithoutHost(sessionsByHost, host) == WithoutHost(old(sessionsByHost), host)
        invariant IdsOf(old(sessionsByHost), host) == IdsOf(sessionsByHost, host) + removed
        invariant sessions == old(sessions) - removed
        decreases |sessionsByHost|
      {
        var id := sessionsByHost[i].id;
        if id in sessions {
          sessions := sessions - {id};
        }
        ErasedEntry(sessionsByHost, i, host);
        removed := removed + {id};
        assert sessions == old(sessions) - removed;
        sessionsByHost := sessionsByHost[..i] + sessionsByHost[i + 1..];
        i := FindHost(sessionsByHost, host);
      }
      NothingOfHost(sessionsByHost, host);
    }
  }

  /** The first entry of `host`, or the end. */
  function FindHost(entries: seq<Entry>, host: Host): (i: nat)
    ensures i <= |entries|
    ensures i < |entries| ==> entries[i].host == host
    ensures i == |entries| ==> forall e :: e in entries ==> e.host != host
  {
    if entries == [] then 0
    else if entries[0].host == host then 0
    else 1 + FindHost(entries[1..], host)
  }

  lemma {:induction false} WithoutHostAppend(a: seq<Entry>, b: seq<Entry>, host: Host)
    ensures WithoutHost(a + b, host) == WithoutHost(a, host) + WithoutHost(b, host)
  {
    if a == [] {
      assert a + b == b;
    } else {
      assert (a + b)[1..] == a[1..] + b;
      WithoutHostAppend(a[1..], b, host);
    }
  }

  lemma {:induction false} ErasedEntry(entries: seq<Entry>, i: nat, host: Host)
    requires i < |entries| && entries[i].host == host
    ensures WithoutHost(entries[..i] + entries[i + 1..], host) == WithoutHost(entries, host)
    ensures IdsOf(entries, host) == IdsOf(entries[..i] + entries[i + 1..], host) + {entries[i].id}
  {
    var a, b := entries[..i], entries[i + 1..];
    assert entries == a + ([entries[i]] + b);
    assert ([entries[i]] + b)[1..] == b;
    WithoutHostAppend(a, [entries[i]] + b, host);
    WithoutHostAppend(a, b, host);
    assert forall e :: e in entries <==> e in a + b || e == entries[i];
  }

  lemma {:induction false} NothingOfHost(entries: seq<Entry>, host: Host)
    requires forall e :: e in entries ==> e.host != host
    ensures WithoutHost(entries, host) == entries && IdsOf(entries, host) == {}
  {
    if entries != [] {
      NothingOfHost(entries[1..], host);
      assert entries == [entries[0]] + entries[1..];
    }
  }

  // ---- the invariant over all requests and timeouts ----

  predicate Registered(entries: seq<Entry>, id: string)
  {
    exists i :: 0 <= i < |entries| && entries[i].id == id
  }

  /** No identifier is registered twice. */
  predicate DistinctIds(entries: seq<Entry>)
  {
    forall i, j :: 0 <= i < j < |entries| ==> entries[i].id != entries[j].id
  }

  /** A session is in `Init` exactly when it has no sender, and is registered under exactly one host. */
  predicate Inv(s: Server)
  {
    && DistinctIds(s.byHost)
    && (forall id :: id in s.sessions ==> (s.sessions[id].state == Init <==> s.sessions[id].sender.None?))
    && (forall id :: id in s.sessions ==> Registered(s.byHost, id))
  }

  lemma {:induction false} SetupKeeps(session: Session, id: string, uri: string, headers: Normalised, world: World)
    requires "cseq" in headers && (session.state == Init <==> session.sender.None?)
    ensures var after := Setup(session, id, uri, headers, world).0; after.state == Init <==> after.sender.None?
  {
  }

  /** Every request keeps the invariant, whatever it asks for and whatever the outside does. */
  lemma {:induction false} HandleKeepsInv(s: Server, request: Request, requester: Host, world: World)
    requires Inv(s) && !Registered(s.byHost, world.freshId)
    ensures Inv(Handle(s, request, requester, world).0)
  {
    hide Normalize, Setup;
    var headers, name := Normalize(request.headers), request.method_;
    if "cseq" in headers && headers["cseq"] != "" && name != "OPTIONS" && name != "DESCRIBE" {
      if name == "SETUP" && "session" !in headers {
        SetupInv(s, request.uri, headers, requester, world);
      } else if name != "SETUP" && "session" in headers && KnownMethod(name) && headers["session"] in s.sessions {
        SessionInv(s, name, headers, requester);
      }
    }
  }

  lemma {:induction false} SetupInv(s: Server, uri: string, headers: Normalised, requester: Host, world: World)
    requires Inv(s) && !Registered(s.byHost, world.freshId) && "cseq" in headers
    ensures Inv(OnSetup(s, uri, headers, requester, world).0)
  {
    hide Setup;
    var id := world.freshId;
    assert id !in s.sessions;
    SetupKeeps(Session(Init, None, requester), id, uri, headers, world);
    var after := OnSetup(s, uri, headers, requester, world).0;
    forall other | other in after.sessions ensures Registered(after.byHost, other) {
      if other == id {
        assert after.byHost[|s.byHost|].id == id;
      } else {
        var i :| 0 <= i < |s.byHost| && s.byHost[i].id == other;
        assert after.byHost[i].id == other;
      }
    }
  }

  lemma {:induction false} SessionInv(s: Server, name: string, headers: Normalised, requester: Host)
    requires Inv(s) && "cseq" in headers && "session" in headers && headers["session"] in s.sessions
    ensures Inv(OnSession(s, name, headers, requester).0)
  {
  }

  /** The server after a host's timeout, as `HandleTimeoutOfHost` leaves it. */
  function TimedOut(s: Server, host: Host): Server
  {
    Server(s.sessions - IdsOf(s.byHost, host), WithoutHost(s.byHost, host))
  }

  lemma {:induction false} WithoutHostMembers(entries: seq<Entry>, host: Host)
    ensures forall e :: e in WithoutHost(entries, host) <==> e in entries && e.host != host
  {
    if entries != [] {
      WithoutHostMembers(entries[1..], host);
      assert entries == [entries[0]] + entries[1..];
    }
  }

  lemma {:induction false} TailDistinct(entries: seq<Entry>)
    requires entries != [] && DistinctIds(entries)
    ensures DistinctIds(entries[1..])
    ensures forall e :: e in entries[1..] ==> e.id != entries[0].id
  {
    forall e | e in entries[1..] ensures e.id != entries[0].id {
      var k :| 0 <= k < |entries[1..]| && entries[1..][k] == e;
      assert entries[k + 1] == e;
    }
  }

  lemma {:induction false} WithoutHostDistinct(entries: seq<Entry>, host: Host)
    requires DistinctIds(entries)
    ensures DistinctIds(WithoutHost(entries, host))
  {
    if entries != [] {
      TailDistinct(entries);
      WithoutHostDistinct(entries[1..], host);
      WithoutHostMembers(entries[1..], host);
      var rest := WithoutHost(entries[1..], host);
      ConsDistinct(entries[0], rest);
    }
  }

  lemma {:induction false} ConsDistinct(e: Entry, rest: seq<Entry>)
    requires DistinctIds(rest) && forall x :: x in rest ==> x.id != e.id
    ensures DistinctIds([e] + rest) && [] + rest == rest
  {
  }

  /** A timeout keeps the invariant and touches no session set up from another host. */
  lemma {:induction false} TimeoutKeepsInv(s: Server, host: Host)
    requires Inv(s)
    ensures Inv(TimedOut(s, host))
    ensures forall i :: 0 <= i < |s.byHost| && s.byHost[i].id in s.sessions ==>
      (s.byHost[i].id in TimedOut(s, host).sessions <==> s.byHost[i].host != host)
    ensures forall id :: id in TimedOut(s, host).sessions ==> TimedOut(s, host).sessions[id] == s.sessions[id]
  {
    WithoutHostMembers(s.byHost, host);
    WithoutHostDistinct(s.byHost, host);
    var after := TimedOut(s, host);
    forall i | 0 <= i < |s.byHost| ensures s.byHost[i].id in IdsOf(s.byHost, host) <==> s.byHost[i].host == host {
      assert s.byHost[i] in s.byHost;
      if s.byHost[i].id in IdsOf(s.byHost, host) {
        var e :| e in s.byHost && e.host == host && e.id == s.byHost[i].id;
        var j :| 0 <= j < |s.byHost| && s.byHost[j] == e;
      }
    }
    forall id | id in after.sessions ensures Registered(after.byHost, id) {
      var i :| 0 <= i < |s.byHost| && s.byHost[i].id == id;
      assert s.byHost[i] in after.byHost;
      var k :| 0 <= k < |after.byHost| && after.byHost[k] == s.byHost[i];
    }
  }

  // ---- whole runs ----

  /** Whether a request names `id` in its session header. */
  predicate Names(request: Request, id: string)
  {
    var headers := Normalize(request.headers);
    "session" in headers && headers["session"] == id
  }

  /** A request changes no session but the one it names and the one it creates. */
  lemma {:induction false} OthersUntouched(s: Server, request: Request, requester: Host, world: World, id: string)
    requires id != world.freshId && !Names(request, id)
    ensures var after := Handle(s, request, requester, world).0.sessions;
      (id in after <==> id in s.sessions) && (id in after ==> after[id] == s.sessions[id])
  {
    hide Normalize, Setup, Play, Pause, Skeleton;
  }

  /** No request changes the RTP sender of a stored session. */
  lemma {:induction false} SenderIsFixed(s: Server, request: Request, requester: Host, world: World, id: string)
    requires id in s.sessions && id != world.freshId
    ensures var after := Handle(s, request, requester, world).0.sessions;
      id in after ==> after[id].sender == s.sessions[id].sender
  {
    hide Normalize, Setup, Skeleton;
    if !Names(request, id) {
      OthersUntouched(s, request, requester, world, id);
    }
  }

  lemma {:induction false} NothingFromNothing(s: Server, request: Request, requester: Host, world: World, id: string)
    requires id !in s.sessions && id != world.freshId
    ensures id !in Handle(s, request, requester, world).0.sessions
  {
    hide Normalize, Setup, Play, Pause, Skeleton;
  }

  lemma {:induction false} HostsAfter(s: Server, request: Request, requester: Host, world: World)
    ensures var after := Handle(s, request, requester, world).0.byHost;
      after == s.byHost || after == s.byHost + [Entry(requester, world.freshId)]
  {
    hide Normalize, Setup, Play, Pause, Skeleton;
  }

  datatype Event = Incoming(request: Request, requester: Host, world: World) | HostTimeout(host: Host)

  function After(s: Server, e: Event): Server
  {
    match e
    case Incoming(request, requester, world) => Handle(s, request, requester, world).0
    case HostTimeout(host) => TimedOut(s, host)
  }

  function Run(s: Server, events: seq<Event>): Server
    decreases |events|
  {
    if events == [] then s else Run(After(s, events[0]), events[1..])
  }

  /** No identifier is generated while it is still registered. */
  predicate FreshIds(s: Server, events: seq<Event>)
    decreases |events|
  {
    if events == [] then true
    else IsFresh(s, events[0]) && FreshIds(After(s, events[0]), events[1..])
  }

  predicate IsFresh(s: Server, e: Event)
  {
    e.Incoming? ==> !Registered(s.byHost, e.world.freshId)
  }

  lemma {:induction false} StepKeepsInv(s: Server, e: Event)
    requires Inv(s) && IsFresh(s, e)
    ensures Inv(After(s, e))
  {
    hide Inv, Handle, TimedOut;
    match e
    case Incoming(request, requester, world) => HandleKeepsInv(s, request, requester, world);
    case HostTimeout(host) => TimeoutKeepsInv(s, host);
  }

  /** From an empty server, after any requests from any hosts and any timeouts. */
  lemma {:induction false} RunKeepsInv(s: Server, events: seq<Event>)
    requires Inv(s) && FreshIds(s, events)
    ensures Inv(Run(s, events))
    decreases |events|
  {
    hide Inv, After, IsFresh;
    if events != [] {
      StepKeepsInv(s, events[0]);
      RunKeepsInv(After(s, events[0]), events[1..]);
    }
  }

  lemma {:induction false} UnsetStep(s: Server, e: Event, id: string)
    requires Inv(s) && IsFresh(s, e) && (e.Incoming? ==> e.world.freshId != id)
    requires id in s.sessions ==> s.sessions[id].sender.None?
    ensures id in After(s, e).sessions ==> After(s, e).sessions[id].sender.None?
  {
    hide Inv, Handle, Registered;
    match e
    case Incoming(request, requester, world) =>
      if id in s.sessions {
        SenderIsFixed(s, request, requester, world, id);
      } else {
        NothingFromNothing(s, request, requester, world, id);
      }
    case HostTimeout(host) =>
      TimeoutKeepsInv(s, host);
  }

  /** A session whose SETUP was refused stays in `Init`, whatever is sent to it afterwards: it can only be removed. */
  lemma {:induction false} RefusedSetupIsFinal(s: Server, events: seq<Event>, id: string)
    requires Inv(s) && FreshIds(s, events)
    requires forall i :: 0 <= i < |events| && events[i].Incoming? ==> events[i].world.freshId != id
    requires id in s.sessions ==> s.sessions[id].state == Init
    ensures id in Run(s, events).sessions ==> Run(s, events).sessions[id].state == Init
    decreases |events|
  {
    hide After, IsFresh;
    if events != [] {
      var next := After(s, events[0]);
      StepKeepsInv(s, events[0]);
      UnsetStep(s, events[0], id);
      RefusedSetupIsFinal(next, events[1..], id);
    }
  }
}
