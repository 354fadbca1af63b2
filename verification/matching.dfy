/** A served request and its handled answer leave client and server agreeing on the session. */
module Matching {
  import opened Wrappers
  import opened Text
  import opened Messages
  import opened HeaderNormalisation
  import opened RtspSession
  import opened Exchange
  import C = ControlClient
  import S = RtspServer
  import T = Transport

  /** The client's state is the session's, and once set up it listens where and for what the sender sends. */
  predicate SameSession(c: C.Client, session: S.Session)
  {
    && c.state == session.state
    && (c.state != Init ==>
          && session.sender.Some?
          && c.receiver == Some(C.Receiver(session.sender.value.clientPort, session.sender.value.ssrc)))
  }

  /** An identifier the server does not know stands for a session that is not set up. */
  predicate Matches(c: C.Client, s: S.Server)
  {
    if c.id in s.sessions then SameSession(c, s.sessions[c.id]) else c.state == Init
  }

  // ---- the client's reading of an answer ----

  function Received(c: C.Client, r: Response, portFree: bool): C.Client
  {
    C.Receive(c, r.status, r.headers, portFree)
  }

  lemma {:induction false} PrintedCseq(cseq: nat)
    requires cseq < C.CSEQ_LIMIT
    ensures C.ReadCseq(Print(cseq, 10)) == cseq
  {
    UnboundedExact(cseq, "");
    assert Print(cseq, 10) + "" == Print(cseq, 10);
    hide Unbounded, Print;
  }

  predicate Waiting(c: C.Client, cseq: nat, kind: C.Kind)
  {
    cseq < C.CSEQ_LIMIT && cseq in c.outstanding && c.outstanding[cseq] == kind
  }

  function Handled(c: C.Client, cseq: nat, kind: C.Kind): C.Client
  {
    c.(state := C.StateAfter(c.state, kind), outstanding := c.outstanding - {cseq})
  }

  /** Any answer but one to SETUP is handled whatever it says, or stops the client for want of a number. */
  lemma {:induction false} PlainAnswer(c: C.Client, cseq: nat, kind: C.Kind, r: Response, portFree: bool)
    requires Waiting(c, cseq, kind) && kind != C.Setup && AnswerOk(cseq, r)
    ensures Received(c, r, portFree)
         == if "cseq" in Normalize(r.headers) then Handled(c, cseq, kind) else c.(reading := false)
  {
    PrintedCseq(cseq);
    hide Normalize, Print, PrintableResponse, C.ReadCseq;
  }

  lemma {:induction false} SetupAnswer(c: C.Client, cseq: nat, r: Response, portFree: bool)
    requires Waiting(c, cseq, C.Setup) && AnswerOk(cseq, r) && "cseq" in Normalize(r.headers)
    ensures var (after, ok) := C.Adopt(c, r.status, Normalize(r.headers), portFree);
      Received(c, r, portFree) == if ok then after.(outstanding := c.outstanding - {cseq}) else after.(reading := false)
  {
    PrintedCseq(cseq);
    hide Normalize, Print, PrintableResponse, C.ReadCseq, C.Adopt;
  }

  /** With the local port taken the client at most stops earlier; a client that goes on would have anyway. */
  lemma {:induction false} PortMatters(c: C.Client, cseq: nat, kind: C.Kind, r: Response, portFree: bool)
    requires Waiting(c, cseq, kind) && AnswerOk(cseq, r) && c.reading
    ensures var after := Received(c, r, portFree);
      if after.reading then after == Received(c, r, true) && after.outstanding == c.outstanding - {cseq}
      else cseq in after.outstanding
    ensures Received(c, r, portFree).nextCseq == c.nextCseq
    ensures kind != C.Setup ==> Received(c, r, portFree).id == c.id
  {
    PrintedCseq(cseq);
    hide Normalize, Print, PrintableResponse, C.ReadCseq, T.ReadTransport;
  }

  // ---- requests other than SETUP ----

  lemma {:induction false} MatchesAlike(c: C.Client, d: C.Client, s: S.Server)
    requires c.id == d.id && c.state == d.state && c.receiver == d.receiver && Matches(c, s)
    ensures Matches(d, s)
  {
  }

  lemma {:induction false} MatchesElsewhere(c: C.Client, s: S.Server, after: S.Server)
    requires Matches(c, s)
    requires c.id in after.sessions <==> c.id in s.sessions
    requires c.id in s.sessions ==> after.sessions[c.id] == s.sessions[c.id]
    ensures Matches(c, after)
  {
  }

  /** The states PLAY and PAUSE answers lead to, when they were asked in a session that is set up. */
  predicate AskedInTime(state: State, kind: C.Kind)
  {
    (kind == C.Play || kind == C.Pause) ==> state != Init
  }

  /** The served session and the answered client end in the same state, though the client never looks at the status. */
  lemma {:induction false} StatesMeet(state: State, kind: C.Kind)
    requires (kind == C.Play || kind == C.Pause) && state != Init
    ensures StateServed(kind, state) == C.StateAfter(state, kind) != Init
  {
  }

  lemma {:induction false} SessionMeets(c: C.Client, s: S.Server, after: S.Server, kind: C.Kind, cseq: nat,
                                        host: S.Host)
    requires Matches(c, s) && c.id in s.sessions && NeedsSession(kind) && AskedInTime(c.state, kind)
    requires after.sessions == if kind == C.Teardown then s.sessions - {c.id}
      else s.sessions[c.id := s.sessions[c.id].(state := StateServed(kind, s.sessions[c.id].state), lastSeen := host)]
    ensures Matches(Handled(c, cseq, kind), after)
  {
    if kind != C.Teardown {
      StatesMeet(c.state, kind);
    }
    hide StateServed, C.StateAfter;
    if kind == C.Teardown {
      assert C.StateAfter(c.state, kind) == Init by {
        TeardownEnds(c.state);
      }
    }
  }

  lemma {:induction false} TeardownEnds(state: State)
    ensures C.StateAfter(state, C.Teardown) == Init
  {
  }

  predicate Asked(c: C.Client, q: Question, url: string)
  {
    && Waiting(c, q.cseq, q.kind) && (NeedsSession(q.kind) ==> c.id == q.id) && AskedInTime(c.state, q.kind)
    && Askable(q) && IsUrl(url)
  }

  /** Serving a request and handling its answer keep the agreement, or stop the client. */
  lemma {:induction false} AnswerMatches(c: C.Client, s: S.Server, q: Question, url: string, host: S.Host,
                                         world: S.World)
    requires Matches(c, s) && Asked(c, q, url) && q.kind != C.Setup && c.reading
    ensures var (after, r) := Served(s, q, url, host, world);
      && r.Some? && AnswerOk(q.cseq, r.value)
      && (Received(c, r.value, true).reading ==> Received(c, r.value, true) == Handled(c, q.cseq, q.kind))
      && (Received(c, r.value, true).reading ==> Matches(Handled(c, q.cseq, q.kind), after))
  {
    hide Normalize, AnswerOk, Received, IsUrl, IsIdentifier, PrintableWish, Handled, S.Handle;
    var (after, r) := Served(s, q, url, host, world);
    if Blank(q) {
      UnreadableAnswer(q.cseq);
      PlainAnswer(c, q.cseq, q.kind, r.value, true);
    } else if !NeedsSession(q.kind) {
      OtherServed(s, q, url, host, world);
      PlainAnswer(c, q.cseq, q.kind, r.value, true);
      QuietKinds(c, q.cseq, q.kind);
      MatchesAlike(c, Handled(c, q.cseq, q.kind), s);
    } else if q.id !in s.sessions {
      AbsentServed(s, q, url, host, world);
      PlainAnswer(c, q.cseq, q.kind, r.value, true);
      assert q.kind == C.Teardown;
      AbsentTeardown(c, q.cseq, s);
    } else {
      SessionServed(s, q, url, host, world);
      PlainAnswer(c, q.cseq, q.kind, r.value, true);
      SessionMeets(c, s, after, q.kind, q.cseq, host);
    }
  }

  lemma {:induction false} QuietKinds(c: C.Client, cseq: nat, kind: C.Kind)
    requires kind == C.Options || kind == C.Describe
    ensures Handled(c, cseq, kind) == c.(outstanding := c.outstanding - {cseq})
  {
  }

  lemma {:induction false} AbsentTeardown(c: C.Client, cseq: nat, s: S.Server)
    requires c.id !in s.sessions
    ensures Matches(Handled(c, cseq, C.Teardown), s)
  {
  }

  // ---- SETUP ----

  /** The outside meets a SETUP that can go through. */
  predicate Favourable(q: Question, world: S.World)
  {
    && OptionsRead(q, world)
    && world.resourceFound && world.portFree && world.randomSsrc >= T.EIGHT_DIGITS
  }

  function SetUp(c: C.Client, cseq: nat, id: string, receiver: C.Receiver): C.Client
  {
    c.(state := Ready, id := id, receiver := Some(receiver), outstanding := c.outstanding - {cseq})
  }

  /** A success whose transport header is read, or in which no SSRC is found. */
  lemma {:induction false} Adoption(c: C.Client, h: Normalised, id: string, reading: T.Reading)
    requires "session" in h && h["session"] == id && "transport" in h && T.ReadTransport(h["transport"]) == reading
    ensures C.Adopt(c, 200, h, true)
         == if reading.Agreed? then (c.(id := id, state := Ready, receiver := Some(C.Receiver(reading.port, reading.ssrc))), true)
            else (c.(id := id), false)
  {
    hide T.ReadTransport;
  }

  lemma {:induction false} AcceptedIsAdopted(c: C.Client, cseq: nat, id: string, port: T.PortNumber, ssrc: T.SsrcNumber)
    requires Waiting(c, cseq, C.Setup) && c.reading && IsIdentifier(id)
    ensures Received(c, Accepted(id, Print(cseq, 10), port, ssrc), true)
         == if ssrc >= T.EIGHT_DIGITS then SetUp(c, cseq, id, C.Receiver(port, ssrc))
            else c.(id := id, reading := false)
  {
    var r := Accepted(id, Print(cseq, 10), port, ssrc);
    var h := Normalize(r.headers);
    AcceptedAnswer(id, cseq, port, ssrc);
    assert r.status == 200;
    hide Normalize, Print, AnswerOk, IsIdentifier, Accepted, T.PrintSpec, T.ReadTransport, Received, T.ChosenSpec,
         C.Adopt, Waiting;
    T.NegotiationAgreesIff(port, ssrc, ServerPortFor(port));
    Adoption(c, h, id, T.ReadTransport(h["transport"]));
    SetupAnswer(c, cseq, r, true);
  }

  lemma {:induction false} RefusedStops(c: C.Client, cseq: nat, r: Response)
    requires Waiting(c, cseq, C.Setup) && c.reading && AnswerOk(cseq, r) && r.status >= 300
    ensures Received(c, r, true) == c.(reading := false)
  {
    PrintedCseq(cseq);
    hide Normalize, Print, PrintableResponse, C.ReadCseq, T.ReadTransport;
  }

  lemma {:induction false} SetupDispatch(s: S.Server, q: Question, url: string, host: S.Host, world: S.World)
    requires q.kind == C.Setup && world.freshId !in s.sessions
    ensures var h := Normalize(RequestOf(q, url).headers);
      && "cseq" in h && h["cseq"] == Print(q.cseq, 10)
      && "transport" in h && h["transport"] == T.PrintSpec(T.ClientSpec(q.wish.port))
      && var (session, reply) := S.Setup(S.Session(Init, None, host), world.freshId, url, h, world);
        Served(s, q, url, host, world)
         == (S.Server(s.sessions[world.freshId := session], s.byHost + [S.Entry(host, world.freshId)]),
             if reply.Threw? then None else Some(reply.response))
  {
    RequestView(q.id, q.cseq, q.kind, url, q.wish);
    DigitsAreText(q.cseq, 10);
    hide Normalize, Print, S.Handle, S.Setup, T.PrintSpec, T.ClientSpec, IsText, IsSpace, All;
    SetupBranch(s, RequestOf(q, url), host, world);
  }

  /** What a served SETUP leaves: a new session, and a client that is set up with it or has stopped. */
  predicate SetupResult(c: C.Client, s: S.Server, after: S.Server, r: Option<Response>, cseq: nat, id: string,
                        host: S.Host,
                        success: bool)
  {
    && id in after.sessions && after.sessions == s.sessions[id := after.sessions[id]]
    && after.byHost == s.byHost + [S.Entry(host, id)]
    && (r.None? ==> !success)
    && (r.Some? ==>
          var d := Received(c, r.value, true);
          && AnswerOk(cseq, r.value)
          && (d.id == c.id || d.id == id)
          && (d.reading <==> success)
          && (d.reading ==> d.state == Ready && d.id == id && Matches(d, after)))
  }

  lemma {:induction false} RefusedResult(c: C.Client, s: S.Server, after: S.Server, r: Response, cseq: nat,
                                         id: string, host: S.Host)
    requires Waiting(c, cseq, C.Setup) && c.reading && AnswerOk(cseq, r) && r.status >= 300
    requires id in after.sessions && after.sessions == s.sessions[id := after.sessions[id]]
    requires after.byHost == s.byHost + [S.Entry(host, id)]
    ensures SetupResult(c, s, after, Some(r), cseq, id, host, false)
  {
    RefusedStops(c, cseq, r);
    hide Received, AnswerOk, Waiting;
  }

  lemma {:induction false} AcceptedResult(c: C.Client, s: S.Server, cseq: nat, id: string, host: S.Host,
                                          port: T.PortNumber, ssrc: T.SsrcNumber)
    requires Waiting(c, cseq, C.Setup) && c.reading && IsIdentifier(id)
    ensures var session := S.Session(Ready, Some(S.RtpSender(host, port, ServerPortFor(port), ssrc)), host);
      var after := S.Server(s.sessions[id := session], s.byHost + [S.Entry(host, id)]);
      SetupResult(c, s, after, Some(Accepted(id, Print(cseq, 10), port, ssrc)), cseq, id, host, ssrc >= T.EIGHT_DIGITS)
  {
    AcceptedIsAdopted(c, cseq, id, port, ssrc);
    AcceptedAnswer(id, cseq, port, ssrc);
    hide Received, AnswerOk, Waiting, Accepted, Normalize, Print, IsIdentifier, ServerPortFor;
  }

  /** A SETUP makes the client go on exactly when everything it needs is there, and then both ends agree. */
  lemma {:induction false} SetupMatches(c: C.Client, s: S.Server, q: Question, url: string, host: S.Host,
                                        world: S.World)
    requires Waiting(c, q.cseq, C.Setup) && c.reading && q.kind == C.Setup && IsUrl(url) && Askable(q)
    requires ReadableWorld(world) && world.freshId !in s.sessions
    ensures var (after, r) := Served(s, q, url, host, world);
      SetupResult(c, s, after, r, q.cseq, world.freshId, host, Favourable(q, world))
  {
    var id, cseq := world.freshId, Print(q.cseq, 10);
    var h := Normalize(RequestOf(q, url).headers);
    var session := S.Session(Init, None, host);
    SetupDispatch(s, q, url, host, world);
    SetupOutcome(q, session, id, url, world);
    var (after, r) := Served(s, q, url, host, world);
    hide Normalize, Print, Served, S.Setup, SetupResult, AnswerOk, Waiting, Accepted, S.Skeleton, T.PrintSpec,
         IsIdentifier,
         IsReasonText, C.RequestFor, T.ClientSpec, OptionReason;
    if !OptionsRead(q, world) {
      OptionReasonIsText(q.wish.options.value, world.optionRead);
      SessionAnswer(q.cseq, id, 400, OptionReason(q.wish.options.value, world.optionRead));
      RefusedResult(c, s, after, r.value, q.cseq, id, host);
    } else if !world.resourceFound {
      ReasonsAreText(url);
      SessionAnswer(q.cseq, id, 404, "Ressource \"" + url + "\" Not Found");
      RefusedResult(c, s, after, r.value, q.cseq, id, host);
    } else if !world.portFree {
      ThrownResult(c, s, after, q.cseq, id, host);
    } else {
      AcceptedResult(c, s, q.cseq, id, host, q.wish.port, world.randomSsrc);
    }
  }

  lemma {:induction false} ThrownResult(c: C.Client, s: S.Server, after: S.Server, cseq: nat, id: string, host: S.Host)
    requires id in after.sessions && after.sessions == s.sessions[id := after.sessions[id]]
    requires after.byHost == s.byHost + [S.Entry(host, id)]
    ensures SetupResult(c, s, after, None, cseq, id, host, false)
  {
  }

  /** Any answer the client is sent comes through and carries its number; only a SETUP can end in an exception. */
  lemma {:induction false} ServedOk(s: S.Server, q: Question, url: string, host: S.Host, world: S.World)
    requires IsUrl(url) && Askable(q) && q.cseq < C.CSEQ_LIMIT && ReadableWorld(world) && world.freshId !in s.sessions
    ensures var r := Served(s, q, url, host, world).1;
      (r.None? ==> q.kind == C.Setup) && (r.Some? ==> AnswerOk(q.cseq, r.value))
  {
    hide AnswerOk, ReadableWorld, IsUrl, IsIdentifier, PrintableWish, S.Handle, Received, Normalize;
    if Blank(q) {
      UnreadableAnswer(q.cseq);
    } else if q.kind == C.Setup {
      SetupMatches(C.NEW.(outstanding := map[q.cseq := C.Setup]), s, q, url, host, world);
    } else if !NeedsSession(q.kind) {
      OtherServed(s, q, url, host, world);
    } else if q.id in s.sessions {
      SessionServed(s, q, url, host, world);
    } else {
      AbsentServed(s, q, url, host, world);
    }
  }
}
