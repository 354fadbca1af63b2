/** Why PLAY may be sent behind neither SETUP nor TEARDOWN, PAUSE not behind TEARDOWN, and TEARDOWN not behind SETUP. */
module Disorder {
  import opened Wrappers
  import opened Text
  import opened Messages
  import opened HeaderNormalisation
  import opened RtspSession
  import opened Exchange
  import opened Matching
  import opened Agreement
  import C = ControlClient
  import S = RtspServer
  import T = Transport

  // ---- steps on values ----

  lemma {:induction false} SendsAs(cfg: Config, y: System, kind: C.Kind, wish: C.Wish)
    requires C.Allowed(y.client.state, kind) && y.client.nextCseq < C.CSEQ_LIMIT
    ensures Take(cfg, y, Send(kind, wish)) == y.(client := Plus(y.client, kind),
      toServer := y.toServer + [PrintRequest(RequestOf(Asking(y.client, kind, wish), cfg.url))])
  {
    hide PrintRequest, C.RequestFor;
  }

  /** The client's next question. */
  function Asking(c: C.Client, kind: C.Kind, wish: C.Wish): Question
  {
    Question(c.id, c.nextCseq, kind, wish)
  }

  lemma {:induction false} ServesAs(cfg: Config, y: System, q: Question, world: S.World, after: S.Server, r: Response)
    requires IsUrl(cfg.url) && Askable(q) && !y.stuck && y.toServer != []
    requires y.toServer[0] == PrintRequest(RequestOf(q, cfg.url))
    requires Served(y.server, q, cfg.url, cfg.host, world) == (after, Some(r))
    ensures Take(cfg, y, Serve(world)) == y.(server := after, toServer := y.toServer[1..],
      toClient := y.toClient + [PrintResponse(r)], granted := y.granted + {world.freshId})
  {
    hide PrintRequest, PrintResponse, Served, RequestOf, S.Respond;
    ServedText(y.server, q, cfg.url, cfg.host, world);
  }

  lemma {:induction false} DeliversAs(cfg: Config, y: System, cseq: nat, r: Response)
    requires y.client.reading && y.toClient != [] && y.toClient[0] == PrintResponse(r) && AnswerOk(cseq, r)
    ensures Take(cfg, y, Deliver(true)) == y.(client := Received(y.client, r, true), toClient := y.toClient[1..])
  {
    hide PrintResponse, AnswerOk, C.ReceiveText, Received;
    TextIsReceived(y.client, cseq, r, true);
  }

  // ---- two requests, the second before the first is answered ----

  function Pipelined(cfg: Config, y: System, first: C.Kind, second: C.Kind, wish: C.Wish, u: S.World,
                     v: S.World): System
  {
    var sent := Take(cfg, Take(cfg, y, Send(first, wish)), Send(second, wish));
    var served := Take(cfg, Take(cfg, sent, Serve(u)), Serve(v));
    Take(cfg, Take(cfg, served, Deliver(true)), Deliver(true))
  }

  /** Nothing on its way and nothing outstanding. */
  predicate Quiet(y: System)
  {
    && y.client.reading && y.client.outstanding == map[] && y.client.nextCseq + 1 < C.CSEQ_LIMIT
    && !y.stuck && y.toServer == [] && y.toClient == []
  }

  lemma {:induction false} BothSent(cfg: Config, y: System, first: C.Kind, second: C.Kind, wish: C.Wish, a: Question,
                                    b: Question)
    requires Quiet(y) && C.Allowed(y.client.state, first) && C.Allowed(y.client.state, second)
    requires a == Asking(y.client, first, wish) && b == Question(y.client.id, y.client.nextCseq + 1, second, wish)
    ensures Take(cfg, Take(cfg, y, Send(first, wish)), Send(second, wish))
         == y.(client := Plus(Plus(y.client, first), second),
               toServer := [PrintRequest(RequestOf(a, cfg.url)), PrintRequest(RequestOf(b, cfg.url))])
  {
    hide PrintRequest, RequestOf, Take, C.Allowed;
    SendsAs(cfg, y, first, wish);
    SendsAs(cfg, Take(cfg, y, Send(first, wish)), second, wish);
  }

  lemma {:induction false} BothServed(cfg: Config, y: System, a: Question, b: Question, u: S.World, v: S.World,
                                      s: S.Server, t: S.Server,
                                      ra: Response, rb: Response)
    requires IsUrl(cfg.url) && Askable(a) && Askable(b) && !y.stuck && y.toClient == []
    requires y.toServer == [PrintRequest(RequestOf(a, cfg.url)), PrintRequest(RequestOf(b, cfg.url))]
    requires Served(y.server, a, cfg.url, cfg.host, u) == (s, Some(ra))
      && Served(s, b, cfg.url, cfg.host, v) == (t, Some(rb))
    ensures var z := Take(cfg, Take(cfg, y, Serve(u)), Serve(v));
      z.client == y.client && z.toClient == [PrintResponse(ra), PrintResponse(rb)] && z.server == t
  {
    hide PrintRequest, PrintResponse, RequestOf, Take, Served, Askable, IsUrl;
    ServesAs(cfg, y, a, u, s, ra);
    ServesAs(cfg, Take(cfg, y, Serve(u)), b, v, t, rb);
  }

  lemma {:induction false} BothDelivered(cfg: Config, y: System, a: nat, b: nat, ra: Response, rb: Response)
    requires y.client.reading && y.toClient == [PrintResponse(ra), PrintResponse(rb)]
    requires AnswerOk(a, ra) && AnswerOk(b, rb) && Received(y.client, ra, true).reading
    ensures var z := Take(cfg, Take(cfg, y, Deliver(true)), Deliver(true));
      z.client == Received(Received(y.client, ra, true), rb, true) && z.server == y.server
  {
    hide PrintResponse, Take, AnswerOk, Received;
    DeliversAs(cfg, y, a, ra);
    DeliversAs(cfg, Take(cfg, y, Deliver(true)), b, rb);
  }

  /** Two pipelined requests on values: served in order, answered in order. */
  lemma {:induction false} PipelinedAs(cfg: Config, y: System, first: C.Kind, second: C.Kind, wish: C.Wish,
                                       u: S.World, v: S.World,
                                       b: Question, s: S.Server, t: S.Server, ra: Response, rb: Response)
    requires IsUrl(cfg.url) && Quiet(y) && C.Allowed(y.client.state, first) && C.Allowed(y.client.state, second)
    requires b == Question(y.client.id, y.client.nextCseq + 1, second, wish)
    requires Askable(Asking(y.client, first, wish)) && Askable(b)
    requires Served(y.server, Asking(y.client, first, wish), cfg.url, cfg.host, u) == (s, Some(ra))
    requires Served(s, b, cfg.url, cfg.host, v) == (t, Some(rb))
    requires AnswerOk(y.client.nextCseq, ra) && AnswerOk(b.cseq, rb)
    requires Received(Plus(Plus(y.client, first), second), ra, true).reading
    ensures var end := Pipelined(cfg, y, first, second, wish, u, v);
      end.client == Received(Received(Plus(Plus(y.client, first), second), ra, true), rb, true) && end.server == t
  {
    hide PrintRequest, PrintResponse, Take, AnswerOk, IsUrl, Askable, C.Allowed, Plus, Received, Served;
    var a := Asking(y.client, first, wish);
    BothSent(cfg, y, first, second, wish, a, b);
    var sent := Take(cfg, Take(cfg, y, Send(first, wish)), Send(second, wish));
    assert sent.client.reading by {
      PlusAlike(y.client, first);
      PlusAlike(Plus(y.client, first), second);
    }
    BothServed(cfg, sent, a, b, u, v, s, t, ra, rb);
    BothDelivered(cfg, Take(cfg, Take(cfg, sent, Serve(u)), Serve(v)), a.cseq, b.cseq, ra, rb);
  }

  lemma {:induction false} BothHandled(c: C.Client, first: C.Kind, second: C.Kind)
    requires c.outstanding == map[] && c.nextCseq + 1 < C.CSEQ_LIMIT
    ensures var sent := Plus(Plus(c, first), second);
      Waiting(sent, c.nextCseq, first) && Waiting(sent.(outstanding := sent.outstanding - {c.nextCseq}),
              c.nextCseq + 1, second)
    ensures Plus(Plus(c, first), second).outstanding - {c.nextCseq} - {c.nextCseq + 1} == map[]
  {
  }

  predicate IsReady(s: S.Server, id: string)
  {
    id in s.sessions && s.sessions[id].state == Ready
  }

  /** All is answered, and the client takes session `id` to be in `state`. */
  predicate Believes(c: C.Client, id: string, state: State)
  {
    c.outstanding == map[] && c.id == id && c.state == state
  }

  // ---- PLAY or PAUSE behind TEARDOWN ----

  /**
   * The client takes every answer to PLAY and PAUSE for consent: behind a TEARDOWN it ends up in a session the server
   * no longer has.
   */
  lemma {:induction false} BehindTeardownDisagrees(cfg: Config, y: System, kind: C.Kind, wish: C.Wish, world: S.World)
    requires kind == C.Play || kind == C.Pause
    requires IsUrl(cfg.url) && PrintableWish(wish) && Quiet(y) && C.Allowed(y.client.state, kind)
    requires IsIdentifier(y.client.id) && y.client.id in y.server.sessions
    ensures var end := Pipelined(cfg, y, C.Teardown, kind, wish, world, world);
      end.client.outstanding == map[] && end.client.state != Init && end.client.id !in end.server.sessions
      && !Matches(end.client, end.server)
  {
    var c := y.client;
    var a, b := Asking(c, C.Teardown, wish), Question(c.id, c.nextCseq + 1, kind, wish);
    assert C.Allowed(c.state, C.Teardown) && Askable(a) && Askable(b);
    hide *;
    var s, ra, rb := TeardownThen(cfg, y.server, c, a, b, world);
    PipelinedAs(cfg, y, C.Teardown, kind, wish, world, world, b, s, s, ra, rb);
    NoSessionLeft(Pipelined(cfg, y, C.Teardown, kind, wish, world, world));
  }

  lemma {:induction false} NoSessionLeft(y: System)
    requires y.client.id !in y.server.sessions && y.client.state != Init
    ensures !Matches(y.client, y.server)
  {
  }

  lemma {:induction false} TeardownThen(cfg: Config, before: S.Server, c: C.Client, a: Question, b: Question,
                                        world: S.World)
    returns (s: S.Server, ra: Response, rb: Response)
    requires IsUrl(cfg.url) && (b.kind == C.Play || b.kind == C.Pause) && a.kind == C.Teardown
    requires c.reading && c.outstanding == map[] && c.nextCseq + 1 < C.CSEQ_LIMIT
    requires a.cseq == c.nextCseq && b.cseq == c.nextCseq + 1 && a.id == b.id == c.id && IsIdentifier(c.id)
      && c.id in before.sessions
    ensures Served(before, a, cfg.url, cfg.host, world) == (s, Some(ra))
      && Served(s, b, cfg.url, cfg.host, world) == (s, Some(rb))
    ensures AnswerOk(a.cseq, ra) && AnswerOk(b.cseq, rb) && c.id !in s.sessions
    ensures var d := Received(Plus(Plus(c, C.Teardown), b.kind), ra, true);
      d.reading && var e := Received(d, rb, true); e.outstanding == map[] && e.state != Init && e.id == c.id
  {
    BothHandled(c, C.Teardown, b.kind);
    assert c.id != "" && C.StateAfter(Init, b.kind) != Init;
    hide Served, AnswerOk, Normalize, IsIdentifier, IsUrl, Received;
    SessionServed(before, a, cfg.url, cfg.host, world);
    s, ra := Served(before, a, cfg.url, cfg.host, world).0, Served(before, a, cfg.url, cfg.host, world).1.value;
    AbsentServed(s, b, cfg.url, cfg.host, world);
    rb := Served(s, b, cfg.url, cfg.host, world).1.value;
    var sent := Plus(Plus(c, C.Teardown), b.kind);
    PlainAnswer(sent, a.cseq, C.Teardown, ra, true);
    PlainAnswer(Handled(sent, a.cseq, C.Teardown), b.cseq, b.kind, rb, true);
  }

  // ---- TEARDOWN behind SETUP ----

  /**
   * Behind a SETUP that goes through, TEARDOWN names the session before it: the client ends up without the session the
   * server has set up for it.
   */
  lemma {:induction false} TeardownBehindSetupDisagrees(cfg: Config, y: System, wish: C.Wish, u: S.World, v: S.World)
    requires IsUrl(cfg.url) && PrintableWish(wish) && Quiet(y) && y.client.state == Init
    requires IsIdentifier(y.client.id) && y.client.id !in y.server.sessions && y.client.id != u.freshId
    requires ReadableWorld(u) && u.freshId !in y.server.sessions && Favourable(Asking(y.client, C.Setup, wish), u)
    ensures var end := Pipelined(cfg, y, C.Setup, C.Teardown, wish, u, v);
      Believes(end.client, u.freshId, Init) && IsReady(end.server, u.freshId) && !Matches(end.client, end.server)
  {
    var c := y.client;
    var a, b := Asking(c, C.Setup, wish), Question(c.id, c.nextCseq + 1, C.Teardown, wish);
    assert C.Allowed(c.state, C.Setup) && C.Allowed(c.state, C.Teardown) && Askable(a) && Askable(b);
    hide *;
    var s, ra, rb := SetupThen(cfg, y.server, c, a, b, u, v);
    PipelinedAs(cfg, y, C.Setup, C.Teardown, wish, u, v, b, s, s, ra, rb);
    SessionForgotten(Pipelined(cfg, y, C.Setup, C.Teardown, wish, u, v), u.freshId);
  }

  lemma {:induction false} SessionForgotten(y: System, id: string)
    requires Believes(y.client, id, Init) && IsReady(y.server, id)
    ensures !Matches(y.client, y.server)
  {
  }

  lemma {:induction false} SetupThen(cfg: Config, before: S.Server, c: C.Client, a: Question, b: Question,
                                     u: S.World, v: S.World)
    returns (s: S.Server, ra: Response, rb: Response)
    requires IsUrl(cfg.url) && Askable(a) && a.kind == C.Setup && b.kind == C.Teardown
    requires c.reading && c.outstanding == map[] && c.nextCseq + 1 < C.CSEQ_LIMIT
    requires a.cseq == c.nextCseq && b.cseq == c.nextCseq + 1 && b.id == c.id && IsIdentifier(c.id)
    requires c.id !in before.sessions && c.id != u.freshId
    requires ReadableWorld(u) && u.freshId !in before.sessions && Favourable(a, u)
    ensures Served(before, a, cfg.url, cfg.host, u) == (s, Some(ra))
      && Served(s, b, cfg.url, cfg.host, v) == (s, Some(rb))
    ensures AnswerOk(a.cseq, ra) && AnswerOk(b.cseq, rb) && IsReady(s, u.freshId)
    ensures var d := Received(Plus(Plus(c, C.Setup), C.Teardown), ra, true);
      d.reading && Believes(Received(d, rb, true), u.freshId, Init)
  {
    assert c.id != "" && C.StateAfter(Init, C.Teardown) == Init;
    hide *;
    var sent := Plus(Plus(c, C.Setup), C.Teardown);
    FirstIsWaiting(c, C.Setup, C.Teardown);
    s, ra := FirstServed(cfg, before, sent, a, u);
    AbsentServed(s, b, cfg.url, cfg.host, v);
    rb := Served(s, b, cfg.url, cfg.host, v).1.value;
    SecondWaits(c, C.Setup, C.Teardown, Received(sent, ra, true));
    LastAnswer(Received(sent, ra, true), b.cseq, C.Teardown, rb, Init);
  }

  lemma {:induction false} FirstIsWaiting(c: C.Client, first: C.Kind, second: C.Kind)
    requires c.nextCseq + 1 < C.CSEQ_LIMIT
    ensures var sent := Plus(Plus(c, first), second);
      Waiting(sent, c.nextCseq, first) && sent.reading == c.reading && sent.state == c.state && sent.id == c.id
  {
  }

  lemma {:induction false} SecondWaits(c: C.Client, first: C.Kind, second: C.Kind, d: C.Client)
    requires c.outstanding == map[] && c.nextCseq + 1 < C.CSEQ_LIMIT
      && d.outstanding == Plus(Plus(c, first), second).outstanding - {c.nextCseq}
    ensures Waiting(d, c.nextCseq + 1, second) && d.outstanding - {c.nextCseq + 1} == map[]
  {
  }

  lemma {:induction false} LastAnswer(d: C.Client, cseq: nat, kind: C.Kind, r: Response, state: State)
    requires Waiting(d, cseq, kind) && d.outstanding - {cseq} == map[] && cseq < C.CSEQ_LIMIT && AnswerOk(cseq, r)
    requires kind != C.Setup && state == C.StateAfter(d.state, kind) && "cseq" in Normalize(r.headers)
    ensures Believes(Received(d, r, true), d.id, state)
  {
    hide Received, AnswerOk;
    PlainAnswer(d, cseq, kind, r, true);
  }

  /** A favourable SETUP on values: a session that is ready, and a client that has taken it over. */
  lemma {:induction false} FirstServed(cfg: Config, before: S.Server, c: C.Client, a: Question, u: S.World)
    returns (s: S.Server, ra: Response)
    requires IsUrl(cfg.url) && Askable(a) && a.kind == C.Setup && c.reading && Waiting(c, a.cseq, C.Setup)
      && a.cseq < C.CSEQ_LIMIT
    requires ReadableWorld(u) && u.freshId !in before.sessions && Favourable(a, u)
    ensures Served(before, a, cfg.url, cfg.host, u) == (s, Some(ra)) && AnswerOk(a.cseq, ra) && IsReady(s, u.freshId)
    ensures var d := Received(c, ra, true); d.reading && d.id == u.freshId && d.outstanding == c.outstanding - {a.cseq}
    ensures forall id :: id != u.freshId && id !in before.sessions ==> id !in s.sessions
  {
    hide Served, AnswerOk, IsUrl, Received, Favourable, ReadableWorld, Askable;
    SetupMatches(c, before, a, cfg.url, cfg.host, u);
    s := Served(before, a, cfg.url, cfg.host, u).0;
    ra := Served(before, a, cfg.url, cfg.host, u).1.value;
    PortMatters(c, a.cseq, C.Setup, ra, true);
  }

  // ---- PLAY behind SETUP ----

  function SecondAnswer(id: string, cseq: nat, port: T.PortNumber, ssrc: T.SsrcNumber): Response
  {
    Accepted(id, Print(cseq, 10), port, ssrc)
  }

  /** The answer to a second SETUP is on its way to a client that the first one has set up. */
  predicate SecondSetupOnWay(y: System, cseq: nat, id: string, port: T.PortNumber, ssrc: T.SsrcNumber)
  {
    && y.client.reading && y.client.state == Ready && y.client.outstanding == map[cseq := C.Setup]
    && cseq < y.client.nextCseq < C.CSEQ_LIMIT && !y.stuck && y.toServer == []
    && y.toClient == [PrintResponse(SecondAnswer(id, cseq, port, ssrc))]
    && IsIdentifier(y.client.id) && IsIdentifier(id) && id != y.client.id && ssrc >= T.EIGHT_DIGITS
    && IsReady(y.server, y.client.id) && IsReady(y.server, id)
  }

  function PlayBehindSetup(cfg: Config, y: System, wish: C.Wish, world: S.World): System
  {
    var served := Take(cfg, Take(cfg, y, Send(C.Play, wish)), Serve(world));
    Take(cfg, Take(cfg, served, Deliver(true)), Deliver(true))
  }

  /** PLAY then starts one session, and the client takes the answer for the other. */
  lemma {:induction false} PlayBehindSetupDisagrees(cfg: Config, y: System, cseq: nat, id: string, port: T.PortNumber,
                                                    ssrc: T.SsrcNumber, wish: C.Wish, world: S.World)
    requires IsUrl(cfg.url) && PrintableWish(wish) && SecondSetupOnWay(y, cseq, id, port, ssrc)
    ensures var end := PlayBehindSetup(cfg, y, wish, world);
      Believes(end.client, id, Playing) && IsReady(end.server, id) && !Matches(end.client, end.server)
  {
    hide SecondAnswer, Served, AnswerOk, IsIdentifier, IsUrl, Received, Take, PrintResponse, Matches, Plus, Believes,
         IsReady;
    var c, q := y.client, Asking(y.client, C.Play, wish);
    var sent := Take(cfg, y, Send(C.Play, wish));
    var served := Take(cfg, sent, Serve(world));
    assert PlayBehindSetup(cfg, y, wish, world) == Take(cfg, Take(cfg, served, Deliver(true)), Deliver(true));
    PlayAsked(y, cseq, id, port, ssrc, wish);
    hide *;
    var s, r := PlayThen(cfg, y, cseq, id, port, ssrc, q, world);
    SendsAs(cfg, y, C.Play, wish);
    ServesAs(cfg, sent, q, world, s, r);
    AcceptedAnswer(id, cseq, port, ssrc);
    PlusAlike(c, C.Play);
    BothDelivered(cfg, served, cseq, c.nextCseq, SecondAnswer(id, cseq, port, ssrc), r);
    PlaysElsewhere(PlayBehindSetup(cfg, y, wish, world), id);
  }

  lemma {:induction false} PlaysElsewhere(y: System, id: string)
    requires Believes(y.client, id, Playing) && IsReady(y.server, id)
    ensures !Matches(y.client, y.server)
  {
  }

  lemma {:induction false} PlayAsked(y: System, cseq: nat, id: string, port: T.PortNumber, ssrc: T.SsrcNumber,
                                     wish: C.Wish)
    requires SecondSetupOnWay(y, cseq, id, port, ssrc) && PrintableWish(wish)
    ensures y.client.reading && y.client.nextCseq < C.CSEQ_LIMIT && !y.stuck && y.toServer == [] && IsIdentifier(id)
    ensures y.toClient == [PrintResponse(SecondAnswer(id, cseq, port, ssrc))]
    ensures SecondAnswer(id, cseq, port, ssrc) == Accepted(id, Print(cseq, 10), port, ssrc)
    ensures var q := Asking(y.client, C.Play, wish);
      C.Allowed(y.client.state, C.Play) && Askable(q) && q.kind == C.Play && q.id == y.client.id && q.cseq == y.client.nextCseq
  {
    hide PrintResponse, Accepted, IsIdentifier, Print;
  }

  lemma {:induction false} PlayThen(cfg: Config, y: System, cseq: nat, id: string, port: T.PortNumber,
                                    ssrc: T.SsrcNumber, q: Question,
                                    world: S.World)
    returns (s: S.Server, r: Response)
    requires SecondSetupOnWay(y, cseq, id, port, ssrc) && q.kind == C.Play && q.id == y.client.id
      && q.cseq == y.client.nextCseq
    ensures Served(y.server, q, cfg.url, cfg.host, world) == (s, Some(r)) && AnswerOk(q.cseq, r) && IsReady(s, id)
    ensures var d := Received(Plus(y.client, C.Play), SecondAnswer(id, cseq, port, ssrc), true);
      d.reading && Believes(Received(d, r, true), id, Playing)
  {
    hide Served, AnswerOk, Normalize, IsIdentifier, Received, Accepted, PrintResponse, Print;
    var c := y.client;
    var sent := Plus(c, C.Play);
    assert Waiting(sent, cseq, C.Setup) && Waiting(sent, c.nextCseq, C.Play);
    assert sent.outstanding - {cseq} - {c.nextCseq} == map[];
    SessionServed(y.server, q, cfg.url, cfg.host, world);
    s, r := Served(y.server, q, cfg.url, cfg.host, world).0, Served(y.server, q, cfg.url, cfg.host, world).1.value;
    AcceptedIsAdopted(sent, cseq, id, port, ssrc);
    PlainAnswer(Received(sent, SecondAnswer(id, cseq, port, ssrc), true), c.nextCseq, C.Play, r, true);
  }
}
