/**
 * A client and the server it talks to over one connection, with any other clients beside it: whenever no request of
 * the client is without its answer, both ends agree.
 */
module Agreement {
  import opened Wrappers
  import opened Text
  import opened Messages
  import opened HeaderNormalisation
  import opened RtspSession
  import opened Exchange
  import opened Matching
  import C = ControlClient
  import S = RtspServer
  import T = Transport

  /** The client's address and the resource it was made for. */
  datatype Config = Config(url: string, host: S.Host)

  /**
   * Requests and answers travel as texts in two queues. After an exception the server reads no more from the
   * connection. `granted` holds the session identifiers generated while serving this client.
   */
  datatype System = System(
    client: C.Client, toServer: seq<string>, server: S.Server, toClient: seq<string>, stuck: bool, granted: set<string>)

  datatype Step =
    | Send(kind: C.Kind, wish: C.Wish)
    | Serve(world: S.World)
    | Deliver(portFree: bool)
    | Foreign(request: Request, requester: S.Host, foreignWorld: S.World)
    | Timeout(silent: S.Host)

  function Take(cfg: Config, y: System, step: Step): System
  {
    match step
    case Send(kind, wish) =>
      var (client, request) := C.Send(y.client, kind, cfg.url, wish);
      if request.None? then y
      else y.(client := client, toServer := y.toServer + [PrintRequest(request.value)])
    case Serve(world) =>
      if y.stuck || y.toServer == [] then y
      else
        var (server, answer) := S.Respond(y.server, y.toServer[0], cfg.host, world);
        var served := y.(server := server, toServer := y.toServer[1..], granted := y.granted + {world.freshId});
        if answer.None? then served.(stuck := true) else served.(toClient := y.toClient + [answer.value])
    case Deliver(portFree) =>
      if !y.client.reading || y.toClient == [] then y
      else y.(client := C.ReceiveText(y.client, y.toClient[0], portFree), toClient := y.toClient[1..])
    case Foreign(request, requester, world) => y.(server := S.Handle(y.server, request, requester, world).0)
    case Timeout(silent) => y.(server := S.TimedOut(y.server, silent))
  }

  /**
   * What may be sent behind an unanswered request: PLAY behind neither SETUP nor TEARDOWN, PAUSE not behind TEARDOWN,
   * TEARDOWN not behind SETUP, everything else behind anything.
   */
  predicate MayFollow(before: C.Kind, kind: C.Kind)
  {
    match kind
    case Play => before != C.Setup && before != C.Teardown
    case Pause => before != C.Teardown
    case Teardown => before != C.Setup
    case _ => true
  }

  predicate Orderly(c: C.Client, kind: C.Kind)
  {
    forall cseq :: cseq in c.outstanding ==> MayFollow(c.outstanding[cseq], kind)
  }

  /** Identifiers are generated fresh: unknown to the server and to this client. */
  predicate Fresh(y: System, id: string)
  {
    id != "" && id !in y.granted && !S.Registered(y.server.byHost, id)
  }

  predicate Legal(cfg: Config, y: System, step: Step)
  {
    match step
    case Send(kind, wish) => Orderly(y.client, kind) && y.client.nextCseq < C.CSEQ_LIMIT && PrintableWish(wish)
    case Serve(world) => ReadableWorld(world) && Fresh(y, world.freshId)
    case Deliver(_) => true
    case Foreign(request, _, world) => Fresh(y, world.freshId) && forall id :: id in y.granted ==> !S.Names(request, id)
    case Timeout(silent) => silent != cfg.host
  }

  // ---- the requests on their way ----

  datatype Back = Back(cseq: nat, kind: C.Kind, response: Response)

  /** Sequence number and method of everything between the two ends, the oldest first. */
  function Queue(answers: seq<Back>, questions: seq<Question>): (q: seq<(nat, C.Kind)>)
    ensures |q| == |answers| + |questions|
  {
    seq(|answers| + |questions|, i requires 0 <= i < |answers| + |questions| =>
      if i < |answers| then (answers[i].cseq, answers[i].kind)
      else (questions[i - |answers|].cseq, questions[i - |answers|].kind))
  }

  /** As it may be sent; and a PAUSE, which is asked for in `playing` only, never comes behind a SETUP anyway. */
  predicate Follows(before: C.Kind, kind: C.Kind)
  {
    MayFollow(before, kind) && !(before == C.Setup && kind == C.Pause)
  }

  /** No PLAY is unanswered in `init`, no SETUP in `playing`, and no SETUP is behind a PLAY. */
  predicate InTurn(c: C.Client, q: seq<(nat, C.Kind)>)
  {
    && (c.state == Init ==> forall i :: 0 <= i < |q| ==> q[i].1 != C.Play)
    && (c.state == Playing ==> forall i :: 0 <= i < |q| ==> q[i].1 != C.Setup)
    && (forall i, j :: 0 <= i < j < |q| ==> !(q[i].1 == C.Play && q[j].1 == C.Setup))
  }

  /** All of the queue is waited for, numbers increase, and every request may follow those before it. */
  predicate Pending(c: C.Client, q: seq<(nat, C.Kind)>)
  {
    && c.nextCseq <= C.CSEQ_LIMIT
    && (forall i :: 0 <= i < |q| ==> q[i].0 < c.nextCseq && Waiting(c, q[i].0, q[i].1))
    && (forall i, j :: 0 <= i < j < |q| ==> q[i].0 < q[j].0)
    && (forall i, j :: 0 <= i < j < |q| ==> Follows(q[i].1, q[j].1))
  }

  predicate AnswersOnWay(texts: seq<string>, answers: seq<Back>)
  {
    && |texts| == |answers|
    && forall i :: 0 <= i < |texts| ==>
         texts[i] == PrintResponse(answers[i].response) && AnswerOk(answers[i].cseq, answers[i].response)
  }

  predicate QuestionsOnWay(url: string, texts: seq<string>, questions: seq<Question>)
  {
    && |texts| == |questions|
    && forall i :: 0 <= i < |texts| ==> texts[i] == PrintRequest(RequestOf(questions[i], url)) && Askable(questions[i])
  }

  /** The client once it has handled every answer on its way. */
  function Ahead(c: C.Client, answers: seq<Back>): C.Client
    decreases |answers|
  {
    if answers == [] || !c.reading then c else Ahead(Received(c, answers[0].response, true), answers[1..])
  }

  /** Requests on their way that name a session name the client's, and PLAY and PAUSE find it set up. */
  predicate Timely(c: C.Client, questions: seq<Question>)
  {
    forall i :: 0 <= i < |questions| ==>
      (NeedsSession(questions[i].kind) ==> questions[i].id == c.id) && AskedInTime(c.state, questions[i].kind)
  }

  predicate KnownId(y: System, id: string)
  {
    id == "" || (IsIdentifier(id) && id in y.granted)
  }

  /** The server's own invariant, and whose sessions are whose. */
  predicate Hosted(cfg: Config, y: System)
  {
    && S.Inv(y.server)
    && "" !in y.server.sessions
    && forall i :: 0 <= i < |y.server.byHost| ==>
         y.server.byHost[i].id in y.granted ==> y.server.byHost[i].host == cfg.host
  }

  /** What holds while the client still reads. */
  predicate Foreseen(cfg: Config, y: System, answers: seq<Back>, questions: seq<Question>)
  {
    var ahead := Ahead(y.client, answers);
    && Pending(y.client, Queue(answers, questions))
    && InTurn(y.client, Queue(answers, questions))
    && AnswersOnWay(y.toClient, answers)
    && KnownId(y, ahead.id)
    && (y.stuck ==> questions != [])
    && (!y.stuck ==> QuestionsOnWay(cfg.url, y.toServer, questions))
    && (!y.stuck && ahead.reading ==> Matches(ahead, y.server) && Timely(ahead, questions))
  }

  predicate Inv(cfg: Config, y: System, answers: seq<Back>, questions: seq<Question>)
  {
    && Hosted(cfg, y)
    && if y.client.reading then Foreseen(cfg, y, answers, questions) else y.client.outstanding != map[]
  }

  // ---- looking ahead ----

  lemma {:induction false} AheadSnoc(c: C.Client, answers: seq<Back>, b: Back)
    ensures Ahead(c, answers + [b])
         == (var d := Ahead(c, answers); if d.reading then Received(d, b.response, true) else d)
    decreases |answers|
  {
    hide Received;
    if answers == [] {
      assert [] + [b] == [b];
      assert [b][1..] == [];
    } else if c.reading {
      AheadSnoc(Received(c, answers[0].response, true), answers[1..], b);
      assert (answers + [b])[1..] == answers[1..] + [b];
    }
  }

  /** Answers on their way keep the client waiting for everything behind them. */
  lemma {:induction false} AheadWaits(c: C.Client, answers: seq<Back>, questions: seq<Question>)
    requires Pending(c, Queue(answers, questions))
      && forall i :: 0 <= i < |answers| ==> AnswerOk(answers[i].cseq, answers[i].response)
    ensures var d := Ahead(c, answers);
      d.reading ==> Pending(d, Queue([], questions)) && d.nextCseq == c.nextCseq
    decreases |answers|
  {
    hide Received, AnswerOk;
    if answers != [] && c.reading {
      var d := Received(c, answers[0].response, true);
      PendingStep(c, answers, questions, true);
      if d.reading {
        AheadWaits(d, answers[1..], questions);
      }
    }
  }

  lemma {:induction false} QueueTail(answers: seq<Back>, questions: seq<Question>)
    requires answers != []
    ensures Queue(answers[1..], questions) == Queue(answers, questions)[1..]
  {
  }

  lemma {:induction false} PendingTail(c: C.Client, d: C.Client, q: seq<(nat, C.Kind)>)
    requires Pending(c, q) && q != [] && d.nextCseq == c.nextCseq && d.outstanding == c.outstanding - {q[0].0}
    ensures Pending(d, q[1..])
  {
    var t := q[1..];
    assert forall i :: 0 <= i < |t| ==> t[i] == q[i + 1];
    forall i | 0 <= i < |t| ensures t[i].0 < d.nextCseq && Waiting(d, t[i].0, t[i].1) {
      assert q[0].0 < q[i + 1].0 && Waiting(c, q[i + 1].0, q[i + 1].1);
    }
  }

  lemma {:induction false} PendingStep(c: C.Client, answers: seq<Back>, questions: seq<Question>, portFree: bool)
    requires Pending(c, Queue(answers, questions)) && answers != [] && c.reading
    requires AnswerOk(answers[0].cseq, answers[0].response)
    ensures var d := Received(c, answers[0].response, portFree);
      if d.reading then
        d == Received(c, answers[0].response, true) && d.nextCseq == c.nextCseq && Pending(d, Queue(answers[1..], questions))
      else answers[0].cseq in d.outstanding
  {
    hide Received, AnswerOk;
    var q := Queue(answers, questions);
    assert q[0] == (answers[0].cseq, answers[0].kind);
    assert Waiting(c, q[0].0, q[0].1);
    PortMatters(c, answers[0].cseq, answers[0].kind, answers[0].response, portFree);
    QueueTail(answers, questions);
    var d := Received(c, answers[0].response, portFree);
    if d.reading {
      PendingTail(c, d, q);
    }
  }

  /** Answers to other requests than SETUP leave the session's name alone; without TEARDOWN it also stays set up. */
  lemma {:induction false} AheadQuiet(c: C.Client, answers: seq<Back>, questions: seq<Question>)
    requires Pending(c, Queue(answers, questions))
      && forall i :: 0 <= i < |answers| ==> AnswerOk(answers[i].cseq, answers[i].response)
    requires forall i :: 0 <= i < |answers| ==> answers[i].kind != C.Setup
    ensures Ahead(c, answers).id == c.id
    ensures (forall i :: 0 <= i < |answers| ==> answers[i].kind != C.Teardown) ==>
      c.state != Init ==> Ahead(c, answers).state != Init
    decreases |answers|
  {
    hide Received, AnswerOk;
    if answers != [] && c.reading {
      var b, d := answers[0], Received(c, answers[0].response, true);
      assert Queue(answers, questions)[0] == (b.cseq, b.kind);
      PlainAnswer(c, b.cseq, b.kind, b.response, true);
      PendingStep(c, answers, questions, true);
      if d.reading {
        AheadQuiet(d, answers[1..], questions);
      }
    }
  }

  // ---- sending ----

  /** The client with one more request out. */
  function Plus(c: C.Client, kind: C.Kind): C.Client
  {
    c.(nextCseq := c.nextCseq + 1, outstanding := c.outstanding[c.nextCseq := kind])
  }

  lemma {:induction false} PlusStep(c: C.Client, kind: C.Kind, b: Back)
    requires Waiting(c, b.cseq, b.kind) && b.cseq < c.nextCseq && AnswerOk(b.cseq, b.response)
    ensures Received(Plus(c, kind), b.response, true) == Plus(Received(c, b.response, true), kind)
  {
    PrintedCseq(b.cseq);
    hide Normalize, Print, PrintableResponse, C.ReadCseq, T.ReadTransport, C.OnAnswer;
    var h := Normalize(b.response.headers);
    assert "cseq" in h ==> C.ReadCseq(h["cseq"]) == b.cseq;
    AnswerPlus(c, kind, b.cseq, b.response.status, h);
  }

  lemma {:induction false} AnswerPlus(c: C.Client, kind: C.Kind, cseq: nat, status: nat, headers: Normalised)
    requires cseq in c.outstanding && cseq < c.nextCseq
    ensures cseq in Plus(c, kind).outstanding
    ensures C.OnAnswer(Plus(c, kind), cseq, status, headers, true) == Plus(C.OnAnswer(c, cseq, status, headers, true), kind)
  {
    hide T.ReadTransport;
    assert Plus(c, kind).outstanding - {cseq} == (c.outstanding - {cseq})[c.nextCseq := kind];
  }

  lemma {:induction false} AheadPlus(c: C.Client, kind: C.Kind, answers: seq<Back>, questions: seq<Question>)
    requires Pending(c, Queue(answers, questions))
      && forall i :: 0 <= i < |answers| ==> AnswerOk(answers[i].cseq, answers[i].response)
    ensures Ahead(Plus(c, kind), answers) == Plus(Ahead(c, answers), kind)
    decreases |answers|
  {
    hide Received, AnswerOk;
    if answers != [] && c.reading {
      var b, d := answers[0], Received(c, answers[0].response, true);
      assert Queue(answers, questions)[0] == (b.cseq, b.kind);
      PlusStep(c, kind, b);
      PendingStep(c, answers, questions, true);
      if d.reading {
        AheadPlus(d, kind, answers[1..], questions);
      }
    }
  }

  lemma {:induction false} QueueFollows(c: C.Client, kind: C.Kind, q: seq<(nat, C.Kind)>)
    requires Pending(c, q) && InTurn(c, q) && Orderly(c, kind) && C.Allowed(c.state, kind)
    ensures forall i :: 0 <= i < |q| ==> Follows(q[i].1, kind)
  {
    hide MayFollow;
    forall i | 0 <= i < |q| ensures Follows(q[i].1, kind) {
      assert Waiting(c, q[i].0, q[i].1);
    }
  }

  lemma {:induction false} PendingPlus(c: C.Client, kind: C.Kind, q: seq<(nat, C.Kind)>)
    requires Pending(c, q) && InTurn(c, q) && c.nextCseq < C.CSEQ_LIMIT && Orderly(c, kind) && C.Allowed(c.state, kind)
    ensures Pending(Plus(c, kind), q + [(c.nextCseq, kind)]) && InTurn(Plus(c, kind), q + [(c.nextCseq, kind)])
  {
    QueueFollows(c, kind, q);
    hide Follows, Orderly;
  }

  lemma {:induction false} OrderlyAnswers(c: C.Client, kind: C.Kind, answers: seq<Back>, questions: seq<Question>)
    requires Pending(c, Queue(answers, questions)) && InTurn(c, Queue(answers, questions)) && Orderly(c, kind)
    requires C.Allowed(c.state, kind)
    ensures forall i :: 0 <= i < |answers| ==> Follows(answers[i].kind, kind)
  {
    var q := Queue(answers, questions);
    QueueFollows(c, kind, q);
    forall i | 0 <= i < |answers| ensures Follows(answers[i].kind, kind) {
      assert q[i] == (answers[i].cseq, answers[i].kind);
    }
  }

  /** A request sent in order finds, once all answers are handled, the session it was sent in. */
  lemma {:induction false} SentInTime(c: C.Client, kind: C.Kind, answers: seq<Back>, questions: seq<Question>)
    requires Pending(c, Queue(answers, questions)) && InTurn(c, Queue(answers, questions))
    requires Orderly(c, kind) && C.Allowed(c.state, kind)
    requires forall i :: 0 <= i < |answers| ==> AnswerOk(answers[i].cseq, answers[i].response)
    ensures var ahead := Ahead(c, answers); (NeedsSession(kind) ==> ahead.id == c.id) && AskedInTime(ahead.state, kind)
  {
    OrderlyAnswers(c, kind, answers, questions);
    hide Pending, AnswerOk, Ahead, Orderly;
    if NeedsSession(kind) {
      AheadQuiet(c, answers, questions);
    }
  }

  lemma {:induction false} QueueSnoc(answers: seq<Back>, questions: seq<Question>, q: Question)
    ensures Queue(answers, questions + [q]) == Queue(answers, questions) + [(q.cseq, q.kind)]
  {
  }

  lemma {:induction false} SendKeeps(cfg: Config, y: System, kind: C.Kind, wish: C.Wish, answers: seq<Back>,
                                     questions: seq<Question>)
    returns (asked: seq<Question>)
    requires Inv(cfg, y, answers, questions) && Legal(cfg, y, Send(kind, wish))
    ensures Inv(cfg, Take(cfg, y, Send(kind, wish)), answers, asked)
  {
    var c := y.client;
    asked := questions;
    hide PrintRequest, Hosted, AnswerOk, Received, C.RequestFor;
    var z := Take(cfg, y, Send(kind, wish));
    HostedAlike(cfg, y, z);
    if C.Allowed(c.state, kind) {
      var q := Question(c.id, c.nextCseq, kind, wish);
      asked := questions + [q];
      assert z.client == Plus(c, kind);
      if c.reading {
        SendForeseen(cfg, y, z, q, answers, questions);
      } else {
        assert c.nextCseq in z.client.outstanding;
      }
    }
  }

  lemma {:induction false} HostedAlike(cfg: Config, y: System, z: System)
    requires Hosted(cfg, y) && z.server == y.server && z.granted == y.granted
    ensures Hosted(cfg, z)
  {
  }

  lemma {:induction false} SendForeseen(cfg: Config, y: System, z: System, q: Question, answers: seq<Back>,
                                        questions: seq<Question>)
    requires Foreseen(cfg, y, answers, questions) && y.client.reading && Orderly(y.client, q.kind)
      && y.client.nextCseq < C.CSEQ_LIMIT
    requires q.id == y.client.id && q.cseq == y.client.nextCseq && PrintableWish(q.wish)
      && C.Allowed(y.client.state, q.kind)
    requires z == y.(client := Plus(y.client, q.kind), toServer := y.toServer + [PrintRequest(RequestOf(q, cfg.url))])
    ensures Foreseen(cfg, z, answers, questions + [q])
  {
    hide PrintRequest, PrintResponse, AnswerOk, Received, RequestOf, PrintableWish, Ahead, Queue, Pending, Orderly,
         Plus, IsIdentifier, AskedInTime;
    var c := y.client;
    assert forall i :: 0 <= i < |answers| ==> AnswerOk(answers[i].cseq, answers[i].response);
    SentInTime(c, q.kind, answers, questions);
    AheadPlus(c, q.kind, answers, questions);
    QueueSnoc(answers, questions, q);
    PendingPlus(c, q.kind, Queue(answers, questions));
    var ahead := Ahead(c, answers);
    PlusAlike(ahead, q.kind);
    if !y.stuck && ahead.reading {
      MatchesAlike(ahead, Plus(ahead, q.kind), y.server);
    }
  }

  lemma {:induction false} PlusAlike(c: C.Client, kind: C.Kind)
    ensures var d := Plus(c, kind);
      d.id == c.id && d.state == c.state && d.receiver == c.receiver && d.reading == c.reading
  {
  }

  // ---- delivering ----

  lemma {:induction false} TextIsReceived(c: C.Client, cseq: nat, r: Response, portFree: bool)
    requires AnswerOk(cseq, r)
    ensures C.ReceiveText(c, PrintResponse(r), portFree) == Received(c, r, portFree)
  {
    EndIsNoFold();
    assert PrintResponse(r) + "" == PrintResponse(r);
    hide PrintResponse, ParseResponse, PrintableResponse, C.Receive, NoFolding, FilledResponse;
    ResponseRoundTrip(r, "");
    FilledByParse(PrintResponse(r));
  }

  lemma {:induction false} InTurnTail(c: C.Client, d: C.Client, q: seq<(nat, C.Kind)>)
    requires Pending(c, q) && InTurn(c, q) && q != []
    requires d.state == if q[0].1 == C.Setup then Ready else C.StateAfter(c.state, q[0].1)
    ensures InTurn(d, q[1..])
  {
    var t := q[1..];
    forall i | 0 <= i < |t|
      ensures t[i] == q[i + 1] && Follows(q[0].1, t[i].1) && !(q[0].1 == C.Play && t[i].1 == C.Setup)
    {
    }
  }

  lemma {:induction false} InTurnStep(c: C.Client, answers: seq<Back>, questions: seq<Question>, portFree: bool)
    requires Pending(c, Queue(answers, questions)) && InTurn(c, Queue(answers, questions)) && answers != [] && c.reading
    requires AnswerOk(answers[0].cseq, answers[0].response)
    ensures var d := Received(c, answers[0].response, portFree);
      d.reading ==> InTurn(d, Queue(answers[1..], questions))
  {
    hide Received, AnswerOk, InTurn;
    var q, b := Queue(answers, questions), answers[0];
    assert q[0] == (b.cseq, b.kind);
    assert Waiting(c, q[0].0, q[0].1);
    QueueTail(answers, questions);
    var d := Received(c, b.response, portFree);
    if d.reading {
      StateReceived(c, b, portFree);
      InTurnTail(c, d, q);
    }
  }

  lemma {:induction false} StateReceived(c: C.Client, b: Back, portFree: bool)
    requires Waiting(c, b.cseq, b.kind) && AnswerOk(b.cseq, b.response) && Received(c, b.response, portFree).reading
    ensures Received(c, b.response, portFree).state == if b.kind == C.Setup then Ready else C.StateAfter(c.state, b.kind)
  {
    if b.kind == C.Setup {
      PrintedCseq(b.cseq);
      hide Normalize, Print, PrintableResponse, C.ReadCseq, T.ReadTransport;
    } else {
      hide AnswerOk, Received;
      PlainAnswer(c, b.cseq, b.kind, b.response, portFree);
    }
  }

  lemma {:induction false} DeliverForeseen(cfg: Config, y: System, z: System, portFree: bool, answers: seq<Back>,
                                           questions: seq<Question>)
    requires Foreseen(cfg, y, answers, questions) && y.client.reading && answers != [] && y.toClient != []
    requires z == y.(client := Received(y.client, answers[0].response, portFree), toClient := y.toClient[1..])
    ensures if z.client.reading then Foreseen(cfg, z, answers[1..], questions) else z.client.outstanding != map[]
  {
    hide PrintResponse, AnswerOk, Received, Queue, Pending, InTurn, QuestionsOnWay, Matches, Timely, IsIdentifier;
    assert AnswerOk(answers[0].cseq, answers[0].response);
    PendingStep(y.client, answers, questions, portFree);
    InTurnStep(y.client, answers, questions, portFree);
    if z.client.reading {
      assert Ahead(z.client, answers[1..]) == Ahead(y.client, answers);
      hide Ahead;
      assert AnswersOnWay(z.toClient, answers[1..]);
    } else {
      assert answers[0].cseq in z.client.outstanding;
    }
  }

  lemma {:induction false} DeliverKeeps(cfg: Config, y: System, portFree: bool, answers: seq<Back>,
                                        questions: seq<Question>)
    returns (left: seq<Back>)
    requires Inv(cfg, y, answers, questions)
    ensures Inv(cfg, Take(cfg, y, Deliver(portFree)), left, questions)
  {
    left := answers;
    if y.client.reading && y.toClient != [] {
      left := answers[1..];
      var z := Take(cfg, y, Deliver(portFree));
      assert y.toClient[0] == PrintResponse(answers[0].response) && AnswerOk(answers[0].cseq, answers[0].response);
      hide PrintResponse, Hosted, AnswerOk, Received, C.ReceiveText, Foreseen;
      HostedAlike(cfg, y, z);
      TextIsReceived(y.client, answers[0].cseq, answers[0].response, portFree);
      DeliverForeseen(cfg, y, z, portFree, answers, questions);
    }
  }

  // ---- serving ----

  lemma {:induction false} HandleHosted(cfg: Config, y: System, z: System, request: Request, requester: S.Host,
                                        world: S.World)
    requires Hosted(cfg, y) && Fresh(y, world.freshId)
    requires z.server == S.Handle(y.server, request, requester, world).0
    requires z.granted == y.granted || (z.granted == y.granted + {world.freshId} && requester == cfg.host)
    ensures Hosted(cfg, z)
  {
    hide S.Handle, S.Inv;
    S.HandleKeepsInv(y.server, request, requester, world);
    S.NothingFromNothing(y.server, request, requester, world, "");
    S.HostsAfter(y.server, request, requester, world);
    var old_, new_ := y.server.byHost, z.server.byHost;
    forall i | 0 <= i < |new_| && new_[i].id in z.granted ensures new_[i].host == cfg.host {
      if i < |old_| {
        assert new_[i] == old_[i];
        assert old_[i].id != world.freshId;
      }
    }
  }

  lemma {:induction false} FreshIsUnknown(cfg: Config, y: System, id: string)
    requires Hosted(cfg, y) && Fresh(y, id)
    ensures id !in y.server.sessions
  {
  }

  /** The queue is the same before and after the oldest question becomes the youngest answer. */
  lemma {:induction false} QueueMoves(answers: seq<Back>, questions: seq<Question>, b: Back)
    requires questions != [] && b.cseq == questions[0].cseq && b.kind == questions[0].kind
    ensures Queue(answers + [b], questions[1..]) == Queue(answers, questions)
  {
  }

  /** Behind a question that is served, the others find what they were asked in. */
  lemma {:induction false} StillTimely(c: C.Client, d: C.Client, questions: seq<Question>, answers: seq<Back>,
                                       e: C.Client)
    requires Pending(e, Queue(answers, questions)) && questions != [] && Timely(c, questions)
    requires questions[0].kind != C.Setup ==> d.id == c.id && d.state == C.StateAfter(c.state, questions[0].kind)
    ensures Timely(d, questions[1..])
  {
    var q := Queue(answers, questions);
    var rest := questions[1..];
    forall i | 0 <= i < |rest|
      ensures (NeedsSession(rest[i].kind) ==> rest[i].id == d.id) && AskedInTime(d.state, rest[i].kind)
    {
      assert rest[i] == questions[i + 1];
      assert q[|answers|] == (questions[0].cseq, questions[0].kind);
      assert q[|answers| + i + 1] == (questions[i + 1].cseq, questions[i + 1].kind);
      assert Follows(questions[0].kind, questions[i + 1].kind);
    }
  }

  lemma {:induction false} FirstWaits(c: C.Client, answers: seq<Back>, questions: seq<Question>)
    requires Pending(c, Queue(answers, questions)) && questions != []
    ensures questions[0].cseq < C.CSEQ_LIMIT
  {
    assert Queue(answers, questions)[|answers|] == (questions[0].cseq, questions[0].kind);
  }

  lemma {:induction false} AheadAsks(c: C.Client, answers: seq<Back>, questions: seq<Question>, url: string)
    requires Pending(c, Queue(answers, questions))
      && forall i :: 0 <= i < |answers| ==> AnswerOk(answers[i].cseq, answers[i].response)
    requires questions != [] && Ahead(c, answers).reading && Timely(Ahead(c, answers), questions)
    requires Askable(questions[0]) && IsUrl(url)
    ensures Asked(Ahead(c, answers), questions[0], url)
  {
    AheadWaits(c, answers, questions);
    assert Queue([], questions)[0] == (questions[0].cseq, questions[0].kind);
    hide Ahead, AnswerOk;
  }

  /** What is foreseen of a client, whatever is still on its way to the server. */
  predicate Promising(z: System, d: C.Client, questions: seq<Question>)
  {
    KnownId(z, d.id) && (d.reading ==> Matches(d, z.server) && Timely(d, questions))
  }

  lemma {:induction false} PlainServed(cfg: Config, y: System, z: System, c: C.Client, world: S.World,
                                       answers: seq<Back>, questions: seq<Question>)
    requires questions != [] && Promising(y, c, questions) && c.reading && Pending(y.client, Queue(answers, questions))
    requires Asked(c, questions[0], cfg.url) && questions[0].kind != C.Setup && y.granted <= z.granted
    requires z.server == Served(y.server, questions[0], cfg.url, cfg.host, world).0
    ensures var r := Served(y.server, questions[0], cfg.url, cfg.host, world).1;
      r.Some? && Promising(z, Received(c, r.value, true), questions[1..])
  {
    var q := questions[0];
    hide Received, AnswerOk, Served, Pending, Queue, Timely, Matches, IsIdentifier, Askable, IsUrl;
    AnswerMatches(c, y.server, q, cfg.url, cfg.host, world);
    var d := Received(c, Served(y.server, q, cfg.url, cfg.host, world).1.value, true);
    PortMatters(c, q.cseq, q.kind, Served(y.server, q, cfg.url, cfg.host, world).1.value, true);
    if d.reading {
      StillTimely(c, d, questions, answers, y.client);
    }
  }

  lemma {:induction false} SetupServed(cfg: Config, y: System, z: System, c: C.Client, world: S.World,
                                       answers: seq<Back>, questions: seq<Question>)
    requires questions != [] && Promising(y, c, questions) && c.reading && Pending(y.client, Queue(answers, questions))
    requires Asked(c, questions[0], cfg.url) && questions[0].kind == C.Setup
    requires z.granted == y.granted + {world.freshId} && ReadableWorld(world) && world.freshId !in y.server.sessions
    requires z.server == Served(y.server, questions[0], cfg.url, cfg.host, world).0
    ensures var r := Served(y.server, questions[0], cfg.url, cfg.host, world).1;
      r.Some? ==> Promising(z, Received(c, r.value, true), questions[1..])
  {
    var q := questions[0];
    hide Received, AnswerOk, Served, Pending, Queue, Timely, Matches, IsIdentifier, Askable, IsUrl, Favourable;
    SetupMatches(c, y.server, q, cfg.url, cfg.host, world);
    var r := Served(y.server, q, cfg.url, cfg.host, world).1;
    if r.Some? {
      StillTimely(c, Received(c, r.value, true), questions, answers, y.client);
    }
  }

  lemma {:induction false} ServeAhead(cfg: Config, y: System, z: System, world: S.World, answers: seq<Back>,
                                      questions: seq<Question>, b: Back)
    requires Foreseen(cfg, y, answers, questions) && Hosted(cfg, y) && y.client.reading && !y.stuck && questions != []
    requires ReadableWorld(world) && Fresh(y, world.freshId) && IsUrl(cfg.url)
    requires z.granted == y.granted + {world.freshId}
    requires Served(y.server, questions[0], cfg.url, cfg.host, world) == (z.server, Some(b.response))
    ensures Promising(z, Ahead(y.client, answers + [b]), questions[1..])
  {
    var c := Ahead(y.client, answers);
    hide Received, AnswerOk, Served, Pending, Queue, Timely, Matches, IsIdentifier, IsUrl, Ahead, PrintRequest,
         PrintResponse, ReadableWorld;
    AheadSnoc(y.client, answers, b);
    if c.reading {
      assert Askable(questions[0]);
      assert forall i :: 0 <= i < |answers| ==> AnswerOk(answers[i].cseq, answers[i].response);
      AheadAsks(y.client, answers, questions, cfg.url);
      if questions[0].kind == C.Setup {
        FreshIsUnknown(cfg, y, world.freshId);
        SetupServed(cfg, y, z, c, world, answers, questions);
      } else {
        PlainServed(cfg, y, z, c, world, answers, questions);
      }
    }
  }

  lemma {:induction false} ServeForeseen(cfg: Config, y: System, z: System, world: S.World, answers: seq<Back>,
                                         questions: seq<Question>, b: Back)
    requires Foreseen(cfg, y, answers, questions) && Hosted(cfg, y) && y.client.reading && !y.stuck && questions != []
    requires ReadableWorld(world) && Fresh(y, world.freshId) && IsUrl(cfg.url)
    requires Served(y.server, questions[0], cfg.url, cfg.host, world) == (z.server, Some(b.response))
    requires b.cseq == questions[0].cseq && b.kind == questions[0].kind
    requires z == System(y.client, y.toServer[1..], z.server, y.toClient + [PrintResponse(b.response)], false,
                         y.granted + {world.freshId})
    ensures Foreseen(cfg, z, answers + [b], questions[1..])
  {
    hide Received, AnswerOk, Served, Pending, Queue, Timely, Matches, IsIdentifier, IsUrl, Ahead, PrintRequest,
         PrintResponse,
         ReadableWorld, RequestOf;
    assert Askable(questions[0]);
    FirstWaits(y.client, answers, questions);
    FreshIsUnknown(cfg, y, world.freshId);
    ServedOk(y.server, questions[0], cfg.url, cfg.host, world);
    ServeAhead(cfg, y, z, world, answers, questions, b);
    QueueMoves(answers, questions, b);
    assert AnswersOnWay(z.toClient, answers + [b]);
    assert QuestionsOnWay(cfg.url, z.toServer, questions[1..]);
  }

  lemma {:induction false} StuckForeseen(cfg: Config, y: System, z: System, answers: seq<Back>,
                                         questions: seq<Question>)
    requires Foreseen(cfg, y, answers, questions) && questions != []
    requires z.client == y.client && z.toClient == y.toClient && z.stuck && y.granted <= z.granted
    ensures Foreseen(cfg, z, answers, questions)
  {
    hide Pending, Queue, Timely, Matches, IsIdentifier, Ahead, PrintRequest, PrintResponse, AnswerOk;
  }

  lemma {:induction false} GrantHosted(cfg: Config, y: System, z: System, id: string)
    requires Hosted(cfg, y) && Fresh(y, id) && z.server == y.server && z.granted == y.granted + {id}
    ensures Hosted(cfg, z)
  {
  }

  lemma {:induction false} RespondHosted(cfg: Config, y: System, z: System, text: string, world: S.World)
    requires Hosted(cfg, y) && Fresh(y, world.freshId)
    requires z.server == S.Respond(y.server, text, cfg.host, world).0 && z.granted == y.granted + {world.freshId}
    ensures Hosted(cfg, z)
  {
    hide S.Handle, ParseRequest, PrintResponse, Hosted, Fresh, Span;
    var parsed := ParseRequest(text[Span(text, IsSpace)..]);
    if parsed.Failed? {
      GrantHosted(cfg, y, z, world.freshId);
    } else {
      HandleHosted(cfg, y, z, parsed.value, cfg.host, world);
    }
  }

  lemma {:induction false} ServeKeeps(cfg: Config, y: System, world: S.World, answers: seq<Back>,
                                      questions: seq<Question>)
    returns (given: seq<Back>, left: seq<Question>)
    requires Inv(cfg, y, answers, questions) && IsUrl(cfg.url) && Legal(cfg, y, Serve(world))
    ensures Inv(cfg, Take(cfg, y, Serve(world)), given, left)
  {
    given, left := answers, questions;
    if !y.stuck && y.toServer != [] {
      var z := Take(cfg, y, Serve(world));
      hide S.Respond, PrintRequest, PrintResponse, Hosted, Fresh, ReadableWorld, IsUrl, Foreseen;
      RespondHosted(cfg, y, z, y.toServer[0], world);
      if y.client.reading {
        given, left := ServeReading(cfg, y, world, answers, questions);
      }
    }
  }

  lemma {:induction false} OldestQuestion(cfg: Config, y: System, answers: seq<Back>, questions: seq<Question>)
    requires Foreseen(cfg, y, answers, questions) && !y.stuck && y.toServer != []
    ensures questions != [] && y.toServer[0] == PrintRequest(RequestOf(questions[0], cfg.url)) && Askable(questions[0])
  {
    hide Pending, Queue, Timely, Matches, IsIdentifier, Ahead, PrintRequest, PrintResponse, AnswerOk, Askable;
  }

  lemma {:induction false} ServeReading(cfg: Config, y: System, world: S.World, answers: seq<Back>,
                                        questions: seq<Question>)
    returns (given: seq<Back>, left: seq<Question>)
    requires Foreseen(cfg, y, answers, questions) && Hosted(cfg, y) && y.client.reading && !y.stuck && y.toServer != []
    requires IsUrl(cfg.url) && ReadableWorld(world) && Fresh(y, world.freshId)
    ensures Foreseen(cfg, Take(cfg, y, Serve(world)), given, left)
  {
    hide S.Respond, PrintRequest, PrintResponse, Hosted, Fresh, ReadableWorld, IsUrl, Foreseen, Served, RequestOf,
         Askable;
    OldestQuestion(cfg, y, answers, questions);
    var q, z := questions[0], Take(cfg, y, Serve(world));
    ServedText(y.server, q, cfg.url, cfg.host, world);
    var r := Served(y.server, q, cfg.url, cfg.host, world).1;
    if r.Some? {
      var b := Back(q.cseq, q.kind, r.value);
      given, left := answers + [b], questions[1..];
      ServeForeseen(cfg, y, z, world, answers, questions, b);
    } else {
      given, left := answers, questions;
      StuckForeseen(cfg, y, z, answers, questions);
    }
  }

  // ---- everyone else ----

  /** Another client's request, or another host's silence, does not touch the sessions granted to this client. */
  predicate Undisturbed(y: System, z: System)
  {
    forall id :: id in y.granted + {""} ==>
      (id in z.server.sessions <==> id in y.server.sessions)
      && (id in y.server.sessions ==> z.server.sessions[id] == y.server.sessions[id])
  }

  lemma {:induction false} UndisturbedForeseen(cfg: Config, y: System, z: System, answers: seq<Back>,
                                               questions: seq<Question>)
    requires Foreseen(cfg, y, answers, questions) && Undisturbed(y, z) && z == y.(server := z.server)
    ensures Foreseen(cfg, z, answers, questions)
  {
    hide Pending, Queue, Timely, Matches, IsIdentifier, Ahead, PrintRequest, PrintResponse, AnswerOk, AnswersOnWay,
         QuestionsOnWay;
    var ahead := Ahead(y.client, answers);
    if !y.stuck && ahead.reading {
      MatchesElsewhere(ahead, y.server, z.server);
    }
  }

  lemma {:induction false} ForeignIsElsewhere(cfg: Config, y: System, z: System, request: Request, requester: S.Host,
                                              world: S.World)
    requires Hosted(cfg, y) && Fresh(y, world.freshId) && forall id :: id in y.granted ==> !S.Names(request, id)
    requires z.server == S.Handle(y.server, request, requester, world).0
    ensures Undisturbed(y, z)
  {
    hide S.Handle, S.Names, S.Inv;
    S.NothingFromNothing(y.server, request, requester, world, "");
    forall id | id in y.granted
      ensures id in z.server.sessions <==> id in y.server.sessions
      ensures id in y.server.sessions ==> z.server.sessions[id] == y.server.sessions[id]
    {
      S.OthersUntouched(y.server, request, requester, world, id);
    }
  }

  lemma {:induction false} TimeoutIsElsewhere(cfg: Config, y: System, z: System, silent: S.Host)
    requires Hosted(cfg, y) && silent != cfg.host && z.server == S.TimedOut(y.server, silent) && z.granted == y.granted
    ensures Undisturbed(y, z) && Hosted(cfg, z)
  {
    var s, t := y.server, z.server;
    S.TimeoutKeepsInv(s, silent);
    S.WithoutHostMembers(s.byHost, silent);
    forall id | id in y.granted && id in s.sessions ensures id in t.sessions {
      assert S.Registered(s.byHost, id);
      var i :| 0 <= i < |s.byHost| && s.byHost[i].id == id;
    }
    forall i | 0 <= i < |t.byHost| && t.byHost[i].id in z.granted ensures t.byHost[i].host == cfg.host {
      assert t.byHost[i] in s.byHost;
      var j :| 0 <= j < |s.byHost| && s.byHost[j] == t.byHost[i];
    }
  }

  // ---- all steps and all runs ----

  lemma {:induction false} StepKeeps(cfg: Config, y: System, step: Step, answers: seq<Back>, questions: seq<Question>)
    returns (given: seq<Back>, asked: seq<Question>)
    requires Inv(cfg, y, answers, questions) && IsUrl(cfg.url) && Legal(cfg, y, step)
    ensures Inv(cfg, Take(cfg, y, step), given, asked)
  {
    given, asked := answers, questions;
    hide IsUrl, Hosted, Foreseen, S.Handle, S.TimedOut, S.Names;
    var z := Take(cfg, y, step);
    match step
    case Send(kind, wish) =>
      asked := SendKeeps(cfg, y, kind, wish, answers, questions);
    case Serve(world) =>
      given, asked := ServeKeeps(cfg, y, world, answers, questions);
    case Deliver(portFree) =>
      given := DeliverKeeps(cfg, y, portFree, answers, questions);
    case Foreign(request, requester, world) =>
      ForeignIsElsewhere(cfg, y, z, request, requester, world);
      HandleHosted(cfg, y, z, request, requester, world);
      if y.client.reading {
        UndisturbedForeseen(cfg, y, z, answers, questions);
      }
    case Timeout(silent) =>
      TimeoutIsElsewhere(cfg, y, z, silent);
      if y.client.reading {
        UndisturbedForeseen(cfg, y, z, answers, questions);
      }
  }

  /** A new client beside a server in whatever state other clients have brought it to. */
  function Start(server: S.Server): System
  {
    System(C.NEW, [], server, [], false, {})
  }

  function RunOf(cfg: Config, y: System, steps: seq<Step>): System
    decreases |steps|
  {
    if steps == [] then y else RunOf(cfg, Take(cfg, y, steps[0]), steps[1..])
  }

  predicate LegalRun(cfg: Config, y: System, steps: seq<Step>)
    decreases |steps|
  {
    steps != [] ==> Legal(cfg, y, steps[0]) && LegalRun(cfg, Take(cfg, y, steps[0]), steps[1..])
  }

  lemma {:induction false} RunKeeps(cfg: Config, y: System, steps: seq<Step>, answers: seq<Back>,
                                    questions: seq<Question>)
    returns (given: seq<Back>, asked: seq<Question>)
    requires Inv(cfg, y, answers, questions) && IsUrl(cfg.url) && LegalRun(cfg, y, steps)
    ensures Inv(cfg, RunOf(cfg, y, steps), given, asked)
    decreases |steps|
  {
    hide Inv, IsUrl, Take, Legal;
    given, asked := answers, questions;
    if steps != [] {
      given, asked := StepKeeps(cfg, y, steps[0], answers, questions);
      given, asked := RunKeeps(cfg, Take(cfg, y, steps[0]), steps[1..], given, asked);
    }
  }

  lemma {:induction false} StartInv(cfg: Config, server: S.Server)
    requires S.Inv(server) && "" !in server.sessions
    ensures Inv(cfg, Start(server), [], [])
  {
  }

  /** With nothing outstanding there is nothing on its way, and what is foreseen of the client has come about. */
  lemma {:induction false} QuietMatches(cfg: Config, y: System, answers: seq<Back>, questions: seq<Question>)
    requires Inv(cfg, y, answers, questions) && y.client.outstanding == map[]
    ensures y.client.reading && Matches(y.client, y.server)
  {
    hide Hosted, AnswerOk, Matches, Timely, IsIdentifier, QuestionsOnWay, AnswersOnWay;
    var q := Queue(answers, questions);
    assert q == [] || Waiting(y.client, q[0].0, q[0].1);
  }

  /**
   * Whatever is sent, served and delivered in whatever order, beside any other clients: whenever the client has no
   * request without an answer, its state is the state of its session at the server, and if it is set up it listens on
   * the port and for the SSRC of that session's sender.
   */
  lemma {:induction false} AgreementAtQuiescence(cfg: Config, server: S.Server, steps: seq<Step>)
    requires S.Inv(server) && "" !in server.sessions && IsUrl(cfg.url)
    requires LegalRun(cfg, Start(server), steps)
    ensures var end := RunOf(cfg, Start(server), steps);
      end.client.outstanding == map[] ==> end.client.reading && Matches(end.client, end.server)
  {
    hide Inv, IsUrl, LegalRun, RunOf, S.Inv, Matches;
    StartInv(cfg, server);
    var answers, questions := RunKeeps(cfg, Start(server), steps, [], []);
    var end := RunOf(cfg, Start(server), steps);
    if end.client.outstanding == map[] {
      QuietMatches(cfg, end, answers, questions);
    }
  }

  // ---- one request at a time ----

  /** The client asks only when everything it asked before has been answered. */
  predicate LockStep(cfg: Config, y: System, steps: seq<Step>)
    decreases |steps|
  {
    steps != [] ==>
      && (steps[0].Send? ==> y.client.outstanding == map[])
      && LockStep(cfg, Take(cfg, y, steps[0]), steps[1..])
  }

  lemma {:induction false} NothingUnderway(cfg: Config, y: System, answers: seq<Back>, questions: seq<Question>)
    requires Inv(cfg, y, answers, questions) && y.client.outstanding == map[]
    ensures y.toServer == []
  {
    hide Hosted, AnswerOk, Matches, Timely, IsIdentifier, Askable, PrintRequest, PrintResponse;
    var q := Queue(answers, questions);
    assert q == [] || Waiting(y.client, q[0].0, q[0].1);
  }

  lemma {:induction false} UnderwayStep(cfg: Config, y: System, step: Step, answers: seq<Back>,
                                        questions: seq<Question>)
    requires Inv(cfg, y, answers, questions) && |y.toServer| <= 1
    requires step.Send? ==> y.client.outstanding == map[]
    ensures |Take(cfg, y, step).toServer| <= 1
  {
    if step.Send? {
      NothingUnderway(cfg, y, answers, questions);
    }
    hide Inv, PrintRequest, S.Respond, S.Handle, C.ReceiveText, S.TimedOut;
  }

  /**
   * Then no run ever has two requests on the way, and the server's stream buffer never holds more than the one that
   * is served.
   */
  lemma {:induction false} OneUnderway(cfg: Config, y: System, steps: seq<Step>, answers: seq<Back>,
                                       questions: seq<Question>)
    requires Inv(cfg, y, answers, questions) && |y.toServer| <= 1 && IsUrl(cfg.url)
    requires LegalRun(cfg, y, steps) && LockStep(cfg, y, steps)
    ensures |RunOf(cfg, y, steps).toServer| <= 1
    decreases |steps|
  {
    hide Inv, IsUrl, Take, Legal;
    if steps != [] {
      UnderwayStep(cfg, y, steps[0], answers, questions);
      var given, asked := StepKeeps(cfg, y, steps[0], answers, questions);
      OneUnderway(cfg, Take(cfg, y, steps[0]), steps[1..], given, asked);
    }
  }

  /** From the start: a client that waits for every answer never has two requests in the server's buffer. */
  lemma {:induction false} LockStepNeverMerges(cfg: Config, server: S.Server, steps: seq<Step>)
    requires S.Inv(server) && "" !in server.sessions && IsUrl(cfg.url)
    requires LegalRun(cfg, Start(server), steps) && LockStep(cfg, Start(server), steps)
    ensures |RunOf(cfg, Start(server), steps).toServer| <= 1
  {
    hide Inv, IsUrl, LegalRun, LockStep, RunOf, S.Inv;
    StartInv(cfg, server);
    OneUnderway(cfg, Start(server), steps, [], []);
  }

  // ---- why the own host may not time out ----

  /** After a timeout of the client's own host they agree exactly when the client had no session to lose. */
  lemma {:induction false} OwnTimeoutAgreesIff(cfg: Config, y: System)
    requires Hosted(cfg, y) && Matches(y.client, y.server) && y.client.id in y.granted
    ensures Matches(y.client, S.TimedOut(y.server, cfg.host)) <==> y.client.state == Init
  {
    var s, id := y.server, y.client.id;
    S.TimeoutKeepsInv(s, cfg.host);
    if id in s.sessions {
      assert S.Registered(s.byHost, id);
      var i :| 0 <= i < |s.byHost| && s.byHost[i].id == id;
      assert s.byHost[i].host == cfg.host;
      hide S.TimedOut, S.Inv;
      assert id !in S.TimedOut(s, cfg.host).sessions;
    }
  }
}
