/** The client's session: `rtsp_client.cpp`. */
module ControlClient {
  import opened Wrappers
  import opened Text
  import opened Messages
  import opened HeaderNormalisation
  import opened RtspSession
  import T = Transport

  datatype Kind = Setup | Play | Pause | Teardown | Options | Describe

  /** Where the RTP receiver listens and what it listens for. */
  datatype Receiver = Receiver(port: T.PortNumber, ssrc: T.SsrcNumber)

  /**
   * The session, the requests without an answer, and whether the connection is still read: an exception in the
   * read handler leaves it before the next read is started.
   */
  datatype Client = Client(
    state: State, id: string, nextCseq: nat, outstanding: map<nat, Kind>, receiver: Option<Receiver>, reading: bool)

  const NEW: Client := Client(Init, "", 0, map[], None, true)

  const CSEQ_LIMIT: nat := 0x1_0000_0000

  // ---- sending ----

  function MethodName(kind: Kind): string
  {
    match kind
    case Setup => "SETUP"
    case Play => "PLAY"
    case Pause => "PAUSE"
    case Teardown => "TEARDOWN"
    case Options => "OPTIONS"
    case Describe => "DESCRIBE"
  }

  /** The states in which a request may be asked for; elsewhere the call throws. */
  predicate Allowed(state: State, kind: Kind)
  {
    match kind
    case Setup => state == Init
    case Play => state != Init
    case Pause => state == Playing
    case _ => true
  }

  /** What a SETUP needs to know: a random local port, and the printed channel options if there are any. */
  datatype Wish = Wish(port: T.PortNumber, options: Option<string>)

  function OwnHeaders(id: string, kind: Kind, wish: Wish): seq<Header>
  {
    match kind
    case Setup =>
      [Header("Transport", T.PrintSpec(T.ClientSpec(wish.port)))]
      + (if wish.options.Some? then [Header("Require", T.OPTION_NAME), Header(T.OPTION_NAME, wish.options.value)] else [])
    case Options => []
    case Describe => []
    case _ => [Header("session", id)]
  }

  function RequestFor(id: string, cseq: nat, kind: Kind, url: string, wish: Wish): Request
  {
    Request(MethodName(kind), url, 1, 0, [Header("CSeq", Print(cseq, 10))] + OwnHeaders(id, kind, wish))
  }

  /** `setup`, `play`, `pause`, `teardown`, `option` and `describe`, down to `send_request`. */
  function Send(c: Client, kind: Kind, url: string, wish: Wish): (Client, Option<Request>)
  {
    if !Allowed(c.state, kind) then (c, None)
    else
      (c.(nextCseq := c.nextCseq + 1, outstanding := c.outstanding[c.nextCseq % CSEQ_LIMIT := kind]),
       Some(RequestFor(c.id, c.nextCseq, kind, url, wish)))
  }

  // ---- receiving ----

  /** A number that cannot be read counts as 0. */
  function ReadCseq(text: string): nat
  {
    match Unbounded(text)
    case Failed => 0
    case Read(n, _) => if n < CSEQ_LIMIT then n else 0
  }

  /** The handler of an answer to SETUP; false stands for an exception. */
  function Adopt(c: Client, status: nat, headers: Normalised, portFree: bool): (Client, bool)
  {
    if status < 200 || status >= 300 || "session" !in headers || "transport" !in headers then (c, false)
    else
      var known := c.(id := headers["session"]);
      var reading := T.ReadTransport(headers["transport"]);
      if !reading.Agreed? || !portFree then (known, false)
      else (known.(receiver := Some(Receiver(reading.port, reading.ssrc)), state := Ready), true)
  }

  /** The state a handled answer leads to; the status code plays no part. */
  function StateAfter(state: State, kind: Kind): State
  {
    match kind
    case Play => Playing
    case Pause => Ready
    case Teardown => Init
    case _ => state
  }

  /** The handler of an outstanding request, and its removal, which an exception prevents. */
  function OnAnswer(c: Client, cseq: nat, status: nat, headers: Normalised, portFree: bool): Client
    requires cseq in c.outstanding
  {
    if c.outstanding[cseq] == Setup then
      var (after, ok) := Adopt(c, status, headers, portFree);
      if ok then after.(outstanding := c.outstanding - {cseq}) else after.(reading := false)
    else c.(state := StateAfter(c.state, c.outstanding[cseq]), outstanding := c.outstanding - {cseq})
  }

  /** `header_read` from a response's status and headers on. */
  function Receive(c: Client, status: nat, received: seq<Header>, portFree: bool): Client
  {
    var headers := Normalize(received);
    if "cseq" !in headers then c.(reading := false)
    else
      var cseq := ReadCseq(headers["cseq"]);
      if status < 200 || cseq !in c.outstanding then c
      else OnAnswer(c, cseq, status, headers, portFree)
  }

  /** `header_read`: it goes on with whatever the parse has filled in, even when it failed. */
  function ReceiveText(c: Client, text: string, portFree: bool): Client
  {
    match FilledResponse(text)
    case None => c.(reading := false)
    case Some(filled) => Receive(c, filled.0, filled.1, portFree)
  }

  // ---- the object ----

  class RtspClient {
    var state: State
    var identifier: string
    var nextCseq: nat
    var outstanding: map<nat, Kind>
    var receiver: Option<Receiver>
    var reading: bool

    function Value(): Client
      reads this
    {
      Client(state, identifier, nextCseq, outstanding, receiver, reading)
    }

    constructor ()
      ensures Value() == NEW
    {
      state, identifier, nextCseq, outstanding, receiver, reading := Init, "", 0, map[], None, true;
    }

    method SendRequest(kind: Kind, url: string, wish: Wish) returns (r: Option<Request>)
      modifies this`nextCseq, this`outstanding
      ensures (Value(), r) == Send(old(Value()), kind, url, wish)
    {
      if kind == Setup && state != Init {
        return None;
      }
      if kind == Play && state != Ready && state != Playing {
        return None;
      }
      if kind == Pause && state != Playing {
        return None;
      }
      var cseq := nextCseq;
      nextCseq := nextCseq + 1;
      var headers := [Header("CSeq", Print(cseq, 10))] + OwnHeaders(identifier, kind, wish);
      outstanding := outstanding[cseq % CSEQ_LIMIT := kind];
      return Some(Request(MethodName(kind), url, 1, 0, headers));
    }

    method HandleSetupAnswer(status: nat, headers: Normalised, portFree: bool) returns (ok: bool)
      modifies this`identifier, this`receiver, this`state
      ensures (Value(), ok) == Adopt(old(Value()), status, headers, portFree)
    {
      if status < 200 || status >= 300 {
        return false;
      }
      if "session" !in headers || "transport" !in headers {
        return false;
      }
      identifier := headers["session"];
      hide T.ReadTransport;
      var parameters := T.ReadTransport(headers["transport"]);
      if !parameters.Agreed? || !portFree {
        return false;
      }
      receiver := Some(Receiver(parameters.port, parameters.ssrc));
      state := Ready;
      return true;
    }

    method HeaderRead(text: string, portFree: bool)
      requires reading
      modifies this
      ensures Value() == ReceiveText(old(Value()), text, portFree)
    {
      hide FilledResponse, Normalize;
      var filled := FilledResponse(text);
      if filled.None? {
        reading := false;
        return;
      }
      var (status, received) := filled.value;
      var headers := NormalizeHeaders(received);
      if "cseq" !in headers {
        reading := false;
        return;
      }
      var cseq := ReadCseq(headers["cseq"]);
      if status < 200 || cseq !in outstanding {
        return;
      }
      if outstanding[cseq] == Setup {
        var ok := HandleSetupAnswer(status, headers, portFree);
        if !ok {
          reading := false;
          return;
        }
      } else {
        state := StateAfter(state, outstanding[cseq]);
      }
      outstanding := outstanding - {cseq};
    }
  }
}
