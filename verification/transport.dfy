/** The Transport header: its grammar and generator, the server's choice, and what the client reads out of it. */
module Transport {
  import opened Wrappers
  import opened Text

  const PORT_LIMIT: nat := 0x1_0000
  const SSRC_LIMIT: nat := 0x1_0000_0000
  /** The least number that takes eight hexadecimal digits. */
  const EIGHT_DIGITS: nat := 0x1000_0000

  /** The channel options' tag, and the name of the header that carries them. */
  const OPTION_NAME: string := "net.markusklemm.options"

  type PortNumber = n: nat | n < 0x1_0000
  type SsrcNumber = n: nat | n < 0x1_0000_0000

  datatype PortType = General | ServerPort | ClientPort

  datatype PortNumbers = Single(number: PortNumber) | Range(first: PortNumber, last: PortNumber)

  datatype Parameter =
    | Ttl(ttl: nat)
    | Port(portType: PortType, numbers: PortNumbers)
    | Ssrc(ssrc: SsrcNumber)
    | Mode(mode: string)
    | Plain(text: string)

  datatype Spec = Spec(protocol: string, profile: string, lower: Option<string>, parameters: seq<Parameter>)

  // ---- grammar ----

  function PortTypeName(t: PortType): string
  {
    match t
    case General => "port"
    case ServerPort => "server_port"
    case ClientPort => "client_port"
  }

  /** The symbol table; no name is a prefix of another. */
  function ParsePortType(s: string): (r: Parsed<PortType>)
    ensures r.Read? ==> |r.rest| <= |s|
  {
    if "port" <= s then Read(General, s[4..])
    else if "server_port" <= s then Read(ServerPort, s[11..])
    else if "client_port" <= s then Read(ClientPort, s[11..])
    else Failed
  }

  function ParseRange(s: string): (r: Parsed<PortNumbers>)
    ensures r.Read? ==> |r.rest| <= |s|
  {
    match Number(s, 10, 1, 5, PORT_LIMIT)
    case Failed => Failed
    case Read(first, s1) =>
      match Literal(s1, "-")
      case Failed => Failed
      case Read(_, s2) =>
        match Number(s2, 10, 1, 5, PORT_LIMIT)
        case Failed => Failed
        case Read(last, s3) =>
          Read(Range(first, last), s3)
  }

  function ParseNumbers(s: string): (r: Parsed<PortNumbers>)
    ensures r.Read? ==> |r.rest| <= |s|
  {
    match ParseRange(s)
    case Read(r, rest) => Read(r, rest)
    case Failed =>
      match Number(s, 10, 1, 5, PORT_LIMIT)
      case Failed => Failed
      case Read(n, rest) => Read(Single(n), rest)
  }

  function ParsePort(s: string): (r: Parsed<Parameter>)
    ensures r.Read? ==> |r.rest| <= |s|
  {
    match ParsePortType(s)
    case Failed => Failed
    case Read(t, s1) =>
      match Literal(s1, "=")
      case Failed => Failed
      case Read(_, s2) =>
        match ParseNumbers(s2)
        case Failed => Failed
        case Read(numbers, rest) => Read(Port(t, numbers), rest)
  }

  function ParseTtl(s: string): (r: Parsed<Parameter>)
    ensures r.Read? ==> |r.rest| <= |s|
  {
    match Literal(s, "ttl=")
    case Failed => Failed
    case Read(_, s1) =>
      match Number(s1, 10, 1, 3, 1000)
      case Failed => Failed
      case Read(n, rest) => Read(Ttl(n), rest)
  }

  /** Exactly eight hexadecimal digits. */
  function ParseSsrc(s: string): (r: Parsed<Parameter>)
    ensures r.Read? ==> |r.rest| <= |s|
  {
    match Literal(s, "ssrc=")
    case Failed => Failed
    case Read(_, s1) =>
      match Number(s1, 16, 8, 8, SSRC_LIMIT)
      case Failed => Failed
      case Read(n, rest) => Read(Ssrc(n), rest)
  }

  predicate IsQuotable(c: char)
  {
    !IsControl(c) && c != '"'
  }

  function ParseMode(s: string): (r: Parsed<Parameter>)
    ensures r.Read? ==> |r.rest| <= |s|
  {
    match Literal(s, "mode=")
    case Failed => Failed
    case Read(_, s1) =>
      match Many(s1, IsToken)
      case Read(v, rest) => Read(Mode(v), rest)
      case Failed =>
        if s1 == "" || s1[0] != '"' then Failed
        else
          match Many(s1[1..], IsQuotable)
          case Failed => Failed
          case Read(v, rest) => if rest != "" && rest[0] == '"' then Read(Mode(v), rest[1..]) else Failed
  }

  function ParsePlain(s: string): (r: Parsed<Parameter>)
    ensures r.Read? ==> |r.rest| <= |s|
  {
    match Many(s, IsToken)
    case Failed => Failed
    case Read(v, rest) => Read(Plain(v), rest)
  }

  /** The alternatives after the semicolon, in the grammar's order. */
  function ParseAlternative(s: string): (r: Parsed<Parameter>)
    ensures r.Read? ==> |r.rest| <= |s|
  {
    if ParseTtl(s).Read? then ParseTtl(s)
    else if ParsePort(s).Read? then ParsePort(s)
    else if ParseSsrc(s).Read? then ParseSsrc(s)
    else if ParseMode(s).Read? then ParseMode(s)
    else ParsePlain(s)
  }

  function ParseParameter(s: string): (r: Parsed<Parameter>)
    ensures r.Read? ==> |r.rest| < |s|
  {
    match Literal(s, ";")
    case Failed => Failed
    case Read(_, rest) => ParseAlternative(rest)
  }

  function ParseParameters(s: string): (r: (seq<Parameter>, string))
    ensures |r.1| <= |s|
    decreases |s|
  {
    match ParseParameter(s)
    case Failed => ([], s)
    case Read(p, rest) =>
      var (ps, end) := ParseParameters(rest);
      ([p] + ps, end)
  }

  /** `-("/" >> lower_transport_)`. */
  function ParseLower(s: string): (r: (Option<string>, string))
    ensures |r.1| <= |s|
  {
    match Literal(s, "/")
    case Failed => (None, s)
    case Read(_, s1) =>
      match Many(s1, IsToken)
      case Failed => (None, s)
      case Read(v, rest) => (Some(v), rest)
  }

  /** Profile, lower transport and parameters of a specification whose protocol is read. */
  function SpecProfile(protocol: string, s: string): (r: Parsed<Spec>)
    ensures r.Read? ==> |r.rest| <= |s|
  {
    match Many(s, IsToken)
    case Failed => Failed
    case Read(profile, s1) =>
      var (lower, s2) := ParseLower(s1);
      var (ps, rest) := ParseParameters(s2);
      Read(Spec(protocol, profile, lower, ps), rest)
  }

  function ParseSpec(s: string): (r: Parsed<Spec>)
    ensures r.Read? ==> |r.rest| < |s|
  {
    match Many(s, IsToken)
    case Failed => Failed
    case Read(protocol, s1) =>
      match Literal(s1, "/")
      case Failed => Failed
      case Read(_, s2) => SpecProfile(protocol, s2)
  }

  /** The further specifications of a list; a comma that no specification follows is left unread. */
  function ParseMore(s: string): (seq<Spec>, string)
    decreases |s|
  {
    match Literal(s, ",")
    case Failed => ([], s)
    case Read(_, s1) =>
      match ParseSpec(s1)
      case Failed => ([], s)
      case Read(spec, s2) =>
        var (more, rest) := ParseMore(s2);
        ([spec] + more, rest)
  }

  /** `transport_grammar`. */
  function ParseTransport(s: string): Parsed<seq<Spec>>
  {
    match ParseSpec(s)
    case Failed => Failed
    case Read(spec, s1) =>
      var (more, rest) := ParseMore(s1);
      Read([spec] + more, rest)
  }

  // ---- generator ----

  function PrintNumbers(numbers: PortNumbers): string
  {
    match numbers
    case Single(n) => Print(n, 10)
    case Range(a, b) => Print(a, 10) + "-" + Print(b, 10)
  }

  function PrintParameter(p: Parameter): string
  {
    ";" + match p
          case Ttl(n) => "ttl=" + Print(n, 10)
          case Port(t, numbers) => PortTypeName(t) + "=" + PrintNumbers(numbers)
          case Ssrc(n) => "ssrc=" + Print(n, 16)
          case Mode(m) => "mode=\"" + m + "\""
          case Plain(t) => t
  }

  function PrintParameters(ps: seq<Parameter>): string
  {
    if ps == [] then "" else PrintParameter(ps[0]) + PrintParameters(ps[1..])
  }

  function PrintSpec(spec: Spec): string
  {
    spec.protocol + "/" + spec.profile
    + (if spec.lower.Some? then "/" + spec.lower.value else "")
    + PrintParameters(spec.parameters)
  }

  // ---- the server's choice ----

  /** `std::find_if` over the parameters. */
  function Find(ps: seq<Parameter>, p: Parameter -> bool): (r: Option<Parameter>)
    ensures r.Some? ==> p(r.value) && r.value in ps
    ensures r.None? ==> forall x :: x in ps ==> !p(x)
  {
    if ps == [] then None
    else if p(ps[0]) then Some(ps[0])
    else Find(ps[1..], p)
  }

  predicate Acceptable(spec: Spec)
  {
    && spec.protocol == "RTP" && spec.profile == "AVP"
    && (spec.lower.None? || spec.lower.value == "UDP")
    && spec.parameters != [] && spec.parameters[0] == Plain("unicast")
  }

  /** The first acceptable specification. */
  function FindSpec(specs: seq<Spec>): (r: Option<Spec>)
    ensures r.Some? ==> r.value in specs && Acceptable(r.value)
    ensures r.None? ==> forall x :: x in specs ==> !Acceptable(x)
  {
    if specs == [] then None
    else if Acceptable(specs[0]) then Some(specs[0])
    else FindSpec(specs[1..])
  }

  predicate IsClientPort(p: Parameter)
  {
    p.Port? && p.portType == ClientPort
  }

  predicate IsServerPort(p: Parameter)
  {
    p.Port? && p.portType == ServerPort
  }

  predicate IsReceiverPort(p: Parameter)
  {
    p.Port? && (p.portType == ClientPort || p.portType == General)
  }

  predicate IsSsrc(p: Parameter)
  {
    p.Ssrc?
  }

  predicate IsUsableSsrc(p: Parameter)
  {
    p.Ssrc? && p.ssrc != 0
  }

  function FirstNumber(numbers: PortNumbers): PortNumber
  {
    match numbers
    case Single(n) => n
    case Range(a, _) => a
  }

  /** The client's own RTP port if it names one (the lower end of a range), else a random one. */
  function ChosenClientPort(ps: seq<Parameter>, randomPort: PortNumber): PortNumber
  {
    match Find(ps, IsClientPort)
    case None => randomPort
    case Some(p) => FirstNumber(p.numbers)
  }

  function ChosenSsrc(ps: seq<Parameter>, randomSsrc: SsrcNumber): SsrcNumber
  {
    match Find(ps, IsUsableSsrc)
    case None => randomSsrc
    case Some(p) => p.ssrc
  }

  /** A requested server port is taken over as it stands, range or not; otherwise two above the client's, in 16 bits. */
  function ChosenServerPort(ps: seq<Parameter>, clientPort: PortNumber): PortNumbers
  {
    match Find(ps, IsServerPort)
    case None => Single((clientPort + 2) % 0x1_0000)
    case Some(p) => p.numbers
  }

  function ChosenSpec(clientPort: PortNumber, ssrc: SsrcNumber, serverPort: PortNumbers): Spec
  {
    Spec("RTP", "AVP", Some("UDP"),
         [Plain("unicast"), Port(ClientPort, Single(clientPort)), Ssrc(ssrc), Port(ServerPort, serverPort)])
  }

  /** `get_acceptable_transport`. */
  method GetAcceptableTransport(requested: seq<Spec>, randomPort: PortNumber, randomSsrc: SsrcNumber)
    returns (r: Option<Spec>)
    ensures r.None? <==> forall s :: s in requested ==>
      !(&& s.protocol == "RTP" && s.profile == "AVP" && (s.lower.Some? ==> s.lower.value == "UDP")
        && |s.parameters| > 0 && s.parameters[0] == Plain("unicast"))
    ensures r == Choose(requested, randomPort, randomSsrc)
  {
    var found := FindSpec(requested);
    if found.None? {
      return None;
    }
    var ps := found.value.parameters;
    var parameters := [Plain("unicast")];
    var parameter := Find(ps, IsClientPort);
    var clientPort := if parameter.None? then randomPort else FirstNumber(parameter.value.numbers);
    parameters := parameters + [Port(ClientPort, Single(clientPort))];
    parameter := Find(ps, IsUsableSsrc);
    if parameter.None? {
      parameters := parameters + [Ssrc(randomSsrc)];
    } else {
      parameters := parameters + [parameter.value];
    }
    parameter := Find(ps, IsServerPort);
    if parameter.None? {
      parameters := parameters + [Port(ServerPort, Single((clientPort + 2) % 0x1_0000))];
    } else {
      parameters := parameters + [parameter.value];
    }
    assert parameters == [parameters[0], parameters[1], parameters[2], parameters[3]];
    return Some(Spec("RTP", "AVP", Some("UDP"), parameters));
  }

  /** Parameters in the order `unicast`, client port, SSRC, server port. */
  predicate FourParameters(spec: Spec)
  {
    |spec.parameters| == 4 && spec.parameters[1].Port? && spec.parameters[2].Ssrc? && spec.parameters[3].Port?
  }

  function Choose(requested: seq<Spec>, randomPort: PortNumber, randomSsrc: SsrcNumber): (r: Option<Spec>)
    ensures r.Some? ==> FourParameters(r.value)
  {
    match FindSpec(requested)
    case None => None
    case Some(spec) =>
      var clientPort := ChosenClientPort(spec.parameters, randomPort);
      Some(ChosenSpec(clientPort, ChosenSsrc(spec.parameters, randomSsrc),
                      ChosenServerPort(spec.parameters, clientPort)))
  }

  // ---- the client's reading ----

  datatype Reading =
    | Agreed(port: PortNumber, ssrc: SsrcNumber)
    | Unparsable
    | NoSpec
    | NoPort
    | NoSsrc

  /** `process_server_transport_header`; unread text after the last specification is ignored. */
  function ReadTransport(text: string): Reading
  {
    match ParseTransport(text)
    case Failed => Unparsable
    case Read(specs, _) =>
      match FindSpec(specs)
      case None => NoSpec
      case Some(spec) => ReadSpec(spec.parameters)
  }

  function ReadSpec(ps: seq<Parameter>): Reading
  {
    match Find(ps, IsReceiverPort)
    case None => NoPort
    case Some(port) =>
      match Find(ps, IsSsrc)
      case None => NoSsrc
      case Some(ssrc) => Agreed(FirstNumber(port.numbers), ssrc.ssrc)
  }

  // ---- printed parameters parse back ----

  /** The end of the text, the next parameter or the next specification. */
  predicate AtBreak(rest: string)
  {
    rest == "" || rest[0] == ';' || rest[0] == ','
  }

  lemma {:induction false} OtherStart(s: string, literal: string)
    requires s != "" && literal != "" && s[0] != literal[0]
    ensures Literal(s, literal) == Failed
  {
  }

  lemma {:induction false} UnicastExact(rest: string)
    requires AtBreak(rest)
    ensures ParseAlternative("unicast" + rest) == Read(Plain("unicast"), rest)
  {
    var s := "unicast" + rest;
    assert s[0] == 'u';
    WordIsToken("unicast");
    ManyExact("unicast", rest, IsToken);
    OtherStart(s, "ttl=");
    OtherStart(s, "ssrc=");
    OtherStart(s, "mode=");
    hide Many, Literal;
  }

  lemma {:induction false} PrintedPort(n: PortNumber)
    ensures 1 <= |Print(n, 10)| <= 5
  {
    PrintedLength(n, 10, 5);
    assert Power(10, 5) == 100000;
  }

  lemma {:induction false} NumbersExact(n: PortNumber, rest: string)
    requires AtBreak(rest)
    ensures ParseNumbers(Print(n, 10) + rest) == Read(Single(n), rest)
  {
    PrintedPort(n);
    assert rest != "" ==> !DigitIn(10, rest[0]);
    NumberExact(n, 10, 1, 5, PORT_LIMIT, rest);
    hide Number, Print;
  }

  lemma {:induction false} PortTypeExact(t: PortType, rest: string)
    ensures ParsePortType(PortTypeName(t) + rest) == Read(t, rest)
  {
    var s := PortTypeName(t) + rest;
    assert s[..|PortTypeName(t)|] == PortTypeName(t);
    assert s[0] == PortTypeName(t)[0];
  }

  lemma {:induction false} PortExact(t: PortType, n: PortNumber, rest: string)
    requires AtBreak(rest)
    ensures ParseAlternative(PortTypeName(t) + ("=" + (Print(n, 10) + rest))) == Read(Port(t, Single(n)), rest)
  {
    var s := PortTypeName(t) + ("=" + (Print(n, 10) + rest));
    assert s[0] == PortTypeName(t)[0];
    OtherStart(s, "ttl=");
    PortTypeExact(t, "=" + (Print(n, 10) + rest));
    LiteralExact("=", Print(n, 10) + rest);
    NumbersExact(n, rest);
    hide ParseNumbers, ParsePortType, PortTypeName, Print;
  }

  lemma {:induction false} PrintedSsrc(n: SsrcNumber)
    ensures |Print(n, 16)| <= 8
    ensures |Print(n, 16)| == 8 <==> n >= EIGHT_DIGITS
  {
    PrintedLength(n, 16, 8);
    PrintedLength(n, 16, 7);
    assert Power(16, 7) == EIGHT_DIGITS && Power(16, 8) == SSRC_LIMIT;
  }

  lemma {:induction false} NotAnotherKind(s: string)
    requires "ssrc=" <= s
    ensures ParseTtl(s) == Failed && ParsePort(s) == Failed && ParseMode(s) == Failed
  {
    assert s[0] == 's' && s[1] == 's';
    OtherStart(s, "ttl=");
    OtherStart(s, "mode=");
    assert ParsePortType(s) == Failed;
  }

  lemma {:induction false} SsrcExact(n: SsrcNumber, rest: string)
    requires AtBreak(rest) && n >= EIGHT_DIGITS
    ensures ParseAlternative("ssrc=" + (Print(n, 16) + rest)) == Read(Ssrc(n), rest)
  {
    var s := "ssrc=" + (Print(n, 16) + rest);
    PrintedSsrc(n);
    LiteralExact("ssrc=", Print(n, 16) + rest);
    assert rest != "" ==> !DigitIn(16, rest[0]);
    NumberExact(n, 16, 8, 8, SSRC_LIMIT, rest);
    NotAnotherKind(s);
    hide ParseTtl, ParsePort, ParseMode, Number, Print;
  }

  lemma {:induction false} SsrcFails(n: SsrcNumber, rest: string)
    requires AtBreak(rest) && n < EIGHT_DIGITS
    ensures ParseSsrc("ssrc=" + (Print(n, 16) + rest)) == Failed
  {
    PrintedSsrc(n);
    LiteralExact("ssrc=", Print(n, 16) + rest);
    assert rest != "" ==> !DigitIn(16, rest[0]);
    NumberTooShort(n, 16, 8, 8, SSRC_LIMIT, rest);
    hide Number, Print;
  }

  lemma {:induction false} BareToken(digits: string)
    ensures ParsePlain("ssrc=" + digits) == Read(Plain("ssrc"), "=" + digits)
  {
    assert "ssrc=" + digits == "ssrc" + ("=" + digits);
    WordIsToken("ssrc");
    ManyExact("ssrc", "=" + digits, IsToken);
    hide Many;
  }

  /** A shorter SSRC is taken for a bare token, and everything from the equals sign on stays unread. */
  lemma {:induction false} ShortSsrc(n: SsrcNumber, rest: string)
    requires AtBreak(rest) && n < EIGHT_DIGITS
    ensures ParseAlternative("ssrc=" + (Print(n, 16) + rest)) == Read(Plain("ssrc"), "=" + (Print(n, 16) + rest))
  {
    SsrcFails(n, rest);
    BareToken(Print(n, 16) + rest);
    hide ParseTtl, ParsePort, ParseMode, ParseSsrc, ParsePlain, Print;
    NotAnotherKind("ssrc=" + (Print(n, 16) + rest));
  }

  /** One parameter off the front. */
  lemma {:induction false} TakeParameter(s: string, p: Parameter, rest: string)
    requires ParseAlternative(s) == Read(p, rest)
    ensures ParseParameters(";" + s) == ([p] + ParseParameters(rest).0, ParseParameters(rest).1)
  {
    LiteralExact(";", s);
    hide ParseAlternative;
  }

  lemma {:induction false} NoParameter(s: string)
    requires s == "" || s[0] != ';'
    ensures ParseParameters(s) == ([], s)
  {
  }

  function ServerPortText(port: PortNumber): string
  {
    ";" + ("server_port" + ("=" + (Print(port, 10) + "")))
  }

  function SsrcText(ssrc: SsrcNumber, port: PortNumber): string
  {
    ";" + ("ssrc=" + (Print(ssrc, 16) + ServerPortText(port)))
  }

  function ParametersText(clientPort: PortNumber, ssrc: SsrcNumber, port: PortNumber): string
  {
    ";" + ("unicast" + ClientPortText(clientPort, SsrcText(ssrc, port)))
  }

  lemma {:induction false} ServerPortTextParses(port: PortNumber)
    ensures ParseParameters(ServerPortText(port)) == ([Port(ServerPort, Single(port))], "")
  {
    PortExact(ServerPort, port, "");
    TakeParameter("server_port" + ("=" + (Print(port, 10) + "")), Port(ServerPort, Single(port)), "");
    NoParameter("");
    hide ParseParameters, ParseAlternative, Print;
    assert [Port(ServerPort, Single(port))] + [] == [Port(ServerPort, Single(port))];
  }

  lemma {:induction false} LongSsrcTextParses(ssrc: SsrcNumber, port: PortNumber)
    requires ssrc >= EIGHT_DIGITS
    ensures ParseParameters(SsrcText(ssrc, port)) == ([Ssrc(ssrc), Port(ServerPort, Single(port))], "")
  {
    var tail := ServerPortText(port);
    assert tail[0] == ';';
    hide ParseParameters, ParseAlternative, Print, ServerPortText;
    SsrcExact(ssrc, tail);
    TakeParameter("ssrc=" + (Print(ssrc, 16) + tail), Ssrc(ssrc), tail);
    ServerPortTextParses(port);
    assert [Ssrc(ssrc)] + [Port(ServerPort, Single(port))] == [Ssrc(ssrc), Port(ServerPort, Single(port))];
  }

  lemma {:induction false} ShortSsrcTextParses(ssrc: SsrcNumber, port: PortNumber)
    requires ssrc < EIGHT_DIGITS
    ensures ParseParameters(SsrcText(ssrc, port)) == ([Plain("ssrc")], "=" + (Print(ssrc, 16) + ServerPortText(port)))
  {
    var tail := ServerPortText(port);
    assert tail[0] == ';';
    hide ParseParameters, ParseAlternative, Print, ServerPortText;
    ShortSsrc(ssrc, tail);
    var unread := "=" + (Print(ssrc, 16) + tail);
    TakeParameter("ssrc=" + (Print(ssrc, 16) + tail), Plain("ssrc"), unread);
    NoParameter(unread);
    assert [Plain("ssrc")] + [] == [Plain("ssrc")];
  }

  function ClientPortText(clientPort: PortNumber, tail: string): string
  {
    ";" + ("client_port" + ("=" + (Print(clientPort, 10) + tail)))
  }

  lemma {:induction false} ClientPortTextParses(clientPort: PortNumber, tail: string)
    requires AtBreak(tail)
    ensures ParseParameters(ClientPortText(clientPort, tail))
         == ([Port(ClientPort, Single(clientPort))] + ParseParameters(tail).0, ParseParameters(tail).1)
  {
    hide ParseParameters, ParseAlternative, Print;
    PortExact(ClientPort, clientPort, tail);
    TakeParameter("client_port" + ("=" + (Print(clientPort, 10) + tail)), Port(ClientPort, Single(clientPort)), tail);
  }

  lemma {:induction false} ParametersTextParses(clientPort: PortNumber, ssrc: SsrcNumber, port: PortNumber)
    ensures var (ps, rest) := ParseParameters(SsrcText(ssrc, port));
      ParseParameters(ParametersText(clientPort, ssrc, port))
        == ([Plain("unicast"), Port(ClientPort, Single(clientPort))] + ps, rest)
  {
    var tail := SsrcText(ssrc, port);
    var second := ClientPortText(clientPort, tail);
    assert tail[0] == ';' && second[0] == ';';
    hide ParseParameters, ParseAlternative, SsrcText, Print;
    ClientPortTextParses(clientPort, tail);
    UnicastExact(second);
    TakeParameter("unicast" + second, Plain("unicast"), second);
    assert [Plain("unicast")] + ([Port(ClientPort, Single(clientPort))] + ParseParameters(tail).0)
        == [Plain("unicast"), Port(ClientPort, Single(clientPort))] + ParseParameters(tail).0;
  }

  lemma {:induction false} PrintedChoice(clientPort: PortNumber, ssrc: SsrcNumber, port: PortNumber)
    ensures var ps := ChosenSpec(clientPort, ssrc, Single(port)).parameters;
      PrintParameters(ps) == PrintParameter(ps[0]) + (PrintParameter(ps[1]) + (PrintParameter(ps[2]) + PrintParameter(ps[3])))
  {
    var ps := ChosenSpec(clientPort, ssrc, Single(port)).parameters;
    hide PrintParameter;
    assert ps[1..] == [ps[1], ps[2], ps[3]] && [ps[1], ps[2], ps[3]][1..] == [ps[2], ps[3]];
    assert [ps[2], ps[3]][1..] == [ps[3]];
    assert PrintParameters([ps[3]]) == PrintParameter(ps[3]) + PrintParameters([ps[3]][1..]) == PrintParameter(ps[3]);
    assert PrintParameters([ps[2], ps[3]]) == PrintParameter(ps[2]) + PrintParameters([ps[3]]);
  }

  lemma {:induction false} ChosenParametersText(clientPort: PortNumber, ssrc: SsrcNumber, port: PortNumber)
    ensures PrintParameters(ChosenSpec(clientPort, ssrc, Single(port)).parameters) == ParametersText(clientPort, ssrc, port)
  {
    PrintedChoice(clientPort, ssrc, port);
    hide Print, PrintParameters;
    var p, s, q := Print(clientPort, 10), Print(ssrc, 16), Print(port, 10);
    Regrouped(p, s, q);
  }

  lemma {:induction false} Regrouped(p: string, s: string, q: string)
    ensures (";" + "unicast") + ((";" + ("client_port" + "=" + p)) + ((";" + ("ssrc=" + s)) + (";" + ("server_port" + "=" + q))))
         == ";" + ("unicast" + (";" + ("client_port" + ("=" + (p + (";" + ("ssrc=" + (s + (";" + ("server_port" + ("=" + (q + ""))))))))))))
  {
  }

  lemma {:induction false} ChosenText(clientPort: PortNumber, ssrc: SsrcNumber, port: PortNumber)
    ensures PrintSpec(ChosenSpec(clientPort, ssrc, Single(port)))
         == "RTP" + ("/" + ("AVP" + ("/" + ("UDP" + ParametersText(clientPort, ssrc, port)))))
  {
    ChosenParametersText(clientPort, ssrc, port);
    hide PrintParameters, ParametersText;
  }

  lemma {:induction false} TokenWord(word: string, rest: string)
    requires word == "RTP" || word == "AVP" || word == "UDP"
    requires rest != "" && (rest[0] == '/' || rest[0] == ';')
    ensures Many(word + rest, IsToken) == Read(word, rest)
  {
    WordIsToken(word);
    ManyExact(word, rest, IsToken);
    hide Many;
  }

  lemma {:induction false} LowerParses(s: string)
    requires s != "" && s[0] == ';'
    ensures ParseLower("/" + ("UDP" + s)) == (Some("UDP"), s)
  {
    LiteralExact("/", "UDP" + s);
    TokenWord("UDP", s);
    hide Many, Literal;
  }

  lemma {:induction false} ProfileParses(s: string)
    requires s != "" && s[0] == ';'
    ensures ParseSpec("RTP" + ("/" + ("AVP" + ("/" + ("UDP" + s)))))
         == Read(Spec("RTP", "AVP", Some("UDP"), ParseParameters(s).0), ParseParameters(s).1)
  {
    var s2 := "AVP" + ("/" + ("UDP" + s));
    TokenWord("RTP", "/" + s2);
    LiteralExact("/", s2);
    TokenWord("AVP", "/" + ("UDP" + s));
    LowerParses(s);
    hide Many, ParseParameters, Literal, ParseLower;
  }

  lemma {:induction false} ReadsChoice(clientPort: PortNumber, ssrc: SsrcNumber, port: PortNumber)
    ensures ReadTransport(PrintSpec(ChosenSpec(clientPort, ssrc, Single(port))))
         == ReadSpec([Plain("unicast"), Port(ClientPort, Single(clientPort))] + ParseParameters(SsrcText(ssrc, port)).0)
  {
    var text := ParametersText(clientPort, ssrc, port);
    assert text[0] == ';';
    ChosenText(clientPort, ssrc, port);
    ProfileParses(text);
    ParametersTextParses(clientPort, ssrc, port);
    hide ParseParameters, ParseSpec, PrintSpec, ParametersText, SsrcText, ReadTransport, ReadSpec;
    ReadsFirstSpec(PrintSpec(ChosenSpec(clientPort, ssrc, Single(port))), ParseParameters(text).0,
                   ParseParameters(text).1);
  }

  lemma {:induction false} ReadsFirstSpec(text: string, ps: seq<Parameter>, rest: string)
    requires ParseSpec(text) == Read(Spec("RTP", "AVP", Some("UDP"), ps), rest)
    requires ps != [] && ps[0] == Plain("unicast")
    ensures ReadTransport(text) == ReadSpec(ps)
  {
    hide ParseSpec, ParseMore, ReadSpec;
  }

  /**
   * What the client reads out of the server's choice: its own port and SSRC as given to the server's sender, exactly
   * when the SSRC takes eight hexadecimal digits; otherwise it finds no SSRC.
   */
  lemma {:induction false} NegotiationAgreesIff(clientPort: PortNumber, ssrc: SsrcNumber, port: PortNumber)
    ensures ReadTransport(PrintSpec(ChosenSpec(clientPort, ssrc, Single(port))))
         == if ssrc >= EIGHT_DIGITS then Agreed(clientPort, ssrc) else NoSsrc
  {
    ReadsChoice(clientPort, ssrc, port);
    hide ParseParameters, PrintSpec, SsrcText, ReadTransport;
    if ssrc >= EIGHT_DIGITS {
      LongSsrcTextParses(ssrc, port);
      AgreedParameters(clientPort, ssrc, port);
    } else {
      ShortSsrcTextParses(ssrc, port);
      SsrcMissing(clientPort);
    }
  }

  lemma {:induction false} AgreedParameters(clientPort: PortNumber, ssrc: SsrcNumber, port: PortNumber)
    ensures ReadSpec([Plain("unicast"), Port(ClientPort, Single(clientPort))] + [Ssrc(ssrc), Port(ServerPort, Single(port))])
         == Agreed(clientPort, ssrc)
  {
    var ps := [Plain("unicast"), Port(ClientPort, Single(clientPort))] + [Ssrc(ssrc), Port(ServerPort, Single(port))];
    assert ps[1..][0] == ps[1] && ps[1..][1..][0] == ps[2];
    assert Find(ps, IsReceiverPort) == Find(ps[1..], IsReceiverPort) == Some(ps[1]);
    assert Find(ps, IsSsrc) == Find(ps[1..], IsSsrc) == Find(ps[1..][1..], IsSsrc) == Some(ps[2]);
  }

  lemma {:induction false} SsrcMissing(clientPort: PortNumber)
    ensures ReadSpec([Plain("unicast"), Port(ClientPort, Single(clientPort))] + [Plain("ssrc")]) == NoSsrc
  {
    var ps := [Plain("unicast"), Port(ClientPort, Single(clientPort))] + [Plain("ssrc")];
    assert ps[1..][0] == ps[1];
    assert Find(ps, IsReceiverPort) == Find(ps[1..], IsReceiverPort) == Some(ps[1]);
    assert Find(ps, IsSsrc).None?;
  }

  // ---- the client's own request ----

  /** The specification `setup` asks for. */
  function ClientSpec(port: PortNumber): Spec
  {
    Spec("RTP", "AVP", Some("UDP"), [Plain("unicast"), Port(ClientPort, Single(port))])
  }

  function ClientParametersText(port: PortNumber): string
  {
    ";" + ("unicast" + ClientPortText(port, ""))
  }

  lemma {:induction false} ClientParametersParse(port: PortNumber)
    ensures ParseParameters(ClientParametersText(port)) == (ClientSpec(port).parameters, "")
  {
    var second := ClientPortText(port, "");
    assert second[0] == ';';
    hide ParseParameters, ParseAlternative, Print;
    NoParameter("");
    ClientPortTextParses(port, "");
    assert [Port(ClientPort, Single(port))] + [] == [Port(ClientPort, Single(port))];
    UnicastExact(second);
    TakeParameter("unicast" + second, Plain("unicast"), second);
    assert [Plain("unicast")] + [Port(ClientPort, Single(port))] == ClientSpec(port).parameters;
  }

  lemma {:induction false} ClientText(port: PortNumber)
    ensures PrintSpec(ClientSpec(port)) == "RTP" + ("/" + ("AVP" + ("/" + ("UDP" + ClientParametersText(port)))))
  {
    var ps := ClientSpec(port).parameters;
    hide Print;
    assert ps[1..] == [ps[1]];
    assert PrintParameters([ps[1]]) == PrintParameter(ps[1]) + PrintParameters([ps[1]][1..]) == PrintParameter(ps[1]);
    assert PrintParameters(ps) == PrintParameter(ps[0]) + PrintParameter(ps[1]);
    assert PrintParameters(ps) == ClientParametersText(port);
    hide PrintParameters, ClientParametersText;
  }

  lemma {:induction false} NothingMore()
    ensures ParseMore("") == ([], "")
  {
    hide ParseSpec;
  }

  lemma {:induction false} SingleSpec(text: string, spec: Spec)
    requires ParseSpec(text) == Read(spec, "")
    ensures ParseTransport(text) == Read([spec], "")
  {
    hide ParseSpec, ParseMore;
    NothingMore();
    assert [spec] + [] == [spec];
  }

  /** The server reads exactly what the client asked for, to the end of the header. */
  lemma {:induction false} ClientRequestParses(port: PortNumber)
    ensures ParseTransport(PrintSpec(ClientSpec(port))) == Read([ClientSpec(port)], "")
  {
    ClientText(port);
    ClientParametersParse(port);
    assert ClientParametersText(port)[0] == ';';
    ProfileParses(ClientParametersText(port));
    hide ParseSpec, PrintSpec, ClientParametersText, ParseParameters, ParseTransport;
    SingleSpec(PrintSpec(ClientSpec(port)), ClientSpec(port));
  }

  /** A whole negotiation: the port the client asked for and the server's SSRC arrive, iff the SSRC has eight digits. */
  lemma {:induction false} WholeNegotiation(port: PortNumber, randomPort: PortNumber, randomSsrc: SsrcNumber)
    ensures ParseTransport(PrintSpec(ClientSpec(port))).Read?
    ensures var chosen := Choose(ParseTransport(PrintSpec(ClientSpec(port))).value, randomPort, randomSsrc);
      && chosen == Some(ChosenSpec(port, randomSsrc, Single((port + 2) % 0x1_0000)))
      && ReadTransport(PrintSpec(chosen.value))
         == if randomSsrc >= EIGHT_DIGITS then Agreed(port, randomSsrc) else NoSsrc
  {
    ClientRequestParses(port);
    NegotiationAgreesIff(port, randomSsrc, (port + 2) % 0x1_0000);
    ChoiceForClient(port, randomPort, randomSsrc);
    hide ParseTransport, PrintSpec, Choose, ReadTransport;
  }

  lemma {:induction false} ChoiceForClient(port: PortNumber, randomPort: PortNumber, randomSsrc: SsrcNumber)
    ensures Choose([ClientSpec(port)], randomPort, randomSsrc)
         == Some(ChosenSpec(port, randomSsrc, Single((port + 2) % 0x1_0000)))
  {
    var ps := ClientSpec(port).parameters;
    assert FindSpec([ClientSpec(port)]) == Some(ClientSpec(port));
    assert ps[1..][0] == ps[1];
    assert Find(ps, IsClientPort) == Find(ps[1..], IsClientPort) == Some(ps[1]);
    assert Find(ps, IsUsableSsrc).None?;
    assert Find(ps, IsServerPort).None?;
  }
}
