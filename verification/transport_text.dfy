/** Printed Transport headers parse back, whatever they ask for; and what the parsed ones make of the server's choice. */
module TransportText {
  import opened Wrappers
  import opened Text
  import opened Transport

  predicate IsWordText(s: string)
  {
    s != "" && All(s, IsToken)
  }

  /** What a parameter may hold for its text to be readable at all; an SSRC may be any. */
  predicate Writable(p: Parameter)
  {
    match p
    case Ttl(n) => n < 1000
    case Port(_, _) => true
    case Ssrc(_) => true
    case Mode(m) => m != "" && All(m, IsQuotable)
    case Plain(t) => IsWordText(t)
  }

  predicate AllWritable(ps: seq<Parameter>)
  {
    forall i :: 0 <= i < |ps| ==> Writable(ps[i])
  }

  predicate LongSsrcs(ps: seq<Parameter>)
  {
    forall i :: 0 <= i < |ps| && ps[i].Ssrc? ==> ps[i].ssrc >= EIGHT_DIGITS
  }

  predicate WritableSpec(spec: Spec)
  {
    && IsWordText(spec.protocol) && IsWordText(spec.profile) && (spec.lower.Some? ==> IsWordText(spec.lower.value))
    && AllWritable(spec.parameters)
  }

  // ---- one parameter ----

  lemma {:induction false} BreakStopsToken(rest: string)
    requires AtBreak(rest)
    ensures StopsAt(rest, IsToken)
  {
  }

  lemma {:induction false} TtlExact(n: nat, rest: string)
    requires n < 1000 && AtBreak(rest)
    ensures ParseAlternative("ttl=" + (Print(n, 10) + rest)) == Read(Ttl(n), rest)
  {
    PrintedLength(n, 10, 3);
    assert Power(10, 3) == 1000;
    LiteralExact("ttl=", Print(n, 10) + rest);
    assert rest != "" ==> !DigitIn(10, rest[0]);
    NumberExact(n, 10, 1, 3, 1000, rest);
    hide Number, Print;
  }

  lemma {:induction false} RangeExact(a: PortNumber, b: PortNumber, rest: string)
    requires AtBreak(rest)
    ensures ParseNumbers(Print(a, 10) + ("-" + (Print(b, 10) + rest))) == Read(Range(a, b), rest)
  {
    PrintedPort(a);
    PrintedPort(b);
    assert rest != "" ==> !DigitIn(10, rest[0]);
    var tail := "-" + (Print(b, 10) + rest);
    assert !DigitIn(10, tail[0]);
    NumberExact(a, 10, 1, 5, PORT_LIMIT, tail);
    LiteralExact("-", Print(b, 10) + rest);
    NumberExact(b, 10, 1, 5, PORT_LIMIT, rest);
    hide Number, Print, Literal;
  }

  lemma {:induction false} AnyNumbersExact(numbers: PortNumbers, rest: string)
    requires AtBreak(rest)
    ensures ParseNumbers(PrintNumbers(numbers) + rest) == Read(numbers, rest)
  {
    hide ParseNumbers, Print;
    match numbers
    case Single(n) => NumbersExact(n, rest);
    case Range(a, b) =>
      RangeExact(a, b, rest);
      Dashed(Print(a, 10), Print(b, 10), rest);
  }

  lemma {:induction false} Dashed(a: string, b: string, rest: string)
    ensures (a + "-" + b) + rest == a + ("-" + (b + rest))
  {
  }

  lemma {:induction false} AnyPortExact(t: PortType, numbers: PortNumbers, rest: string)
    requires AtBreak(rest)
    ensures ParseAlternative(PortTypeName(t) + ("=" + (PrintNumbers(numbers) + rest))) == Read(Port(t, numbers), rest)
  {
    AnyPortIsRead(t, numbers, rest);
    NoTtl(t, "=" + (PrintNumbers(numbers) + rest));
    hide ParsePort, ParseTtl, PortTypeName, PrintNumbers;
  }

  lemma {:induction false} NoTtl(t: PortType, rest: string)
    ensures ParseTtl(PortTypeName(t) + rest) == Failed
  {
    var s := PortTypeName(t) + rest;
    assert s[0] == PortTypeName(t)[0];
    OtherStart(s, "ttl=");
    hide Literal;
  }

  lemma {:induction false} AnyPortIsRead(t: PortType, numbers: PortNumbers, rest: string)
    requires AtBreak(rest)
    ensures ParsePort(PortTypeName(t) + ("=" + (PrintNumbers(numbers) + rest))) == Read(Port(t, numbers), rest)
  {
    PortTypeExact(t, "=" + (PrintNumbers(numbers) + rest));
    LiteralExact("=", PrintNumbers(numbers) + rest);
    AnyNumbersExact(numbers, rest);
    hide ParseNumbers, ParsePortType, PortTypeName, PrintNumbers, Literal;
  }

  lemma {:induction false} QuotedModeExact(m: string, rest: string)
    requires m != "" && All(m, IsQuotable)
    ensures ParseMode("mode=\"" + (m + ("\"" + rest))) == Read(Mode(m), rest)
  {
    var quoted := "\"" + (m + ("\"" + rest));
    Keyword(quoted);
    QuotedStart(m, rest);
    Unquoted(m, rest);
    hide Literal, IsToken, IsControl, Many, All, IsQuotable;
  }

  lemma {:induction false} Keyword(quoted: string)
    requires quoted != ""
    ensures Literal("mode=" + quoted, "mode=") == Read((), quoted)
    ensures quoted[0] == '"' ==> "mode=" + quoted == "mode=\"" + quoted[1..] && Many(quoted, IsToken) == Failed
  {
    LiteralExact("mode=", quoted);
    hide Literal;
    if quoted[0] == '"' {
      NoTokens(quoted);
      assert "mode=\"" == "mode=" + "\"";
      Moved("mode=", quoted);
    }
    hide Many;
  }

  lemma {:induction false} NoTokens(s: string)
    requires s != "" && s[0] == '"'
    ensures Many(s, IsToken) == Failed
  {
    assert !IsToken(s[0]);
  }

  lemma {:induction false} Moved(a: string, s: string)
    requires s != ""
    ensures a + s == (a + [s[0]]) + s[1..]
  {
  }

  lemma {:induction false} QuotedStart(m: string, rest: string)
    ensures var quoted := "\"" + (m + ("\"" + rest)); quoted[0] == '"' && quoted[1..] == m + ("\"" + rest)
    ensures ("\"" + rest)[0] == '"' && ("\"" + rest)[1..] == rest
  {
  }

  lemma {:induction false} Unquoted(m: string, rest: string)
    requires m != "" && All(m, IsQuotable)
    ensures Many(m + ("\"" + rest), IsQuotable) == Read(m, "\"" + rest)
  {
    assert !IsQuotable(("\"" + rest)[0]);
    ManyExact(m, "\"" + rest, IsQuotable);
    hide Many;
  }

  lemma {:induction false} ModeExact(m: string, rest: string)
    requires m != "" && All(m, IsQuotable)
    ensures ParseAlternative("mode=\"" + (m + ("\"" + rest))) == Read(Mode(m), rest)
  {
    var s := "mode=\"" + (m + ("\"" + rest));
    assert s[0] == 'm';
    OtherStart(s, "ttl=");
    OtherStart(s, "ssrc=");
    QuotedModeExact(m, rest);
    hide ParseMode, Literal;
  }

  /** No other alternative takes a bare token: all of them need an equals sign behind their keyword. */
  lemma {:induction false} NoKeyword(t: string, rest: string, keyword: string)
    requires All(t, IsToken) && AtBreak(rest)
    requires All(keyword, IsWord) || All(keyword, c => IsWord(c) || c == '_')
    ensures Literal(t + rest, keyword + "=") == Failed
  {
    var s, k, literal := t + rest, |keyword|, keyword + "=";
    if k < |t| {
      assert IsToken(t[k]);
      Differs(literal, s, k);
    } else if |s| > k {
      Differs(literal, s, |t|);
    }
  }

  lemma {:induction false} Differs(a: string, b: string, j: nat)
    requires j < |a| && j < |b| && a[j] != b[j]
    ensures !(a <= b)
  {
  }

  lemma {:induction false} NoPort(t: string, rest: string)
    requires All(t, IsToken) && AtBreak(rest)
    ensures ParsePort(t + rest) == Failed
  {
    NoKeyword(t, rest, "port");
    NoKeyword(t, rest, "server_port");
    NoKeyword(t, rest, "client_port");
    hide All, AtBreak, ParseNumbers;
    hide Literal, PortTypeName, ParsePort;
    NoEquals(t + rest);
  }

  lemma {:induction false} NoEquals(s: string)
    requires forall k :: Literal(s, PortTypeName(k) + "=") == Failed
    ensures ParsePort(s) == Failed
  {
    if ParsePortType(s).Read? {
      NameRead(s);
      NoEqualsBehind(s, PortTypeName(ParsePortType(s).value), ParsePortType(s).rest);
    }
    hide ParseNumbers, ParsePortType, PortTypeName;
  }

  lemma {:induction false} NoEqualsBehind(s: string, name: string, rest: string)
    requires s == name + rest && Literal(s, name + "=") == Failed
    ensures Literal(rest, "=") == Failed
  {
    if rest != "" {
      assert s[..|name| + 1] == name + [rest[0]];
    }
  }

  lemma {:induction false} NameRead(s: string)
    requires ParsePortType(s).Read?
    ensures s == PortTypeName(ParsePortType(s).value) + ParsePortType(s).rest
  {
  }

  lemma {:induction false} PlainExact(t: string, rest: string)
    requires IsWordText(t) && AtBreak(rest)
    ensures ParseAlternative(t + rest) == Read(Plain(t), rest)
  {
    NoKeyword(t, rest, "ttl");
    NoKeyword(t, rest, "ssrc");
    NoKeyword(t, rest, "mode");
    assert "ttl" + "=" == "ttl=" && "ssrc" + "=" == "ssrc=" && "mode" + "=" == "mode=";
    NoPort(t, rest);
    BreakStopsToken(rest);
    ManyExact(t, rest, IsToken);
    hide Many, Literal, ParsePort, IsToken;
  }

  /** Any parameter but a short SSRC comes back; that one is taken for the bare token `ssrc`. */
  lemma {:induction false} ParameterRoundTrip(p: Parameter, rest: string)
    requires Writable(p) && AtBreak(rest)
    ensures var s := PrintParameter(p)[1..] + rest;
      if p.Ssrc? && p.ssrc < EIGHT_DIGITS then
        ParseAlternative(s) == Read(Plain("ssrc"), "=" + (Print(p.ssrc, 16) + rest))
      else ParseAlternative(s) == Read(p, rest)
  {
    TextOf(p, rest);
    hide ParseAlternative, Print, PrintNumbers, IsToken, IsQuotable, PortTypeName, PrintParameter;
    match p
    case Ttl(n) => TtlExact(n, rest);
    case Port(t, numbers) => AnyPortExact(t, numbers, rest);
    case Ssrc(n) =>
      if n >= EIGHT_DIGITS {
        SsrcExact(n, rest);
      } else {
        ShortSsrc(n, rest);
      }
    case Mode(m) => ModeExact(m, rest);
    case Plain(t) => PlainExact(t, rest);
  }

  lemma {:induction false} TextOf(p: Parameter, rest: string)
    ensures PrintParameter(p)[1..] + rest == match p
      case Ttl(n) => "ttl=" + (Print(n, 10) + rest)
      case Port(t, numbers) => PortTypeName(t) + ("=" + (PrintNumbers(numbers) + rest))
      case Ssrc(n) => "ssrc=" + (Print(n, 16) + rest)
      case Mode(m) => "mode=\"" + (m + ("\"" + rest))
      case Plain(t) => t + rest
  {
    hide Print, PrintNumbers, PortTypeName;
    match p
    case Ttl(n) => Behind("ttl=" + Print(n, 10));
    case Port(t, numbers) => Behind(PortTypeName(t) + "=" + PrintNumbers(numbers));
    case Ssrc(n) => Behind("ssrc=" + Print(n, 16));
    case Mode(m) => Behind("mode=\"" + m + "\"");
    case Plain(t) => Behind(t);
  }

  lemma {:induction false} Behind(s: string)
    ensures (";" + s)[1..] == s
  {
  }

  // ---- parameters ----

  /** The end of a specification's text. */
  predicate AtComma(rest: string)
  {
    rest == "" || rest[0] == ','
  }

  lemma {:induction false} PrintedStart(ps: seq<Parameter>, rest: string)
    requires AtComma(rest)
    ensures AtBreak(PrintParameters(ps) + rest)
    ensures ps != [] ==> (PrintParameters(ps) + rest)[0] == ';'
    ensures ps == [] ==> PrintParameters(ps) + rest == rest
  {
    if ps != [] {
      assert PrintParameter(ps[0])[0] == ';';
    }
  }

  lemma {:induction false} SemicolonFirst(p: Parameter)
    ensures PrintParameter(p) == ";" + PrintParameter(p)[1..]
  {
  }

  lemma {:induction false} TakeOff(ps: seq<Parameter>, rest: string)
    requires ps != []
    ensures PrintParameters(ps) + rest == ";" + (PrintParameter(ps[0])[1..] + (PrintParameters(ps[1..]) + rest))
  {
    var p := PrintParameter(ps[0]);
    SemicolonFirst(ps[0]);
    hide PrintParameter;
    assert PrintParameters(ps) == p + PrintParameters(ps[1..]);
    hide PrintParameters;
  }

  /** The parameters come back iff no SSRC among them is short. */
  lemma {:induction false} ParametersRoundTrip(ps: seq<Parameter>, rest: string)
    requires AllWritable(ps) && AtComma(rest)
    ensures ParseParameters(PrintParameters(ps) + rest) == (ps, rest) <==> LongSsrcs(ps)
  {
    if ps == [] {
      assert PrintParameters(ps) + rest == rest;
      NoParameter(rest);
    } else {
      var tail, p := PrintParameters(ps[1..]) + rest, ps[0];
      var s := PrintParameter(p)[1..] + tail;
      TakeOff(ps, rest);
      PrintedStart(ps[1..], rest);
      ParametersRoundTrip(ps[1..], rest);
      ParameterRoundTrip(p, tail);
      LongTail(ps);
      hide ParseParameters, PrintParameters, PrintParameter, ParseAlternative, Print, AllWritable;
      if p.Ssrc? && p.ssrc < EIGHT_DIGITS {
        TakeParameter(s, Plain("ssrc"), "=" + (Print(p.ssrc, 16) + tail));
      } else {
        TakeParameter(s, p, tail);
        var found := ParseParameters(tail).0;
        assert ([p] + found)[1..] == found;
        assert ps == [p] + ps[1..];
      }
    }
  }

  lemma {:induction false} LongTail(ps: seq<Parameter>)
    requires ps != []
    ensures LongSsrcs(ps) <==> !(ps[0].Ssrc? && ps[0].ssrc < EIGHT_DIGITS) && LongSsrcs(ps[1..])
  {
    forall i | 0 <= i < |ps[1..]| ensures ps[1..][i] == ps[i + 1] {
    }
    if ps[0].Ssrc? && ps[0].ssrc < EIGHT_DIGITS {
      assert !LongSsrcs(ps);
    } else if LongSsrcs(ps[1..]) {
      forall i | 0 <= i < |ps| && ps[i].Ssrc? ensures ps[i].ssrc >= EIGHT_DIGITS {
        assert i > 0 ==> ps[i] == ps[1..][i - 1];
      }
    }
  }

  // ---- specifications ----

  lemma {:induction false} WordOff(word: string, rest: string)
    requires IsWordText(word) && (rest == "" || rest[0] == '/' || rest[0] == ';' || rest[0] == ',')
    ensures Many(word + rest, IsToken) == Read(word, rest)
  {
    assert StopsAt(rest, IsToken);
    ManyExact(word, rest, IsToken);
    hide Many;
  }

  lemma {:induction false} LowerOff(lower: Option<string>, rest: string)
    requires (lower.Some? ==> IsWordText(lower.value)) && AtBreak(rest)
    ensures ParseLower((if lower.Some? then "/" + lower.value else "") + rest) == (lower, rest)
  {
    if lower.Some? {
      assert "/" + lower.value + rest == "/" + (lower.value + rest);
      LiteralExact("/", lower.value + rest);
      WordOff(lower.value, rest);
      hide Many, Literal, IsToken;
    } else {
      assert "" + rest == rest;
      hide Many, IsToken;
    }
  }

  lemma {:induction false} ProfileOff(spec: Spec, text: string)
    requires WritableSpec(spec) && AtBreak(text)
    ensures var lower := if spec.lower.Some? then "/" + spec.lower.value else "";
      ParseSpec(spec.protocol + ("/" + (spec.profile + (lower + text))))
        == Read(Spec(spec.protocol, spec.profile, spec.lower, ParseParameters(text).0), ParseParameters(text).1)
  {
    var lower := if spec.lower.Some? then "/" + spec.lower.value else "";
    assert lower + text == "" || (lower + text)[0] == '/' || lower + text == text;
    WordOff(spec.protocol, "/" + (spec.profile + (lower + text)));
    LiteralExact("/", spec.profile + (lower + text));
    WordOff(spec.profile, lower + text);
    LowerOff(spec.lower, text);
    hide Many, ParseParameters, Literal, ParseLower, IsToken, AllWritable;
  }

  /** A specification comes back iff no SSRC in it is short. */
  lemma {:induction false} SpecRoundTrip(spec: Spec, rest: string)
    requires WritableSpec(spec) && AtComma(rest)
    ensures ParseSpec(PrintSpec(spec) + rest) == Read(spec, rest) <==> LongSsrcs(spec.parameters)
  {
    var text := PrintParameters(spec.parameters) + rest;
    var lower := if spec.lower.Some? then "/" + spec.lower.value else "";
    PrintedStart(spec.parameters, rest);
    ParametersRoundTrip(spec.parameters, rest);
    ProfileOff(spec, text);
    PrintedParts(spec, rest);
    hide PrintSpec, ParseSpec, PrintParameters, ParseParameters, WritableSpec, LongSsrcs;
  }

  lemma {:induction false} PrintedParts(spec: Spec, rest: string)
    ensures PrintSpec(spec) + rest
         == spec.protocol
            + ("/" + (spec.profile + ((if spec.lower.Some? then "/" + spec.lower.value else "")
                                      + (PrintParameters(spec.parameters) + rest))))
  {
    hide PrintParameters;
  }

  /** `transport_spec % ","` of the generator. */
  function PrintTransport(specs: seq<Spec>): string
    requires specs != []
  {
    PrintSpec(specs[0]) + if |specs| == 1 then "" else "," + PrintTransport(specs[1..])
  }

  predicate AllWritableSpecs(specs: seq<Spec>)
  {
    forall i :: 0 <= i < |specs| ==> WritableSpec(specs[i]) && LongSsrcs(specs[i].parameters)
  }

  function MoreText(specs: seq<Spec>): string
  {
    if specs == [] then "" else "," + PrintTransport(specs)
  }

  lemma {:induction false} TakeSpec(s: string, spec: Spec, rest: string)
    requires ParseSpec(s) == Read(spec, rest)
    ensures ParseMore("," + s) == ([spec] + ParseMore(rest).0, ParseMore(rest).1)
  {
    LiteralExact(",", s);
    hide ParseSpec, Literal;
  }

  lemma {:induction false} MoreParts(specs: seq<Spec>)
    requires specs != []
    ensures MoreText(specs) == "," + (PrintSpec(specs[0]) + MoreText(specs[1..]))
    ensures PrintTransport(specs) == PrintSpec(specs[0]) + MoreText(specs[1..])
    ensures AtComma(MoreText(specs[1..])) && MoreText([]) == ""
    ensures specs == [specs[0]] + specs[1..]
  {
    hide PrintSpec;
  }

  lemma {:induction false} WritableParts(specs: seq<Spec>)
    requires specs != [] && AllWritableSpecs(specs)
    ensures WritableSpec(specs[0]) && LongSsrcs(specs[0].parameters) && AllWritableSpecs(specs[1..])
  {
    hide WritableSpec, LongSsrcs;
  }

  lemma {:induction false} MoreRoundTrip(specs: seq<Spec>)
    requires AllWritableSpecs(specs)
    ensures ParseMore(MoreText(specs)) == (specs, "")
  {
    hide *;
    if specs == [] {
      NothingMore();
      MoreParts([ClientSpec(0)]);
    } else {
      var rest := MoreText(specs[1..]);
      WritableParts(specs);
      MoreParts(specs);
      SpecRoundTrip(specs[0], rest);
      MoreRoundTrip(specs[1..]);
      TakeSpec(PrintSpec(specs[0]) + rest, specs[0], rest);
    }
  }

  /** Any printed transport header, however many specifications it lists, is read to its end as it was. */
  lemma {:induction false} TransportRoundTrip(specs: seq<Spec>)
    requires specs != [] && AllWritableSpecs(specs)
    ensures ParseTransport(PrintTransport(specs)) == Read(specs, "")
  {
    hide *;
    var rest := MoreText(specs[1..]);
    WritableParts(specs);
    MoreParts(specs);
    SpecRoundTrip(specs[0], rest);
    MoreRoundTrip(specs[1..]);
    FirstSpec(PrintSpec(specs[0]) + rest, specs[0], rest, specs[1..]);
  }

  lemma {:induction false} FirstSpec(s: string, spec: Spec, rest: string, more: seq<Spec>)
    requires ParseSpec(s) == Read(spec, rest) && ParseMore(rest) == (more, "")
    ensures ParseTransport(s) == Read([spec] + more, "")
  {
    hide ParseSpec, ParseMore;
  }
}
