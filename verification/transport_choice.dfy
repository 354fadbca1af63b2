/** What the server chooses and what the client reads, written out for every list of specifications. */
module TransportChoice {
  import opened Wrappers
  import opened Text
  import opened Transport
  import opened TransportText

  // ---- the first match ----

  lemma {:induction false} FindsFirst(ps: seq<Parameter>, p: Parameter -> bool, k: nat)
    requires k < |ps| && p(ps[k]) && forall j :: 0 <= j < k ==> !p(ps[j])
    ensures Find(ps, p) == Some(ps[k])
  {
    if k > 0 {
      assert !p(ps[0]);
      FindsFirst(ps[1..], p, k - 1);
    }
  }

  lemma {:induction false} FindsNone(ps: seq<Parameter>, p: Parameter -> bool)
    requires forall j :: 0 <= j < |ps| ==> !p(ps[j])
    ensures Find(ps, p) == None
  {
    if ps != [] {
      assert !p(ps[0]);
      FindsNone(ps[1..], p);
    }
  }

  lemma {:induction false} FindsSpec(specs: seq<Spec>, i: nat)
    requires i < |specs| && Acceptable(specs[i]) && forall j :: 0 <= j < i ==> !Acceptable(specs[j])
    ensures FindSpec(specs) == Some(specs[i])
  {
    if i > 0 {
      FindsSpec(specs[1..], i - 1);
    }
  }

  /** RTP/AVP, UDP written or not, and `unicast` as the first parameter. */
  predicate Offered(spec: Spec)
  {
    && spec.protocol == "RTP" && spec.profile == "AVP" && (spec.lower == None || spec.lower == Some("UDP"))
    && 0 < |spec.parameters| && spec.parameters[0] == Plain("unicast")
  }

  predicate FirstOffered(specs: seq<Spec>, i: nat)
  {
    i < |specs| && Offered(specs[i]) && forall j :: 0 <= j < i ==> !Offered(specs[j])
  }

  // ---- the server ----

  /** There is a choice iff something is offered. */
  lemma {:induction false} ChosenIff(specs: seq<Spec>, randomPort: PortNumber, randomSsrc: SsrcNumber)
    ensures Choose(specs, randomPort, randomSsrc).Some? <==> exists i :: 0 <= i < |specs| && Offered(specs[i])
  {
    var found := FindSpec(specs);
    if found.Some? {
      var i :| 0 <= i < |specs| && specs[i] == found.value;
      assert Offered(specs[i]);
    } else {
      forall i | 0 <= i < |specs| ensures !Offered(specs[i]) {
        assert specs[i] in specs;
      }
    }
  }

  /** Place `k` holds the first port of a type. */
  predicate FirstPort(ps: seq<Parameter>, t: PortType, k: nat)
  {
    && k < |ps| && ps[k].Port? && ps[k].portType == t
    && forall j :: 0 <= j < k ==> !(ps[j].Port? && ps[j].portType == t)
  }

  predicate NoPortOf(ps: seq<Parameter>, t: PortType)
  {
    forall j :: 0 <= j < |ps| ==> !(ps[j].Port? && ps[j].portType == t)
  }

  /** Place `k` holds the first SSRC of at least `least`. */
  predicate FirstSsrc(ps: seq<Parameter>, least: nat, k: nat)
  {
    && k < |ps| && ps[k].Ssrc? && ps[k].ssrc >= least
    && forall j :: 0 <= j < k ==> !(ps[j].Ssrc? && ps[j].ssrc >= least)
  }

  predicate NoSsrcOf(ps: seq<Parameter>, least: nat)
  {
    forall j :: 0 <= j < |ps| ==> !(ps[j].Ssrc? && ps[j].ssrc >= least)
  }

  /** A port's only number, or a range's lower end. */
  predicate StartsAt(numbers: PortNumbers, n: PortNumber)
  {
    numbers == Single(n) || (numbers.Range? && numbers.first == n)
  }

  ghost predicate IsChoice(ps: seq<Parameter>, cs: seq<Parameter>, randomPort: PortNumber, randomSsrc: SsrcNumber)
  {
    && |cs| == 4 && cs[0] == Plain("unicast")
    && cs[1].Port? && cs[1].portType == ClientPort && cs[1].numbers.Single?
    && (forall k: nat :: FirstPort(ps, ClientPort, k) ==> StartsAt(ps[k].numbers, cs[1].numbers.number))
    && (NoPortOf(ps, ClientPort) ==> cs[1].numbers.number == randomPort)
    && (forall k: nat :: FirstSsrc(ps, 1, k) ==> cs[2] == ps[k])
    && (NoSsrcOf(ps, 1) ==> cs[2] == Ssrc(randomSsrc))
    && (forall k: nat :: FirstPort(ps, ServerPort, k) ==> cs[3] == ps[k])
    && (NoPortOf(ps, ServerPort) ==> cs[3] == Port(ServerPort, Single((cs[1].numbers.number + 2) % 65536)))
  }

  lemma {:induction false} ChosenClientPortIs(ps: seq<Parameter>, randomPort: PortNumber)
    ensures forall k: nat :: FirstPort(ps, ClientPort, k) ==>
      StartsAt(ps[k].numbers, ChosenClientPort(ps, randomPort))
    ensures NoPortOf(ps, ClientPort) ==> ChosenClientPort(ps, randomPort) == randomPort
  {
    forall k: nat | FirstPort(ps, ClientPort, k) ensures Find(ps, IsClientPort) == Some(ps[k]) {
      FindsFirst(ps, IsClientPort, k);
    }
    if NoPortOf(ps, ClientPort) {
      FindsNone(ps, IsClientPort);
    }
    hide Find, FirstPort, NoPortOf;
  }

  lemma {:induction false} ChosenServerPortIs(ps: seq<Parameter>, clientPort: PortNumber)
    ensures forall k: nat :: FirstPort(ps, ServerPort, k) ==>
      ps[k] == Port(ServerPort, ChosenServerPort(ps, clientPort))
    ensures NoPortOf(ps, ServerPort) ==> ChosenServerPort(ps, clientPort) == Single((clientPort + 2) % 65536)
  {
    forall k: nat | FirstPort(ps, ServerPort, k) ensures Find(ps, IsServerPort) == Some(ps[k]) {
      FindsFirst(ps, IsServerPort, k);
    }
    if NoPortOf(ps, ServerPort) {
      FindsNone(ps, IsServerPort);
    }
    hide Find, NoPortOf;
  }

  lemma {:induction false} ChosenSsrcIs(ps: seq<Parameter>, randomSsrc: SsrcNumber)
    ensures forall k: nat :: FirstSsrc(ps, 1, k) ==> ps[k] == Ssrc(ChosenSsrc(ps, randomSsrc))
    ensures NoSsrcOf(ps, 1) ==> ChosenSsrc(ps, randomSsrc) == randomSsrc
  {
    forall k: nat | FirstSsrc(ps, 1, k) ensures Find(ps, IsUsableSsrc) == Some(ps[k]) {
      FindsFirst(ps, IsUsableSsrc, k);
    }
    if NoSsrcOf(ps, 1) {
      FindsNone(ps, IsUsableSsrc);
    }
    hide Find, NoSsrcOf;
  }

  lemma {:induction false} ChoiceOf(specs: seq<Spec>, i: nat, randomPort: PortNumber, randomSsrc: SsrcNumber)
    requires FirstOffered(specs, i)
    ensures var ps := specs[i].parameters; var port := ChosenClientPort(ps, randomPort);
      Choose(specs, randomPort, randomSsrc)
        == Some(ChosenSpec(port, ChosenSsrc(ps, randomSsrc), ChosenServerPort(ps, port)))
  {
    FindsSpec(specs, i);
    hide Find, FindSpec;
  }

  /**
   * The choice from the first specification offered: `unicast`, the requested client port (a range's lower end) or the
   * random one, the first requested SSRC that is not zero or the random one, and the requested server port as it stands,
   * or else the number two above the client's in sixteen bits.
   */
  lemma {:induction false} ChosenFrom(specs: seq<Spec>, i: nat, randomPort: PortNumber, randomSsrc: SsrcNumber)
    requires FirstOffered(specs, i)
    ensures var choice := Choose(specs, randomPort, randomSsrc);
      && choice.Some? && choice.value == Spec("RTP", "AVP", Some("UDP"), choice.value.parameters)
      && IsChoice(specs[i].parameters, choice.value.parameters, randomPort, randomSsrc)
  {
    var ps := specs[i].parameters;
    var port := ChosenClientPort(ps, randomPort);
    ChoiceOf(specs, i, randomPort, randomSsrc);
    ChosenClientPortIs(ps, randomPort);
    ChosenSsrcIs(ps, randomSsrc);
    ChosenServerPortIs(ps, port);
    hide FirstOffered, Choose, FirstPort, FirstSsrc, NoPortOf, NoSsrcOf, ChosenClientPort, ChosenSsrc, ChosenServerPort,
         StartsAt;
  }

  // ---- the client ----

  /** Place `k` holds the first port for a receiver: the client's, or one of no particular side. */
  predicate FirstReceiverPort(ps: seq<Parameter>, k: nat)
  {
    && k < |ps| && ps[k].Port? && ps[k].portType != ServerPort
    && forall j :: 0 <= j < k ==> !(ps[j].Port? && ps[j].portType != ServerPort)
  }

  /**
   * Of the first specification offered in a header the client takes the first port of its own or of no side, and the first
   * SSRC, whatever it is; a missing port is noticed before a missing SSRC.
   */
  lemma {:induction false} ReadFrom(text: string, specs: seq<Spec>, rest: string, i: nat, k: nat, l: nat)
    requires ParseTransport(text) == Read(specs, rest) && FirstOffered(specs, i)
    ensures var ps, reading := specs[i].parameters, ReadTransport(text);
      && (FirstReceiverPort(ps, k) && FirstSsrc(ps, 0, l) ==>
            reading.Agreed? && StartsAt(ps[k].numbers, reading.port) && reading.ssrc == ps[l].ssrc)
      && (NoPortOf(ps, ClientPort) && NoPortOf(ps, General) ==> reading == NoPort)
      && (FirstReceiverPort(ps, k) && NoSsrcOf(ps, 0) ==> reading == NoSsrc)
  {
    var ps := specs[i].parameters;
    FindsSpec(specs, i);
    SpecIsRead(ps, k, l);
    hide FindSpec, ParseTransport, ReadSpec, NoSsrcOf, FirstSsrc, NoPortOf, FirstReceiverPort, StartsAt;
  }

  lemma {:induction false} SpecIsRead(ps: seq<Parameter>, k: nat, l: nat)
    ensures FirstReceiverPort(ps, k) && FirstSsrc(ps, 0, l) ==>
      ReadSpec(ps).Agreed? && StartsAt(ps[k].numbers, ReadSpec(ps).port) && ReadSpec(ps).ssrc == ps[l].ssrc
    ensures NoPortOf(ps, ClientPort) && NoPortOf(ps, General) ==> ReadSpec(ps) == NoPort
    ensures FirstReceiverPort(ps, k) && NoSsrcOf(ps, 0) ==> ReadSpec(ps) == NoSsrc
  {
    if FirstReceiverPort(ps, k) {
      FindsFirst(ps, IsReceiverPort, k);
      if FirstSsrc(ps, 0, l) {
        FindsFirst(ps, IsSsrc, l);
      }
      if NoSsrcOf(ps, 0) {
        FindsNone(ps, IsSsrc);
      }
    }
    if NoPortOf(ps, ClientPort) && NoPortOf(ps, General) {
      FindsNone(ps, IsReceiverPort);
    }
    hide Find;
  }

  /** What cannot be read, or offers nothing, is refused by the client. */
  lemma {:induction false} ReadNothing(text: string)
    ensures ReadTransport(text) == Unparsable <==> ParseTransport(text).Failed?
    ensures ReadTransport(text) == NoSpec <==>
      ParseTransport(text).Read? && forall i :: 0 <= i < |ParseTransport(text).value| ==> !Offered(ParseTransport(text).value[i])
  {
    hide ParseTransport, ReadSpec;
    if ParseTransport(text).Read? {
      var specs := ParseTransport(text).value;
      ChosenIff(specs, 0, 0);
      ReadSpecEnds(specs);
    }
  }

  lemma {:induction false} ReadSpecEnds(specs: seq<Spec>)
    ensures FindSpec(specs).Some? <==> Choose(specs, 0, 0).Some?
    ensures forall ps :: ReadSpec(ps) != NoSpec && ReadSpec(ps) != Unparsable
  {
  }

  // ---- a phrase of the library's own tests ----

  const PHRASE: string := "RTP/AVP" + ";unicast" + ";client_port=3456-3457" + ";mode=\"PLAY\"" + ";ssrc=DEADBEEF"

  const PHRASE_PARAMETERS: seq<Parameter> :=
    [Plain("unicast"), Port(ClientPort, Range(3456, 3457)), Mode("PLAY"), Ssrc(0xDEADBEEF)]

  const PHRASE_SPEC: Spec := Spec("RTP", "AVP", None, PHRASE_PARAMETERS)

  /** `client_port=3456-3457` and an upper-case SSRC, without a lower transport: read as they stand, and chosen. */
  lemma {:induction false} PhraseIsChosen(randomPort: PortNumber, randomSsrc: SsrcNumber)
    ensures ParseTransport(PHRASE) == Read([PHRASE_SPEC], "")
    ensures Choose([PHRASE_SPEC], randomPort, randomSsrc)
         == Some(Spec("RTP", "AVP", Some("UDP"),
                      [Plain("unicast"), Port(ClientPort, Single(3456)), Ssrc(0xDEADBEEF), Port(ServerPort, Single(3458))]))
  {
    PhraseIsRead();
    var ps, choice := PHRASE_PARAMETERS, Choose([PHRASE_SPEC], randomPort, randomSsrc);
    hide ParseTransport, Choose;
    ChosenFrom([PHRASE_SPEC], 0, randomPort, randomSsrc);
    assert FirstPort(ps, ClientPort, 1) && FirstSsrc(ps, 1, 3) && NoPortOf(ps, ServerPort);
    var cs := choice.value.parameters;
    assert cs == [cs[0], cs[1], cs[2], cs[3]];
  }

  lemma {:induction false} UpperCaseSsrc()
    ensures ParseAlternative("ssrc=DEADBEEF") == Read(Ssrc(0xDEADBEEF), "")
  {
    var digits := "DEADBEEF";
    assert "ssrc=DEADBEEF" == "ssrc=" + digits;
    LiteralExact("ssrc=", digits);
    NotAnotherKind("ssrc=" + digits);
    UpperCaseValue();
    hide ParseTtl, ParsePort, ParseMode, Number, Literal;
  }

  lemma {:induction false} UpperCaseValue()
    ensures Number("DEADBEEF", 16, 8, 8, SSRC_LIMIT) == Read(0xDEADBEEF, "")
  {
    var digits := "DEADBEEF";
    assert All(digits, c => DigitIn(16, c));
    SpanExact(digits, "", c => DigitIn(16, c));
    UpperCaseDigits(digits);
    assert digits + "" == digits && digits[..8] == digits && digits[8..] == "";
    hide ValueOf, Span, All, DigitIn, DigitValue;
  }

  lemma {:induction false} UpperCaseDigits(digits: string)
    requires digits == "DEADBEEF" && All(digits, c => DigitIn(16, c))
    ensures ValueOf(digits, 16) == 0xDEADBEEF
  {
    ValueStep(digits, 0);
    ValueStep(digits, 1);
    ValueStep(digits, 2);
    ValueStep(digits, 3);
    assert ValueOf(digits[..4], 16) == 0xDEAD by {
      assert ValueOf(digits[..0], 16) == 0;
      hide ValueOf;
    }
    hide ValueOf;
    ValueStep(digits, 4);
    ValueStep(digits, 5);
    ValueStep(digits, 6);
    ValueStep(digits, 7);
    assert digits[..8] == digits;
  }

  lemma {:induction false} ValueStep(digits: string, n: nat)
    requires n < |digits| && All(digits, c => DigitIn(16, c))
    ensures ValueOf(digits[..n + 1], 16) == ValueOf(digits[..n], 16) * 16 + DigitValue(digits[n])
  {
    assert DigitIn(16, digits[n]);
    assert digits[..n + 1][..n] == digits[..n];
  }

  lemma {:induction false} PhrasePort(rest: string)
    requires AtBreak(rest)
    ensures ParseAlternative("client_port=3456-3457" + rest) == Read(Port(ClientPort, Range(3456, 3457)), rest)
  {
    AnyPortExact(ClientPort, Range(3456, 3457), rest);
    PhraseNumbers();
    ClientPortLiteral();
    hide *;
    Grouped("client_port", "=", "3456-3457", rest);
  }

  lemma {:induction false} ClientPortLiteral()
    ensures "client_port=3456-3457" == "client_port" + ("=" + "3456-3457") && PortTypeName(ClientPort) == "client_port"
  {
  }

  lemma {:induction false} Grouped(a: string, b: string, c: string, rest: string)
    ensures (a + (b + c)) + rest == a + (b + (c + rest))
  {
  }

  lemma {:induction false} PhraseNumbers()
    ensures PrintNumbers(Range(3456, 3457)) == "3456-3457"
  {
    assert Print(3, 10) == "3" && Print(34, 10) == "34" && Print(345, 10) == "345";
    assert Print(3456, 10) == "3456" && Print(3457, 10) == "3457";
  }

  const LAST: string := ";ssrc=DEADBEEF"
  const THIRD: string := ";mode=\"PLAY\"" + LAST
  const SECOND: string := ";client_port=3456-3457" + THIRD

  lemma {:induction false} LastIsRead()
    ensures ParseParameters(LAST) == ([Ssrc(0xDEADBEEF)], "") && AtBreak(LAST)
  {
    assert LAST == ";" + "ssrc=DEADBEEF";
    hide ParseParameters, ParseAlternative;
    UpperCaseSsrc();
    NoParameter("");
    TakeParameter("ssrc=DEADBEEF", Ssrc(0xDEADBEEF), "");
    assert [Ssrc(0xDEADBEEF)] + [] == [Ssrc(0xDEADBEEF)];
  }

  lemma {:induction false} ThirdIsRead()
    ensures ParseParameters(THIRD) == ([Mode("PLAY"), Ssrc(0xDEADBEEF)], "") && AtBreak(THIRD)
  {
    LastIsRead();
    hide LAST, ParseParameters, ParseAlternative;
    ModeExact("PLAY", LAST);
    assert ";mode=\"PLAY\"" == ";" + ("mode=\"" + ("PLAY" + "\""));
    Regrouped(LAST);
    TakeParameter("mode=\"" + ("PLAY" + ("\"" + LAST)), Mode("PLAY"), LAST);
    assert [Mode("PLAY")] + [Ssrc(0xDEADBEEF)] == [Mode("PLAY"), Ssrc(0xDEADBEEF)];
  }

  lemma {:induction false} Regrouped(rest: string)
    ensures (";" + ("mode=\"" + ("PLAY" + "\""))) + rest == ";" + ("mode=\"" + ("PLAY" + ("\"" + rest)))
  {
    Grouped("mode=\"", "PLAY", "\"", rest);
    Pair(";", "mode=\"" + ("PLAY" + "\""), rest);
  }

  lemma {:induction false} Pair(a: string, b: string, rest: string)
    ensures (a + b) + rest == a + (b + rest)
  {
  }

  lemma {:induction false} SecondIsRead()
    ensures ParseParameters(SECOND) == ([Port(ClientPort, Range(3456, 3457)), Mode("PLAY"), Ssrc(0xDEADBEEF)], "")
    ensures AtBreak(SECOND)
  {
    ThirdIsRead();
    hide THIRD, ParseParameters, ParseAlternative;
    PhrasePort(THIRD);
    assert ";client_port=3456-3457" == ";" + "client_port=3456-3457";
    Pair(";", "client_port=3456-3457", THIRD);
    TakeParameter("client_port=3456-3457" + THIRD, Port(ClientPort, Range(3456, 3457)), THIRD);
    assert [Port(ClientPort, Range(3456, 3457))] + [Mode("PLAY"), Ssrc(0xDEADBEEF)]
        == [Port(ClientPort, Range(3456, 3457)), Mode("PLAY"), Ssrc(0xDEADBEEF)];
  }

  lemma {:induction false} PhraseParametersAreRead()
    ensures ParseParameters(";unicast" + SECOND) == (PHRASE_PARAMETERS, "")
  {
    SecondIsRead();
    hide SECOND, ParseParameters, ParseAlternative;
    UnicastExact(SECOND);
    assert ";unicast" == ";" + "unicast";
    Pair(";", "unicast", SECOND);
    TakeParameter("unicast" + SECOND, Plain("unicast"), SECOND);
    assert [Plain("unicast")] + [Port(ClientPort, Range(3456, 3457)), Mode("PLAY"), Ssrc(0xDEADBEEF)] == PHRASE_PARAMETERS;
  }

  lemma {:induction false} PhraseText()
    ensures PHRASE == "RTP" + ("/" + ("AVP" + ("" + (";unicast" + SECOND))))
  {
    var a, b, c, d := ";unicast", ";client_port=3456-3457", ";mode=\"PLAY\"", LAST;
    assert "RTP/AVP" == "RTP" + ("/" + ("AVP" + ""));
    Flattened(a, b, c, d);
  }

  lemma {:induction false} Flattened(a: string, b: string, c: string, d: string)
    ensures ("RTP" + ("/" + ("AVP" + ""))) + a + b + c + d == "RTP" + ("/" + ("AVP" + ("" + (a + (b + (c + d))))))
  {
  }

  lemma {:induction false} PhraseIsRead()
    ensures ParseTransport(PHRASE) == Read([PHRASE_SPEC], "")
  {
    hide ParseParameters, ParseSpec, ParseTransport, SECOND, PHRASE, PHRASE_PARAMETERS;
    PhraseParametersAreRead();
    PhraseText();
    PhraseSpecIs(";unicast" + SECOND, PHRASE_PARAMETERS);
    SingleSpec(PHRASE, PHRASE_SPEC);
  }

  lemma {:induction false} NamesAreWords()
    ensures WritableSpec(Spec("RTP", "AVP", None, []))
  {
    WordIsToken("RTP");
    WordIsToken("AVP");
    hide IsToken, IsWord;
  }

  lemma {:induction false} NoLower(spec: Spec, text: string)
    requires WritableSpec(spec) && spec.lower == None && text != "" && text[0] == ';'
    ensures ParseSpec(spec.protocol + ("/" + (spec.profile + ("" + text))))
         == Read(Spec(spec.protocol, spec.profile, None, ParseParameters(text).0), ParseParameters(text).1)
  {
    hide WritableSpec, ParseSpec, ParseParameters;
    ProfileOff(spec, text);
  }

  lemma {:induction false} PhraseSpecIs(text: string, ps: seq<Parameter>)
    requires text != "" && text[0] == ';' && ParseParameters(text) == (ps, "")
    ensures ParseSpec("RTP" + ("/" + ("AVP" + ("" + text)))) == Read(Spec("RTP", "AVP", None, ps), "")
  {
    NamesAreWords();
    hide ParseParameters, ParseSpec, WritableSpec;
    NoLower(Spec("RTP", "AVP", None, []), text);
  }
}
