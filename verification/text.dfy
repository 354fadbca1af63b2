/** Characters, numbers and the greedy parsers the RTSP grammars are made of. */
module Text {

  /** A parser's result: what it read and what is left. */
  datatype Parsed<T> = Failed | Read(value: T, rest: string)

  const CRLF := "\r\n"

  // ---- character classes of the standard C locale ----

  predicate IsSpace(c: char)
  {
    c == ' ' || '\t' <= c <= '\r'
  }

  predicate IsControl(c: char)
  {
    (c as int) < 32 || (c as int) == 127
  }

  predicate IsSpecial(c: char)
  {
    c in "()<>@,;:\\\"/[]?={} \t"
  }

  predicate IsToken(c: char)
  {
    !IsSpecial(c) && !IsControl(c)
  }

  predicate IsWord(c: char)
  {
    'A' <= c <= 'Z' || 'a' <= c <= 'z' || c == '.'
  }

  lemma {:induction false} WordIsToken(word: string)
    requires All(word, IsWord)
    ensures All(word, IsToken)
  {
    forall i | 0 <= i < |word| ensures IsToken(word[i]) {
      assert IsWord(word[i]);
    }
  }

  function Lower(c: char): char
  {
    if 'A' <= c <= 'Z' then (c as int + 32) as char else c
  }

  /** `boost::algorithm::to_lower_copy`. */
  function ToLower(s: string): (r: string)
    ensures |r| == |s|
  {
    seq(|s|, i requires 0 <= i < |s| => Lower(s[i]))
  }

  // ---- greedy runs ----

  /** The length of the longest prefix all of whose characters satisfy `p`. */
  function Span(s: string, p: char -> bool): (n: nat)
    ensures n <= |s|
    ensures forall i :: 0 <= i < n ==> p(s[i])
    ensures n < |s| ==> !p(s[n])
  {
    if s == "" || !p(s[0]) then 0 else 1 + Span(s[1..], p)
  }

  predicate All(s: string, p: char -> bool)
  {
    forall i :: 0 <= i < |s| ==> p(s[i])
  }

  predicate StopsAt(rest: string, p: char -> bool)
  {
    rest == "" || !p(rest[0])
  }

  lemma {:induction false} SpanExact(a: string, rest: string, p: char -> bool)
    requires All(a, p) && StopsAt(rest, p)
    ensures Span(a + rest, p) == |a|
    ensures (a + rest)[..|a|] == a && (a + rest)[|a|..] == rest
  {
    assert forall i :: 0 <= i < |a| ==> (a + rest)[i] == a[i];
    assert rest != "" ==> (a + rest)[|a|] == rest[0];
  }

  /** One or more characters of a class. */
  function Many(s: string, p: char -> bool): (r: Parsed<string>)
    ensures r.Read? ==> r.value != "" && |r.rest| < |s|
  {
    var n := Span(s, p);
    if n == 0 then Failed else Read(s[..n], s[n..])
  }

  lemma {:induction false} ManyExact(a: string, rest: string, p: char -> bool)
    requires a != "" && All(a, p) && StopsAt(rest, p)
    ensures Many(a + rest, p) == Read(a, rest)
  {
    SpanExact(a, rest, p);
  }

  function Literal(s: string, literal: string): (r: Parsed<()>)
    ensures r.Read? ==> |r.rest| == |s| - |literal|
  {
    if literal <= s then Read((), s[|literal|..]) else Failed
  }

  lemma {:induction false} LiteralExact(literal: string, rest: string)
    ensures Literal(literal + rest, literal) == Read((), rest)
  {
    assert (literal + rest)[..|literal|] == literal;
    assert (literal + rest)[|literal|..] == rest;
  }

  // ---- numbers ----

  /** The value of a digit, or -1. */
  function DigitValue(c: char): int
  {
    if '0' <= c <= '9' then c as int - '0' as int
    else if 'a' <= c <= 'f' then c as int - 'a' as int + 10
    else if 'A' <= c <= 'F' then c as int - 'A' as int + 10
    else -1
  }

  function DigitChar(d: nat): (c: char)
    requires d < 16
    ensures DigitValue(c) == d
  {
    "0123456789abcdef"[d]
  }

  predicate IsDecimal(c: char)
  {
    0 <= DigitValue(c) < 10
  }

  type Radix = r: int | r == 10 || r == 16 witness 10

  predicate DigitIn(radix: Radix, c: char)
  {
    0 <= DigitValue(c) < radix
  }

  function Print(n: nat, radix: Radix): (s: string)
    ensures s != "" && All(s, c => DigitIn(radix, c))
  {
    if n < radix then [DigitChar(n)]
    else Print(n / radix, radix) + [DigitChar(n % radix)]
  }

  function ValueOf(s: string, radix: Radix): nat
    requires All(s, c => DigitIn(radix, c))
  {
    if s == "" then 0
    else
      var n := |s| - 1;
      assert DigitIn(radix, s[n]);
      ValueOf(s[..n], radix) * radix + DigitValue(s[n])
  }

  lemma {:induction false} PrintedValue(n: nat, radix: Radix)
    ensures ValueOf(Print(n, radix), radix) == n
  {
    if n < radix {
      assert Print(n, radix)[..0] == "";
    } else {
      PrintedValue(n / radix, radix);
      var front := Print(n / radix, radix);
      assert Print(n, radix)[..|front|] == front;
    }
  }

  function Power(radix: Radix, k: nat): nat
  {
    if k == 0 then 1 else radix * Power(radix, k - 1)
  }

  lemma {:induction false} PrintedLength(n: nat, radix: Radix, k: nat)
    requires k > 0
    ensures |Print(n, radix)| <= k <==> n < Power(radix, k)
  {
    if k == 1 {
      assert Power(radix, 1) == radix * Power(radix, 0) == radix;
      if n >= radix {
        assert |Print(n / radix, radix)| >= 1;
      }
    } else {
      if n < radix {
        PowerAtLeast(radix, k);
      } else {
        PrintedLength(n / radix, radix, k - 1);
        var p := Power(radix, k - 1);
        if radix == 10 {
          assert n / 10 < p <==> n < 10 * p;
        } else {
          assert n / 16 < p <==> n < 16 * p;
        }
      }
    }
  }

  lemma {:induction false} PowerAtLeast(radix: Radix, k: nat)
    requires k > 0
    ensures Power(radix, k) >= radix
  {
    if k > 1 {
      PowerAtLeast(radix, k - 1);
      assert radix * Power(radix, k - 1) >= Power(radix, k - 1);
    } else {
      assert Power(radix, 1) == radix * Power(radix, 0) == radix;
    }
  }

  /** `uint_parser`: between `min` and `max` digits, read greedily; a value of `limit` or more fails. */
  function Number(s: string, radix: Radix, min: nat, max: nat, limit: nat): (r: Parsed<nat>)
    ensures r.Read? ==> r.value < limit && |r.rest| <= |s|
  {
    var span := Span(s, c => DigitIn(radix, c));
    var n := if span > max then max else span;
    if n < min then Failed
    else if ValueOf(s[..n], radix) >= limit then Failed
    else Read(ValueOf(s[..n], radix), s[n..])
  }

  lemma {:induction false} NumberExact(n: nat, radix: Radix, min: nat, max: nat, limit: nat, rest: string)
    requires StopsAt(rest, c => DigitIn(radix, c)) && n < limit
    requires min <= |Print(n, radix)| <= max
    ensures Number(Print(n, radix) + rest, radix, min, max, limit) == Read(n, rest)
  {
    SpanExact(Print(n, radix), rest, c => DigitIn(radix, c));
    PrintedValue(n, radix);
  }

  /** Too few digits before something that is no digit. */
  lemma {:induction false} NumberTooShort(n: nat, radix: Radix, min: nat, max: nat, limit: nat, rest: string)
    requires StopsAt(rest, c => DigitIn(radix, c)) && |Print(n, radix)| < min
    ensures Number(Print(n, radix) + rest, radix, min, max, limit) == Failed
  {
    SpanExact(Print(n, radix), rest, c => DigitIn(radix, c));
  }

  /** `uint_parser` without a maximum; the model does not bound the value either. */
  function Unbounded(s: string): Parsed<nat>
  {
    var n := Span(s, c => DigitIn(10, c));
    if n == 0 then Failed else Read(ValueOf(s[..n], 10), s[n..])
  }

  lemma {:induction false} UnboundedExact(n: nat, rest: string)
    requires StopsAt(rest, c => DigitIn(10, c))
    ensures Unbounded(Print(n, 10) + rest) == Read(n, rest)
  {
    SpanExact(Print(n, 10), rest, c => DigitIn(10, c));
    PrintedValue(n, 10);
  }
}
