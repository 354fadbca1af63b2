/** `normalize_headers`: one slot per lower-cased name, as section 4.2 of RFC 2616 asks. */
module HeaderNormalisation {
  import opened Text
  import opened Messages

  type Normalised = map<string, string>

  /** The values of the headers whose lower-cased name is `key`, in order. */
  function ValuesOf(hs: seq<Header>, key: string): seq<string>
  {
    if hs == [] then []
    else
      var n := |hs| - 1;
      ValuesOf(hs[..n], key) + if ToLower(hs[n].name) == key then [hs[n].value] else []
  }

  /** The values separated by commas. */
  function Join(vs: seq<string>): string
    requires vs != []
  {
    if |vs| == 1 then vs[0] else Join(vs[..|vs| - 1]) + "," + vs[|vs| - 1]
  }

  function Names(hs: seq<Header>): set<string>
  {
    set h | h in hs :: ToLower(h.name)
  }

  lemma {:induction false} NamedHasValues(hs: seq<Header>, key: string)
    ensures key in Names(hs) <==> ValuesOf(hs, key) != []
  {
    if hs != [] {
      var n := |hs| - 1;
      NamedHasValues(hs[..n], key);
      assert hs == hs[..n] + [hs[n]];
      assert Names(hs) == Names(hs[..n]) + {ToLower(hs[n].name)};
    }
  }

  /** Each lower-cased name maps to the comma-join, in order, of exactly the values that carry it. */
  function Normalize(hs: seq<Header>): Normalised
  {
    map key | key in Names(hs) :: NamedHasValues(hs, key); Join(ValuesOf(hs, key))
  }

  method NormalizeHeaders(hs: seq<Header>) returns (headers: Normalised)
    ensures headers == Normalize(hs)
  {
    hide Normalize, ToLower;
    headers := map[];
    NormalizeNothing();
    assert hs[..0] == [];
    var i := 0;
    while i < |hs|
      invariant 0 <= i <= |hs|
      invariant headers == Normalize(hs[..i])
    {
      var key := ToLower(hs[i].name);
      NormalizeSnoc(hs[..i], hs[i]);
      assert hs[..i + 1] == hs[..i] + [hs[i]];
      if key !in headers {
        headers := headers[key := hs[i].value];
      } else {
        headers := headers[key := headers[key] + "," + hs[i].value];
      }
      i := i + 1;
    }
    assert hs[..i] == hs;
  }

  lemma {:induction false} NormalizeNothing()
    ensures Normalize([]) == map[]
  {
  }

  lemma {:induction false} LookupSnoc(hs: seq<Header>, h: Header, k: string)
    ensures var key, before, after := ToLower(h.name), Normalize(hs), Normalize(hs + [h]);
      && (k in after <==> k in before || k == key)
      && (k in before && k != key ==> after[k] == before[k])
      && (k == key ==> after[k] == if k in before then before[k] + "," + h.value else h.value)
  {
    assert (hs + [h])[..|hs|] == hs;
    NamedHasValues(hs + [h], k);
    NamedHasValues(hs, k);
    var vs := ValuesOf(hs, k);
    assert (vs + [h.value])[..|vs|] == vs && vs + [] == vs;
    assert ValuesOf(hs + [h], k) == vs + if ToLower(h.name) == k then [h.value] else [];
    hide Names, ValuesOf, ToLower;
  }

  lemma {:induction false} NormalizeSnoc(hs: seq<Header>, h: Header)
    ensures var key, before := ToLower(h.name), Normalize(hs);
      Normalize(hs + [h]) == before[key := if key in before then before[key] + "," + h.value else h.value]
  {
    hide *;
    forall k: string ensures k in Normalize(hs + [h]) <==> k in Normalize(hs) || k == ToLower(h.name) {
      LookupSnoc(hs, h, k);
    }
    forall k | k in Normalize(hs) && k != ToLower(h.name)
      ensures k in Normalize(hs + [h]) && Normalize(hs + [h])[k] == Normalize(hs)[k]
    {
      LookupSnoc(hs, h, k);
    }
    LookupSnoc(hs, h, ToLower(h.name));
  }

  /** Only the order within one name matters. */
  lemma {:induction false} SameValuesSameResult(a: seq<Header>, b: seq<Header>)
    requires forall key :: ValuesOf(a, key) == ValuesOf(b, key)
    ensures Normalize(a) == Normalize(b)
  {
    forall key ensures key in Names(a) <==> key in Names(b) {
      NamedHasValues(a, key);
      NamedHasValues(b, key);
    }
    assert Names(a) == Names(b);
    forall key | key in Names(a) ensures Normalize(a)[key] == Normalize(b)[key] {
      NamedHasValues(a, key);
      NamedHasValues(b, key);
    }
  }

  lemma {:induction false} ValuesAppend(a: seq<Header>, b: seq<Header>, key: string)
    ensures ValuesOf(a + b, key) == ValuesOf(a, key) + ValuesOf(b, key)
  {
    if b == [] {
      assert a + b == a;
    } else {
      var n := |b| - 1;
      ValuesAppend(a, b[..n], key);
      assert (a + b)[..|a + b| - 1] == a + b[..n];
    }
  }

  lemma {:induction false} ValuesOfTwo(x: Header, y: Header, key: string)
    ensures ValuesOf([x, y], key)
         == (if ToLower(x.name) == key then [x.value] else []) + (if ToLower(y.name) == key then [y.value] else [])
  {
    assert [x, y][..1] == [x];
    assert ValuesOf([x][..0], key) == [];
  }

  /** Exchanging neighbours of different names, anywhere in a message, changes nothing. */
  lemma {:induction false} ReorderingIsInvisible(before: seq<Header>, x: Header, y: Header, after: seq<Header>)
    requires ToLower(x.name) != ToLower(y.name)
    ensures Normalize(before + [x, y] + after) == Normalize(before + [y, x] + after)
  {
    forall key ensures ValuesOf(before + [x, y] + after, key) == ValuesOf(before + [y, x] + after, key) {
      ValuesAppend(before + [x, y], after, key);
      ValuesAppend(before, [x, y], key);
      ValuesAppend(before + [y, x], after, key);
      ValuesAppend(before, [y, x], key);
      ValuesOfTwo(x, y, key);
      ValuesOfTwo(y, x, key);
    }
    SameValuesSameResult(before + [x, y] + after, before + [y, x] + after);
  }

  /** A name that occurs once maps to its value as it stands. */
  lemma {:induction false} SingleValue(hs: seq<Header>, i: nat, key: string)
    requires i < |hs| && ToLower(hs[i].name) == key
    requires forall j :: 0 <= j < |hs| && j != i ==> ToLower(hs[j].name) != key
    ensures key in Normalize(hs) && Normalize(hs)[key] == hs[i].value
  {
    NamedHasValues(hs, key);
    OnlyValue(hs, i, key);
  }

  lemma {:induction false} OnlyValue(hs: seq<Header>, i: nat, key: string)
    requires i < |hs| && ToLower(hs[i].name) == key
    requires forall j :: 0 <= j < |hs| && j != i ==> ToLower(hs[j].name) != key
    ensures ValuesOf(hs, key) == [hs[i].value]
  {
    var n := |hs| - 1;
    if i == n {
      NoValue(hs[..n], key);
    } else {
      OnlyValue(hs[..n], i, key);
    }
  }

  lemma {:induction false} NoValue(hs: seq<Header>, key: string)
    requires forall j :: 0 <= j < |hs| ==> ToLower(hs[j].name) != key
    ensures ValuesOf(hs, key) == [] && key !in Normalize(hs)
  {
    if hs != [] {
      NoValue(hs[..|hs| - 1], key);
    }
    NamedHasValues(hs, key);
  }
}
