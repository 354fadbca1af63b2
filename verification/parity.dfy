/** The reference form of XOR forward error correction: the column-wise XOR of zero-padded strings. */
module Parity {
  import opened Octets

  /** Octet `i` of `s` followed by endless zero padding. */
  function At(s: seq<byte>, i: nat): byte
  {
    if i < |s| then s[i] else 0
  }

  function ParityAt(ss: seq<seq<byte>>, i: nat): byte
  {
    if ss == [] then 0 else Xor(ParityAt(ss[..|ss| - 1], i), At(ss[|ss| - 1], i))
  }

  function Longest(ss: seq<seq<byte>>): (n: nat)
    ensures forall s :: s in ss ==> |s| <= n
    ensures ss != [] ==> exists s :: s in ss && |s| == n
  {
    if ss == [] then 0
    else
      var front, last := ss[..|ss| - 1], ss[|ss| - 1];
      var n := Longest(front);
      assert forall s :: s in ss ==> s in front || s == last;
      assert last in ss && forall s :: s in front ==> s in ss;
      if |last| > n then |last| else n
  }

  /** The parity string: as long as the longest member, each octet the XOR of its column. */
  function ParityOf(ss: seq<seq<byte>>): (r: seq<byte>)
    ensures |r| == Longest(ss)
  {
    seq(Longest(ss), i requires 0 <= i => ParityAt(ss, i))
  }

  lemma {:induction false} ParityBeyondLongest(ss: seq<seq<byte>>, i: nat)
    requires i >= Longest(ss)
    ensures ParityAt(ss, i) == 0
  {
    if ss != [] {
      var front := ss[..|ss| - 1];
      assert ss[|ss| - 1] in ss;
      ParityBeyondLongest(front, i);
      XorLaws(0, 0, 0);
    }
  }

  lemma {:induction false} ParityOfAt(ss: seq<seq<byte>>, i: nat)
    ensures At(ParityOf(ss), i) == ParityAt(ss, i)
  {
    if i >= Longest(ss) {
      ParityBeyondLongest(ss, i);
    }
  }

  lemma {:induction false} ParityAppend(a: seq<seq<byte>>, b: seq<seq<byte>>, i: nat)
    ensures ParityAt(a + b, i) == Xor(ParityAt(a, i), ParityAt(b, i))
  {
    if b == [] {
      assert a + b == a;
      XorLaws(ParityAt(a, i), 0, 0);
    } else {
      var front, last := b[..|b| - 1], At(b[|b| - 1], i);
      assert (a + b)[..|a + b| - 1] == a + front;
      ParityAppend(a, front, i);
      XorLaws(ParityAt(a, i), ParityAt(front, i), last);
    }
  }

  function Without<T>(ss: seq<T>, x: nat): (r: seq<T>)
    requires x < |ss|
    ensures |r| == |ss| - 1
  {
    ss[..x] + ss[x + 1..]
  }

  lemma {:induction false} ParityWithout(ss: seq<seq<byte>>, x: nat, i: nat)
    requires x < |ss|
    ensures ParityAt(ss, i) == Xor(ParityAt(Without(ss, x), i), At(ss[x], i))
  {
    var a, b, m := ss[..x], ss[x + 1..], [ss[x]];
    assert ss == (a + m) + b;
    ParityAppend(a + m, b, i);
    ParityAppend(a, m, i);
    ParityAppend(a, b, i);
    assert ParityAt(m, i) == At(ss[x], i) by {
      XorLaws(At(ss[x], i), 0, 0);
      assert m[..0] == [];
    }
    var p, q, r := ParityAt(a, i), ParityAt(b, i), At(ss[x], i);
    XorLaws(p, r, q);
    XorLaws(r, q, 0);
    XorLaws(p, q, r);
  }

  /** The reason recovery works: the parity of all and the parity of all but one cancel to that one. */
  lemma {:induction false} Cancellation(ss: seq<seq<byte>>, x: nat, i: nat)
    requires x < |ss|
    ensures Xor(ParityAt(ss, i), ParityAt(Without(ss, x), i)) == At(ss[x], i)
  {
    ParityWithout(ss, x, i);
    var rest, missing := ParityAt(Without(ss, x), i), At(ss[x], i);
    XorLaws(rest, missing, 0);
    XorLaws(missing, rest, 0);
  }

  lemma {:induction false} LongestIsMaximum(ss: seq<seq<byte>>, n: nat)
    requires forall s :: s in ss ==> |s| <= n
    requires ss == [] ==> n == 0
    requires ss != [] ==> exists s :: s in ss && |s| == n
    ensures Longest(ss) == n
  {
  }

  lemma {:induction false} MultisetOfWithout<T>(ss: seq<T>, x: nat)
    requires x < |ss|
    ensures multiset(Without(ss, x)) == multiset(ss) - multiset{ss[x]}
  {
    assert ss == ss[..x] + [ss[x]] + ss[x + 1..];
  }

  lemma {:induction false} ParityIgnoresOrder(a: seq<seq<byte>>, b: seq<seq<byte>>, i: nat)
    requires multiset(a) == multiset(b)
    ensures ParityAt(a, i) == ParityAt(b, i)
    decreases |a|
  {
    if a == [] {
      assert |b| == |multiset(b)| == 0;
    } else {
      var last := |a| - 1;
      assert a[last] in multiset(b);
      var x :| 0 <= x < |b| && b[x] == a[last];
      MultisetOfWithout(a, last);
      MultisetOfWithout(b, x);
      assert Without(a, last) == a[..last];
      ParityIgnoresOrder(a[..last], Without(b, x), i);
      ParityWithout(b, x, i);
    }
  }

  /** Arrival order never shows in the parity string. */
  lemma {:induction false} OrderIrrelevant(a: seq<seq<byte>>, b: seq<seq<byte>>)
    requires multiset(a) == multiset(b)
    ensures ParityOf(a) == ParityOf(b)
  {
    assert forall s :: s in a <==> s in multiset(a);
    assert forall s :: s in b <==> s in multiset(b);
    assert a == [] <==> b == [] by {
      assert |multiset(a)| == |a| && |multiset(b)| == |b|;
    }
    LongestIsMaximum(b, Longest(a));
    forall i: nat | i < Longest(a) ensures ParityOf(a)[i] == ParityOf(b)[i] {
      ParityIgnoresOrder(a, b, i);
    }
  }
}
