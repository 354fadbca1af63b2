/** Octets, the XOR the FEC code folds them with, and the big-endian words of the wire formats. */
module Octets {
  type byte = n: int | 0 <= n < 256
  type uint16 = n: int | 0 <= n < 0x1_0000
  type uint32 = n: int | 0 <= n < 0x1_0000_0000

  /** Exclusive or of two naturals, bit by bit from the least significant one. */
  function XorNat(a: nat, b: nat): nat
  {
    if a == 0 && b == 0 then 0
    else (if a % 2 == b % 2 then 0 else 1) + 2 * XorNat(a / 2, b / 2)
  }

  function Pow2(n: nat): (r: nat)
    ensures r >= 1
  {
    if n == 0 then 1 else 2 * Pow2(n - 1)
  }

  lemma {:induction false} XorBelow(a: nat, b: nat, n: nat)
    requires a < Pow2(n) && b < Pow2(n)
    ensures XorNat(a, b) < Pow2(n)
  {
    if n == 0 {
    } else {
      XorBelow(a / 2, b / 2, n - 1);
    }
  }

  /** `a ^ b` on `uint8_t`. */
  function Xor(a: byte, b: byte): byte
  {
    assert Pow2(8) == 256;
    XorBelow(a, b, 8);
    XorNat(a, b)
  }

  lemma {:induction false} XorNatCommutes(a: nat, b: nat)
    ensures XorNat(a, b) == XorNat(b, a)
  {
    if a == 0 && b == 0 {
    } else {
      XorNatCommutes(a / 2, b / 2);
    }
  }

  lemma {:induction false} XorNatAssociates(a: nat, b: nat, c: nat)
    ensures XorNat(XorNat(a, b), c) == XorNat(a, XorNat(b, c))
    decreases a + b + c
  {
    if a == 0 && b == 0 && c == 0 {
    } else {
      XorNatAssociates(a / 2, b / 2, c / 2);
      XorNatParts(a, b);
      XorNatParts(b, c);
      XorNatParts(XorNat(a, b), c);
      XorNatParts(a, XorNat(b, c));
      hide XorNat;
    }
  }

  lemma {:induction false} XorNatParts(a: nat, b: nat)
    ensures XorNat(a, b) / 2 == XorNat(a / 2, b / 2) && XorNat(a, b) % 2 == if a % 2 == b % 2 then 0 else 1
  {
  }

  lemma {:induction false} XorNatSelf(a: nat)
    ensures XorNat(a, a) == 0
    ensures XorNat(a, 0) == a
  {
    if a != 0 {
      XorNatSelf(a / 2);
    }
  }

  /** The group laws the recovery argument rests on. */
  lemma {:induction false} XorLaws(a: byte, b: byte, c: byte)
    ensures Xor(a, b) == Xor(b, a)
    ensures Xor(Xor(a, b), c) == Xor(a, Xor(b, c))
    ensures Xor(a, a) == 0 && Xor(a, 0) == a && Xor(0, a) == a
    ensures Xor(Xor(a, b), b) == a
  {
    XorNatCommutes(a, b);
    XorNatCommutes(a, 0);
    XorNatAssociates(a, b, c);
    XorNatAssociates(a, b, b);
    XorNatSelf(a);
    XorNatSelf(b);
  }

  lemma {:induction false} ProductAtLeast(k: nat, d: int)
    requires d >= 1
    ensures k * d >= k
  {
  }

  lemma {:induction false} RemainderUnique(n: nat, k: nat, q: nat, r: nat)
    requires r < k && n == k * q + r
    ensures n % k == r && n / k == q
  {
    var d := n / k - q;
    assert k * d == r - n % k by {
      assert n == k * (n / k) + n % k;
      assert k * d == k * (n / k) - k * q;
    }
    assert d == 0 by {
      if d >= 1 {
        ProductAtLeast(k, d);
      } else if d <= -1 {
        ProductAtLeast(k, -d);
      }
    }
  }

  /** The `n` least significant bits of `a`. */
  function LowBits(a: nat, n: nat): nat
  {
    if n == 0 then 0 else a % 2 + 2 * LowBits(a / 2, n - 1)
  }

  lemma {:induction false} XorOfLowBits(a: nat, b: nat, n: nat)
    ensures LowBits(XorNat(a, b), n) == XorNat(LowBits(a, n), LowBits(b, n))
  {
    if n == 0 {
    } else {
      XorOfLowBits(a / 2, b / 2, n - 1);
    }
  }

  /** One more bit is one more power of two. */
  lemma {:induction false} LowBit(a: nat, low: nat, half: nat)
    requires half > 0 && low == a / 2 % half
    ensures a % 2 + 2 * low == a % (2 * half)
  {
    var q := a / 2 / half;
    assert a / 2 == half * q + low;
    assert a == (2 * half) * q + (a % 2 + 2 * low) by {
      assert 2 * (half * q) == (2 * half) * q;
    }
    RemainderUnique(a, 2 * half, q, a % 2 + 2 * low);
  }

  lemma {:induction false} LowBitsAreRemainder(a: nat, n: nat)
    ensures LowBits(a, n) == a % Pow2(n)
  {
    if n > 0 {
      LowBitsAreRemainder(a / 2, n - 1);
      LowBit(a, LowBits(a / 2, n - 1), Pow2(n - 1));
    }
  }

  lemma {:induction false} LowSixBits(a: nat)
    ensures LowBits(a, 6) == a % 64
  {
    LowBitsAreRemainder(a, 6);
    assert Pow2(6) == 64;
    hide LowBits;
  }

  /** The low six bits of an XOR depend only on the low six bits of its operands. */
  lemma {:induction false} XorLowSix(a: byte, b: byte)
    ensures Xor(a, b) % 64 == Xor(a % 64, b % 64)
  {
    XorOfLowBits(a, b, 6);
    LowSixBits(a);
    LowSixBits(b);
    LowSixBits(Xor(a, b));
  }

  /** Inclusive or of two naturals, bit by bit. */
  function OrNat(a: nat, b: nat): nat
  {
    if a == 0 && b == 0 then 0
    else (if a % 2 == 1 || b % 2 == 1 then 1 else 0) + 2 * OrNat(a / 2, b / 2)
  }

  lemma {:induction false} OrBelow(a: nat, b: nat, n: nat)
    requires a < Pow2(n) && b < Pow2(n)
    ensures OrNat(a, b) < Pow2(n)
  {
    if n == 0 {
    } else {
      OrBelow(a / 2, b / 2, n - 1);
    }
  }

  /** `a | b` on `uint8_t`. */
  function Or(a: byte, b: byte): byte
  {
    assert Pow2(8) == 256;
    OrBelow(a, b, 8);
    OrNat(a, b)
  }

  lemma {:induction false} OrDisjoint(a: nat, b: nat, n: nat)
    requires b < Pow2(n)
    ensures OrNat(Pow2(n) * a, b) == Pow2(n) * a + b
  {
    if n == 0 {
      OrZero(a);
    } else {
      var half := Pow2(n - 1) * a;
      assert Pow2(n) * a == 2 * half;
      OrDisjoint(a, b / 2, n - 1);
    }
  }

  lemma {:induction false} OrZero(a: nat)
    ensures OrNat(a, 0) == a
  {
    if a != 0 {
      OrZero(a / 2);
    }
  }

  /** Bit `i` of an octet, counted from the most significant one. */
  predicate Bit(o: byte, i: nat)
    requires i < 8
  {
    o / Weight(i) % 2 == 1
  }

  function Weight(i: nat): (w: nat)
    requires i < 8
    ensures 0 < w < 256
  {
    [128, 64, 32, 16, 8, 4, 2, 1][i]
  }

  // ---- big-endian words ----

  function Word(n: uint16): (r: seq<byte>)
    ensures |r| == 2
  {
    [n / 256, n % 256]
  }

  function Dword(n: uint32): (r: seq<byte>)
    ensures |r| == 4
  {
    Word(n / 0x1_0000) + Word(n % 0x1_0000)
  }

  function WordAt(s: seq<byte>, i: nat): uint16
    requires i + 2 <= |s|
  {
    256 * (s[i] as int) + s[i + 1]
  }

  function DwordAt(s: seq<byte>, i: nat): uint32
    requires i + 4 <= |s|
  {
    0x1_0000 * (WordAt(s, i) as int) + WordAt(s, i + 2)
  }

  /** Words and double words have their most significant octet first. */
  lemma {:induction false} BigEndian(s: seq<byte>, i: nat)
    requires i + 4 <= |s|
    ensures WordAt(s, i) == 256 * (s[i] as int) + s[i + 1]
    ensures DwordAt(s, i)
         == 16777216 * (s[i] as int) + 65536 * (s[i + 1] as int) + 256 * (s[i + 2] as int) + s[i + 3]
  {
  }

  lemma {:induction false} WordRoundTrip(n: uint16, s: seq<byte>, i: nat)
    requires i + 2 <= |s|
    ensures s[i..i + 2] == Word(n) <==> WordAt(s, i) == n
  {
    assert s[i..i + 2] == [s[i], s[i + 1]];
  }

  lemma {:induction false} DwordRoundTrip(n: uint32, s: seq<byte>, i: nat)
    requires i + 4 <= |s|
    ensures s[i..i + 4] == Dword(n) <==> DwordAt(s, i) == n
  {
    var hi, lo := WordAt(s, i), WordAt(s, i + 2);
    WordRoundTrip(n / 0x1_0000, s, i);
    WordRoundTrip(n % 0x1_0000, s, i + 2);
    assert s[i..i + 4] == s[i..i + 2] + s[i + 2..i + 4];
    if s[i..i + 4] == Dword(n) {
      assert s[i..i + 2] == Dword(n)[..2] && s[i + 2..i + 4] == Dword(n)[2..];
    }
  }
}
