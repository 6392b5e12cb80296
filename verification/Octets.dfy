/** Byte strings: big-endian numbers as in big.Int's SetBytes and Bytes, and XOR. */
module Octets {
  type byte = x: nat | x < 256
  type Bytes = seq<byte>

  function Repeat(b: byte, n: nat): (s: Bytes)
    ensures |s| == n && forall i :: 0 <= i < n ==> s[i] == b
  {
    seq(n, _ => b)
  }

  function Pow256(n: nat): (r: nat)
    ensures r > 0
  {
    if n == 0 then 1 else 256 * Pow256(n - 1)
  }

  lemma {:induction false} Pow256Monotone(m: nat, n: nat)
    requires m <= n
    ensures Pow256(m) <= Pow256(n)
  {
    if m < n {
      Pow256Monotone(m, n - 1);
    }
  }

  // big.Int.SetBytes
  function BigEndian(s: Bytes): nat {
    if s == [] then 0 else 256 * BigEndian(s[..|s| - 1]) + s[|s| - 1]
  }

  // big.Int.Bytes: no leading zero byte.
  function MinimalBytes(x: nat): Bytes {
    if x == 0 then [] else MinimalBytes(x / 256) + [x % 256]
  }

  // big.Int.FillBytes on a buffer of n bytes.
  function FixedBytes(x: nat, n: nat): (s: Bytes)
    ensures |s| == n
  {
    if n == 0 then [] else FixedBytes(x / 256, n - 1) + [x % 256]
  }

  lemma BigEndianAppend(s: Bytes, b: byte)
    ensures BigEndian(s + [b]) == 256 * BigEndian(s) + b
  {
    assert (s + [b])[..|s|] == s;
  }

  lemma {:induction false} BigEndianPrepend(b: byte, s: Bytes)
    ensures BigEndian([b] + s) == b * Pow256(|s|) + BigEndian(s)
  {
    if s == [] {
      assert [b] + s == [] + [b];
      BigEndianAppend([], b);
    } else {
      var front, last := s[..|s| - 1], s[|s| - 1];
      BigEndianPrepend(b, front);
      assert [b] + s == ([b] + front) + [last];
      BigEndianAppend([b] + front, last);
    }
  }

  lemma FirstDigit(s: Bytes)
    requires s != []
    ensures BigEndian(s) == s[0] * Pow256(|s| - 1) + BigEndian(s[1..]) && BigEndian(s[1..]) < Pow256(|s| - 1)
  {
    assert s == [s[0]] + s[1..];
    BigEndianPrepend(s[0], s[1..]);
    BigEndianBound(s[1..]);
  }

  lemma {:induction false} BigEndianBound(s: Bytes)
    ensures BigEndian(s) < Pow256(|s|)
  {
    if s != [] {
      BigEndianBound(s[..|s| - 1]);
    }
  }

  // A byte string without leading zero is recovered from its number.
  lemma {:induction false} MinimalOfBigEndian(s: Bytes)
    requires s != [] ==> s[0] != 0
    ensures MinimalBytes(BigEndian(s)) == s
  {
    if s != [] {
      var front := s[..|s| - 1];
      MinimalOfBigEndian(front);
      assert BigEndian(s) > 0 by {
        assert s == [s[0]] + s[1..];
        BigEndianPrepend(s[0], s[1..]);
      }
      assert s == front + [s[|s| - 1]];
    }
  }

  lemma {:induction false} BigEndianOfMinimal(x: nat)
    ensures BigEndian(MinimalBytes(x)) == x
    ensures MinimalBytes(x) != [] ==> MinimalBytes(x)[0] != 0
  {
    if x > 0 {
      BigEndianOfMinimal(x / 256);
      BigEndianAppend(MinimalBytes(x / 256), x % 256);
    }
  }

  lemma {:induction false} BigEndianOfFixed(x: nat, n: nat)
    requires x < Pow256(n)
    ensures BigEndian(FixedBytes(x, n)) == x
  {
    if n > 0 {
      BigEndianOfFixed(x / 256, n - 1);
      BigEndianAppend(FixedBytes(x / 256, n - 1), x % 256);
    }
  }

  lemma {:induction false} BigEndianConcat(s: Bytes, t: Bytes)
    ensures BigEndian(s + t) == BigEndian(s) * Pow256(|t|) + BigEndian(t)
  {
    if t == [] {
      assert s + t == s;
    } else {
      var front, last := t[..|t| - 1], t[|t| - 1];
      BigEndianConcat(s, front);
      BigEndianAppend(s + front, last);
      assert s + t == (s + front) + [last];
      Shift(BigEndian(s), Pow256(|front|), BigEndian(front), last);
    }
  }

  lemma Shift(a: nat, w: nat, b: nat, last: nat)
    ensures 256 * (a * w + b) + last == a * (256 * w) + (256 * b + last)
  {
  }

  // Of all strings of its length only that of ones everywhere stands for the largest number.
  lemma {:induction false} BelowLargest(s: Bytes)
    requires s != Repeat(0xff, |s|)
    ensures BigEndian(s) + 1 < Pow256(|s|)
  {
    if s != [] {
      var front := s[..|s| - 1];
      BigEndianBound(front);
      OnesEverywhere(front, s[|s| - 1]);
      assert s == front + [s[|s| - 1]];
      if front != Repeat(0xff, |front|) {
        BelowLargest(front);
      }
    }
  }

  lemma OnesEverywhere(front: Bytes, last: byte)
    ensures front == Repeat(0xff, |front|) && last == 0xff ==> front + [last] == Repeat(0xff, |front| + 1)
  {
  }

  // The number of strings of fewer than n bytes.
  function Shorter(n: nat): nat {
    if n == 0 then 0 else Shorter(n - 1) + Pow256(n - 1)
  }

  lemma {:induction false} ShorterMonotone(m: nat, n: nat)
    requires m <= n
    ensures Shorter(m) <= Shorter(n)
  {
    if m < n {
      ShorterMonotone(m, n - 1);
    }
  }

  // The position of a string when shorter strings come first, and greater ones of a length.
  function Rank(s: Bytes): nat {
    BigEndianBound(s);
    Shorter(|s|) + (Pow256(|s|) - 1 - BigEndian(s))
  }

  lemma ShorterRanksLower(s: Bytes, t: Bytes)
    requires |s| < |t|
    ensures Rank(s) < Rank(t)
  {
    ShorterMonotone(|s| + 1, |t|);
    BigEndianBound(s);
    BigEndianBound(t);
  }

  lemma GreaterRanksLower(s: Bytes, t: Bytes)
    requires |s| == |t| && BigEndian(s) >= BigEndian(t)
    ensures s == t || Rank(s) < Rank(t)
  {
    BigEndianBound(s);
    if BigEndian(s) == BigEndian(t) {
      BigEndianInjective(s, t);
    }
  }

  lemma {:induction false} BigEndianInjective(s: Bytes, t: Bytes)
    requires |s| == |t| && BigEndian(s) == BigEndian(t)
    ensures s == t
  {
    if s != [] {
      BigEndianInjective(s[..|s| - 1], t[..|t| - 1]);
      assert s == s[..|s| - 1] + [s[|s| - 1]] && t == t[..|t| - 1] + [t[|t| - 1]];
    }
  }

  // Bitwise exclusive or of the low n bits.
  function XorBits(a: nat, b: nat, n: nat): (r: nat)
  {
    if n == 0 then 0 else (a + b) % 2 + 2 * XorBits(a / 2, b / 2, n - 1)
  }

  function Pow2(n: nat): (r: nat)
    ensures r > 0
  {
    if n == 0 then 1 else 2 * Pow2(n - 1)
  }

  lemma {:induction false} XorBound(a: nat, b: nat, n: nat)
    ensures XorBits(a, b, n) < Pow2(n)
  {
    if n > 0 {
      XorBound(a / 2, b / 2, n - 1);
    }
  }

  lemma {:induction false} XorTwice(a: nat, b: nat, n: nat)
    requires a < Pow2(n)
    ensures XorBits(XorBits(a, b, n), b, n) == a
  {
    if n > 0 {
      var high := XorBits(a / 2, b / 2, n - 1);
      XorTwice(a / 2, b / 2, n - 1);
      XorLowBit(a, b, high);
    }
  }

  lemma XorLowBit(a: nat, b: nat, high: nat)
    ensures var c := (a + b) % 2 + 2 * high; c / 2 == high && (c + b) % 2 == a % 2
  {
    var c := (a + b) % 2 + 2 * high;
    assert c % 2 == (a + b) % 2;
    assert (c + b) % 2 == (c % 2 + b % 2) % 2;
  }

  lemma HalfOfHalf(x: nat, m: nat)
    requires m > 0
    ensures x / (2 * m) == x / 2 / m
  {
    var q, r := x / 2 / m, x / 2 % m;
    assert x / 2 == m * q + r;
    assert x == 2 * m * q + (2 * r + x % 2);
    QuotientIs(x, 2 * m, q, 2 * r + x % 2);
  }

  lemma QuotientIs(x: nat, m: nat, q: nat, r: nat)
    requires m > 0 && r < m && x == m * q + r
    ensures x / m == q
  {
    var d := x / m - q;
    assert m * d == r - x % m;
    assert d >= 1 ==> m * d >= m;
    assert d <= -1 ==> m * d + m <= 0;
  }

  function Halved(x: nat, k: nat): nat {
    if k == 0 then x else Halved(x / 2, k - 1)
  }

  lemma {:induction false} HalvedIsQuotient(x: nat, k: nat)
    ensures Halved(x, k) == x / Pow2(k)
  {
    if k > 0 {
      HalvedIsQuotient(x / 2, k - 1);
      HalfOfHalf(x, Pow2(k - 1));
    }
  }

  lemma {:induction false} BitOfXor(a: nat, b: nat, n: nat, k: nat)
    requires k < n
    ensures Halved(XorBits(a, b, n), k) % 2 == (Halved(a, k) + Halved(b, k)) % 2
  {
    XorLowBit(a, b, XorBits(a / 2, b / 2, n - 1));
    if k > 0 {
      BitOfXor(a / 2, b / 2, n - 1, k - 1);
    }
  }

  // c holds bit by bit the sum of a and b modulo two.
  ghost predicate CombinesBits(c: byte, a: byte, b: byte) {
    forall k: nat :: k < 8 ==> c / Pow2(k) % 2 == (a / Pow2(k) + b / Pow2(k)) % 2
  }

  function Xor(a: byte, b: byte): (r: byte)
    ensures XorBits(r, b, 8) == a
  {
    assert Pow2(8) == 256;
    XorBound(a, b, 8);
    XorTwice(a, b, 8);
    XorBits(a, b, 8)
  }

  lemma XorCombines(a: byte, b: byte)
    ensures CombinesBits(Xor(a, b), a, b)
  {
    forall k: nat | k < 8
      ensures Xor(a, b) / Pow2(k) % 2 == (a / Pow2(k) + b / Pow2(k)) % 2
    {
      BitOfXor(a, b, 8, k);
      HalvedIsQuotient(a, k);
      HalvedIsQuotient(b, k);
      HalvedIsQuotient(Xor(a, b), k);
    }
  }
}
