/** The group of mppj-go/group.go, in its multiplicative notation. A group is a record of
    operations; nothing is assumed of it beyond Laws(), and every law is stated through a
    predicate such as AssocAt, so that a proof instantiates it by asserting that predicate. */
module Groups {
  import opened Permutations

  datatype Group<!P(!new)> = Group(order: nat, one: P, gen: P, add: (P, P) -> P, neg: P -> P) {

    // group.go Mul, Invert, ScalarExp and BaseExp.
    function Mul(a: P, b: P): P { add(a, b) }

    function Invert(a: P): P { neg(a) }

    function Exp(a: P, n: nat): P {
      if n == 0 then one else Mul(a, Exp(a, n - 1))
    }

    function BaseExp(n: nat): P { Exp(gen, n) }

    // Scalars are kept reduced modulo the group order.
    function ScalarAdd(a: nat, b: nat): nat requires order > 0 { (a + b) % order }

    function ScalarMul(a: nat, b: nat): nat requires order > 0 { (a * b) % order }

    function ScalarNeg(a: nat): nat requires order > 0 { (order - a % order) % order }

    ghost predicate AssocAt(a: P, b: P, c: P) { Mul(Mul(a, b), c) == Mul(a, Mul(b, c)) }
    ghost predicate CommAt(a: P, b: P) { Mul(a, b) == Mul(b, a) }
    ghost predicate UnitAt(a: P) { Mul(a, one) == a }
    ghost predicate InverseAt(a: P) { Mul(a, Invert(a)) == one }
    ghost predicate OrderAt(a: P) { Exp(a, order) == one }

    ghost predicate Laws() {
      && order > 0
      && (forall a, b, c :: AssocAt(a, b, c))
      && (forall a, b :: CommAt(a, b))
      && (forall a :: UnitAt(a))
      && (forall a :: InverseAt(a))
      && (forall a :: OrderAt(a))
    }

    // (ab)(cd) = (ac)(bd)
    lemma Exchange(a: P, b: P, c: P, d: P)
      requires Laws()
      ensures Mul(Mul(a, b), Mul(c, d)) == Mul(Mul(a, c), Mul(b, d))
    {
      assert AssocAt(a, b, Mul(c, d)) && AssocAt(b, c, d) && CommAt(b, c);
      assert AssocAt(c, b, d) && AssocAt(a, c, Mul(b, d));
    }

    lemma UndoMul(a: P, b: P)
      requires Laws()
      ensures Mul(Mul(a, b), Invert(a)) == b
    {
      assert CommAt(a, b) && AssocAt(b, a, Invert(a)) && InverseAt(a) && UnitAt(b);
    }

    lemma {:induction false} ExpAdd(a: P, m: nat, n: nat)
      requires Laws()
      ensures Exp(a, m + n) == Mul(Exp(a, m), Exp(a, n))
    {
      if m == 0 {
        assert CommAt(one, Exp(a, n)) && UnitAt(Exp(a, n));
      } else {
        ExpAdd(a, m - 1, n);
        assert AssocAt(a, Exp(a, m - 1), Exp(a, n));
      }
    }

    lemma {:induction false} ExpMul(a: P, m: nat, n: nat)
      requires Laws()
      ensures Exp(Exp(a, m), n) == Exp(a, m * n)
    {
      if n != 0 {
        ExpMul(a, m, n - 1);
        ExpAdd(a, m, m * (n - 1));
        assert m + m * (n - 1) == m * n;
      }
    }

    lemma {:induction false} ExpOfProduct(a: P, b: P, n: nat)
      requires Laws()
      ensures Exp(Mul(a, b), n) == Mul(Exp(a, n), Exp(b, n))
    {
      if n == 0 {
        assert UnitAt(one);
      } else {
        ExpOfProduct(a, b, n - 1);
        Exchange(a, b, Exp(a, n - 1), Exp(b, n - 1));
      }
    }

    lemma {:induction false} ExpOne(n: nat)
      requires Laws()
      ensures Exp(one, n) == one
    {
      if n != 0 {
        ExpOne(n - 1);
        assert UnitAt(one);
      }
    }

    // Exponents only matter modulo the order of the group.
    lemma ExpMod(a: P, n: nat)
      requires Laws()
      ensures Exp(a, n % order) == Exp(a, n)
    {
      var k := n / order;
      assert n == order * k + n % order;
      ExpAdd(a, order * k, n % order);
      ExpMul(a, order, k);
      ExpOne(k);
      assert OrderAt(a) && CommAt(one, Exp(a, n % order)) && UnitAt(Exp(a, n % order));
    }

    // Negation modulo the order.
    lemma NegatedScalar(a: nat)
      requires order > 0
      ensures ScalarNeg(a) < order && (ScalarNeg(a) + a) % order == 0
    {
      var q, r := a / order, a % order;
      assert a == order * q + r;
      if r == 0 {
        assert ScalarNeg(a) == 0;
      } else {
        assert ScalarNeg(a) == order - r;
        assert ScalarNeg(a) + a == order * (q + 1);
        MultipleOf(q + 1);
      }
    }

    lemma MultipleOf(k: nat)
      requires order > 0
      ensures order * k % order == 0
    {
      var q, r := order * k / order, order * k % order;
      assert r == order * (k - q);
      assert k - q >= 1 ==> order * (k - q) >= order;
      assert k - q <= -1 ==> order * (k - q) + order <= 0;
    }

    // Scalar addition, multiplication and negation act on exponents as they should.
    lemma ScalarLaws(a: P, m: nat, n: nat)
      requires Laws()
      ensures Exp(a, ScalarAdd(m, n)) == Mul(Exp(a, m), Exp(a, n))
      ensures Exp(a, ScalarMul(m, n)) == Exp(Exp(a, m), n)
      ensures Mul(Exp(a, m), Exp(a, ScalarNeg(m))) == one
    {
      ExpMod(a, m + n);
      ExpAdd(a, m, n);
      ExpMod(a, m * n);
      ExpMul(a, m, n);
      var r := m % order;
      ExpMod(a, m);
      ExpMod(a, order - r);
      ExpAdd(a, r, order - r);
      assert OrderAt(a);
    }

    function Product(s: seq<P>): P {
      if s == [] then one else Mul(s[0], Product(s[1..]))
    }

    lemma {:induction false} ProductAppend(s: seq<P>, x: P)
      requires Laws()
      ensures Product(s + [x]) == Mul(Product(s), x)
    {
      if s == [] {
        assert CommAt(one, x);
      } else {
        ProductAppend(s[1..], x);
        assert (s + [x])[1..] == s[1..] + [x];
        assert AssocAt(s[0], Product(s[1..]), x);
      }
    }

    // The power by n is the product of n copies.
    lemma {:induction false} ExpIsProduct(a: P, copies: seq<P>)
      requires forall i :: 0 <= i < |copies| ==> copies[i] == a
      ensures Product(copies) == Exp(a, |copies|)
    {
      if copies != [] {
        ExpIsProduct(a, copies[1..]);
      }
    }

    // The product of powers of one base is its power by the sum of the exponents.
    lemma {:induction false} ProductOfPowers(a: P, exponents: seq<nat>)
      requires Laws()
      ensures Product(Permutations.Map(n => Exp(a, n), exponents)) == Exp(a, Sum(exponents))
    {
      if exponents != [] {
        ProductOfPowers(a, exponents[1..]);
        assert Permutations.Map(n => Exp(a, n), exponents)[1..] == Permutations.Map(n => Exp(a, n), exponents[1..]);
        ExpAdd(a, exponents[0], Sum(exponents[1..]));
      }
    }

    lemma {:induction false} ProductSplit(s: seq<P>, i: nat)
      requires Laws() && i < |s|
      ensures Product(s) == Mul(s[i], Product(Remove(s, i)))
    {
      if i == 0 {
        assert Remove(s, 0) == s[1..];
      } else {
        ProductSplit(s[1..], i - 1);
        assert Remove(s, i)[0] == s[0] && Remove(s, i)[1..] == Remove(s[1..], i - 1);
        var rest := Product(Remove(s[1..], i - 1));
        assert AssocAt(s[0], s[i], rest) && AssocAt(s[i], s[0], rest) && CommAt(s[0], s[i]);
      }
    }

    // MulBatched does not depend on the order of the points.
    lemma {:induction false} ProductOfPermutation(s: seq<P>, t: seq<P>)
      requires Laws() && multiset(s) == multiset(t)
      ensures Product(s) == Product(t)
    {
      if s == [] {
        assert |multiset(t)| == |t|;
      } else {
        assert s[0] in multiset(t);
        var i :| 0 <= i < |t| && t[i] == s[0];
        assert Remove(s, 0) == s[1..];
        RemoveFromBoth(s, 0, t, i);
        ProductOfPermutation(s[1..], Remove(t, i));
        ProductSplit(t, i);
      }
    }

    method MulBatched(points: seq<P>) returns (result: P)
      requires Laws()
      ensures result == Product(points)
    {
      if |points| == 0 {
        return one;
      }
      result := points[0];
      assert UnitAt(points[0]) && points[..1] == [points[0]];
      for i := 1 to |points|
        invariant result == Product(points[..i])
      {
        ProductAppend(points[..i], points[i]);
        assert points[..i] + [points[i]] == points[..i + 1];
        result := Mul(result, points[i]);
      }
      assert points[..|points|] == points;
    }
  }

  // Draws of RandomScalar.
  method RandomScalars(n: nat) returns (scalars: seq<nat>)
    ensures |scalars| == n
  {
    scalars := [];
    while |scalars| < n
      invariant |scalars| <= n
    {
      var r: nat :| true;
      scalars := scalars + [r];
    }
  }
}
