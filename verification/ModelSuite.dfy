/** The laws assumed of the primitives can be met together: a suite that meets them, for every b. Its
    points are the numbers modulo an odd m, two for every field element, on its curve or not, and its
    key stream is constant, so that it shows consistency only. */
module ModelSuites {
  import opened Groups
  import opened Octets
  import opened Options
  import opened Suites

  function FieldSize(): (p: nat)
    ensures p > 0
  {
    Pow256(FIELD_BYTES) - 1
  }

  function Order(): nat { 2 * FieldSize() + 1 }

  type Residue = i: nat | i < Order()

  function AddMod(a: Residue, b: Residue): Residue {
    if a + b < Order() then a + b else a + b - Order()
  }

  function NegMod(a: Residue): Residue {
    if a == 0 then 0 else Order() - a
  }

  function ResidueGroup(): Group<Residue> {
    Group(Order(), 0, 1, AddMod, NegMod)
  }

  // Exp(a, n) is n * a modulo the order.
  lemma {:induction false} ExpIsMultiple(a: Residue, n: nat) returns (k: nat)
    ensures n * a == ResidueGroup().Exp(a, n) + k * Order()
  {
    if n == 0 {
      k := 0;
    } else {
      var k' := ExpIsMultiple(a, n - 1);
      var before := ResidueGroup().Exp(a, n - 1);
      assert n * a == a + (n - 1) * a;
      k := if a + before < Order() then k' else k' + 1;
      assert (k' + 1) * Order() == k' * Order() + Order();
    }
  }

  lemma MultipleBelow(r: int, a: int, k: int, m: int)
    requires m * a == r + k * m && 0 <= r < m
    ensures r == 0
  {
    assert r == m * (a - k);
    assert a - k >= 1 ==> m * (a - k) >= m;
    assert a - k <= -1 ==> m * (a - k) <= -m;
  }

  lemma ResidueOrder(a: Residue)
    ensures ResidueGroup().OrderAt(a)
  {
    var k := ExpIsMultiple(a, Order());
    MultipleBelow(ResidueGroup().Exp(a, Order()), a, k, Order());
  }

  lemma ResidueLaws()
    ensures ResidueGroup().Laws()
  {
    var G := ResidueGroup();
    forall a: Residue {
      ResidueOrder(a);
    }
    assert forall a, b, c :: G.AssocAt(a, b, c);
    assert forall a, b :: G.CommAt(a, b);
    assert forall a :: G.UnitAt(a);
    assert forall a :: G.InverseAt(a);
  }

  // Point 1 + 2x + s has the x-coordinate x; s tells it from the other point with that x.
  function Coordinate(a: Residue): (x: nat)
    requires a != 0
    ensures x < FieldSize()
  {
    assert a < Order();
    (a - 1) / 2
  }

  function PointAt(x: nat, s: nat): Residue
    requires x < FieldSize() && s < 2
  {
    1 + 2 * x + s
  }

  function Marshal(a: Residue): Bytes {
    if a == 0 then [0] else [2 + (a - 1) % 2] + FixedBytes(Coordinate(a), FIELD_BYTES)
  }

  function Unmarshal(data: Bytes): Option<Residue> {
    if data == [0] then Some(0)
    else if |data| == POINT_LENGTH && data[0] in {2, 3} && BigEndian(data[1..]) < FieldSize() then
      Some(PointAt(BigEndian(data[1..]), data[0] - 2))
    else if |data| == 65 && data[0] == 4 && BigEndian(data[1..33]) < FieldSize() then
      Some(PointAt(BigEndian(data[1..33]), BigEndian(data[33..]) % 2))
    else None
  }

  // A square root, whenever there is one.
  ghost function Root(c: CurveParams, v: nat): (r: Option<nat>)
    requires c.p > 0
    ensures r.Some? ==> r.value < c.p && c.IsRoot(v, r.value)
    ensures r.None? ==> forall y: nat :: !c.IsRoot(v, y)
  {
    if exists y: nat :: c.IsRoot(v, y) then
      var y: nat :| c.IsRoot(v, y);
      ReducedRoot(c, v, y);
      Some(y % c.p)
    else None
  }

  lemma ReducedRoot(c: CurveParams, v: nat, y: nat)
    requires c.p > 0 && c.IsRoot(v, y)
    ensures c.IsRoot(v, y % c.p)
  {
    var q, r := y / c.p, y % c.p;
    assert y * y - r * r == c.p * (q * (y + r)) by {
      assert y == c.p * q + r;
      assert y * y - r * r == (y - r) * (y + r);
    }
    MultipleIsZero(q * (y + r), c.p);
    SameResidue(y * y, r * r, c.p);
  }

  ghost function ModelSuite(b: nat): Suite<Residue> {
    var c := CurveParams(FieldSize(), b);
    Suite(ResidueGroup(), c, (msg, dst) => 1, Marshal, Unmarshal, v => Root(c, v), x => Root(c, c.Polynomial(x)),
      (secret, salt) => Repeat(0, KEY_SIZE), (key, i) => 0)
  }

  lemma DecodeNonZero(data: Bytes, x: nat, s: nat)
    requires |data| == POINT_LENGTH && s < 2 && data[0] == 2 + s
    requires BigEndian(data[1..]) == x < FieldSize()
    ensures Unmarshal(data) == Some(PointAt(x, s))
  {
  }

  lemma MarshalledCoordinate(a: Residue)
    requires a != 0
    ensures BigEndian(Marshal(a)[1..]) == Coordinate(a)
  {
    assert Marshal(a)[1..] == FixedBytes(Coordinate(a), FIELD_BYTES);
    BigEndianOfFixed(Coordinate(a), FIELD_BYTES);
  }

  lemma ModelDecodes(a: Residue)
    ensures Unmarshal(Marshal(a)) == Some(a)
  {
    if a != 0 {
      MarshalledCoordinate(a);
      DecodeNonZero(Marshal(a), Coordinate(a), (a - 1) % 2);
    }
  }

  lemma ModelEncodes(b: nat, a: Residue)
    ensures ModelSuite(b).EncodingAt(a)
  {
    ModelDecodes(a);
    assert ModelSuite(b).Marshal(a) == Marshal(a) && ModelSuite(b).Unmarshal(Marshal(a)) == Unmarshal(Marshal(a));
  }

  lemma ModelLifts(b: nat, x: nat, y: nat)
    ensures ModelSuite(b).LiftAt(x, y)
  {
    if x < FieldSize() && y < FieldSize() {
      UncompressedDecodes(x, y);
      PointMarshals(x, y % 2);
    }
  }

  lemma PointMarshals(x: nat, s: nat)
    requires x < FieldSize() && s < 2
    ensures PointAt(x, s) != 0 && Marshal(PointAt(x, s)) == [2 + s] + FixedBytes(x, FIELD_BYTES)
  {
    var a := PointAt(x, s);
    assert Coordinate(a) == x && (a - 1) % 2 == s;
  }

  lemma UncompressedDecodes(x: nat, y: nat)
    requires x < FieldSize() && y < FieldSize()
    ensures Unmarshal(Suite<Residue>.Uncompressed(x, y)) == Some(PointAt(x, y % 2))
  {
    var data := Suite<Residue>.Uncompressed(x, y);
    assert data[1..33] == FixedBytes(x, FIELD_BYTES) && data[33..] == FixedBytes(y, FIELD_BYTES);
    BigEndianOfFixed(x, FIELD_BYTES);
    BigEndianOfFixed(y, FIELD_BYTES);
  }

  lemma ModelFits(b: nat)
    ensures ModelSuite(b).curve.Fits()
  {
  }

  // The laws are consistent.
  lemma LawsHold(b: nat)
    ensures ModelSuite(b).Laws()
  {
    var S := ModelSuite(b);
    ResidueLaws();
    ModelFits(b);
    forall a: Residue ensures S.EncodingAt(a) { ModelEncodes(b, a); }
    forall x: nat, y: nat ensures S.LiftAt(x, y) { ModelLifts(b, x, y); }
    assert forall data: Bytes :: S.DecodingAt(data);
    assert forall x: nat :: S.OrdinateLawAt(x);
    assert forall v: nat :: S.SqrtAt(v);
    assert forall secret: Bytes, salt: Bytes :: S.KeyAt(secret, salt);
  }

  // ----- A curve with points at two given x-coordinates -----

  lemma OddSize()
    ensures FieldSize() % 2 == 1
  {
    assert Pow256(FIELD_BYTES) == 256 * Pow256(31);
  }

  // Modulo an odd number every number is the same as an odd one.
  lemma OddResidue(p: nat, f: int) returns (odd: nat, k: int)
    requires p % 2 == 1
    ensures f == p * k + odd && odd % 2 == 1
  {
    odd, k := f % p, f / p;
    if odd % 2 == 0 {
      odd, k := odd + p, k - 1;
      assert p * (k + 1) == p * k + p;
    }
  }

  lemma Residual(p: nat, f: int) returns (b: nat, l: int)
    requires p > 0
    ensures f == p * l + b
  {
    b, l := f % p, f / p;
  }

  // The ordinates are y and y + 1.
  lemma CurveThrough(x1: nat, x2: nat) returns (b: nat)
    ensures CurveParams(FieldSize(), b).HasPointAt(x1) && CurveParams(FieldSize(), b).HasPointAt(x2)
  {
    var p, f1, f2 := FieldSize(), x1 * x1 * x1 - 3 * x1, x2 * x2 * x2 - 3 * x2;
    OddSize();
    var odd, k := OddResidue(p, f2 - f1);
    var y := odd / 2;
    var l;
    b, l := Residual(p, y * y - f1);
    OnCurveBy(CurveParams(p, b), x1, y, l);
    NextSquare(p, y, odd, f1, f2, b, k, l);
    OnCurveBy(CurveParams(p, b), x2, y + 1, l - k);
  }

  lemma NextSquare(p: nat, y: nat, odd: nat, f1: int, f2: int, b: nat, k: int, l: int)
    requires odd == 2 * y + 1 && f2 - f1 == p * k + odd && y * y - f1 == p * l + b
    ensures (y + 1) * (y + 1) - f2 == p * (l - k) + b
  {
    assert (y + 1) * (y + 1) == y * y + odd;
    assert p * (l - k) == p * l - p * k;
  }

  lemma OnCurveBy(c: CurveParams, x: nat, y: nat, k: int)
    requires c.p > 0 && y * y + 3 * x - (x * x * x + c.b) == c.p * k
    ensures c.HasPointAt(x)
  {
    MultipleIsZero(k, c.p);
    SameResidue(y * y + 3 * x, x * x * x + c.b, c.p);
    assert c.OnCurve(x, y);
  }
}
