/** The cryptographic primitives the protocol is built on, as a record of operations, with the
    laws the proofs rely on. The bodies of circl, elliptic, hkdf and aes are not modelled. */
module Suites {
  import opened Groups
  import opened Octets
  import opened Options

  // The parameters of the curve y^2 = x^3 - 3x + b over the integers modulo p.
  datatype CurveParams = CurveParams(p: nat, b: nat) {
    // What the message embedding needs: p has 32 bytes, and does not start low.
    ghost predicate Fits() {
      p > 0 && exists top: nat :: top + 1 == FIELD_BYTES && 6 * Pow256(top) <= p <= 256 * Pow256(top)
    }

    // The right-hand side that elliptic.polynomial computes.
    function Polynomial(x: nat): nat
      requires p > 0
    {
      (x * x * x - 3 * x + b) % p
    }

    // (x, y) is on the curve: the equation, without a negative term.
    ghost predicate OnCurve(x: nat, y: nat)
      requires p > 0
    {
      (y * y + 3 * x) % p == (x * x * x + b) % p
    }

    ghost predicate HasPointAt(x: nat)
      requires p > 0
    {
      exists y: nat :: OnCurve(x, y)
    }

    // y is a square root of v modulo p.
    ghost predicate IsRoot(v: nat, y: nat)
      requires p > 0
    {
      y * y % p == v
    }

    // What elliptic.polynomial computes decides the equation.
    lemma RootsAreOrdinates(x: nat, y: nat)
      requires p > 0
      ensures IsRoot(Polynomial(x), y) <==> OnCurve(x, y)
    {
      ShiftMod(y * y, x * x * x - 3 * x + b, 3 * x, p);
    }
  }

  lemma ShiftMod(a: int, c: int, d: int, m: nat)
    requires m > 0
    ensures a % m == c % m <==> (a + d) % m == (c + d) % m
  {
    SameResidue(a, c, m);
    SameResidue(a + d, c + d, m);
  }

  // Two numbers have the same remainder exactly if their difference is a multiple.
  lemma SameResidue(a: int, c: int, m: nat)
    requires m > 0
    ensures a % m == c % m <==> (a - c) % m == 0
  {
    var q, s := a / m, c / m;
    var r := a % m - c % m;
    assert a - c == m * (q - s) + r;
    if (a - c) % m == 0 {
      var k := (a - c) / m;
      assert r == m * (k - q + s);
      assert k - q + s >= 1 ==> m * (k - q + s) >= m;
      assert k - q + s <= -1 ==> m * (k - q + s) + m <= 0;
    }
    if r == 0 {
      MultipleIsZero(q - s, m);
    }
  }

  lemma MultipleIsZero(k: int, m: nat)
    requires m > 0
    ensures m * k % m == 0
  {
    var q, r := m * k / m, m * k % m;
    assert r == m * (k - q);
    assert k - q >= 1 ==> m * (k - q) >= m;
    assert k - q <= -1 ==> m * (k - q) + m <= 0;
  }

  // NIST P-256 (section D.1.2.3 of FIPS 186-4).
  const P256: CurveParams := CurveParams(
    0xffffffff00000001000000000000000000000000ffffffffffffffffffffffff,
    0x5ac635d8aa3a93e7b3ebbd55769886bc651d06b0cc53b0f63bce3c3e27d2604b)

  // The base point of P-256, of the same section, is on the curve.
  lemma P256BasePoint()
    ensures P256.OnCurve(0x6b17d1f2e12c4247f8bce6e563a440f277037d812deb33a0f4a13945d898c296,
      0x4fe342e2fe1a7f9b8ee7eb4a7c0f9e162bce33576b315ececbb6406837bf51f5)
  {
  }

  lemma P256Fits()
    ensures P256.Fits()
  {
    Pow256Of31();
    Sized(P256, 31);
  }

  lemma Pow256Of31()
    ensures Pow256(31) == 0x100000000000000000000000000000000000000000000000000000000000000
  {
    assert Pow256(4) == 0x100000000;
    assert Pow256(8) == 0x10000000000000000;
    assert Pow256(12) == 0x1000000000000000000000000;
    assert Pow256(16) == 0x100000000000000000000000000000000;
    assert Pow256(20) == 0x10000000000000000000000000000000000000000;
    assert Pow256(24) == 0x1000000000000000000000000000000000000000000000000;
    assert Pow256(28) == 0x100000000000000000000000000000000000000000000000000000000;
  }

  lemma Sized(c: CurveParams, top: nat)
    requires top + 1 == FIELD_BYTES && c.p > 0 && 6 * Pow256(top) <= c.p <= 256 * Pow256(top)
    ensures c.Fits()
  {
  }

  // Length of a compressed non-identity point, section 2.3.3 of SEC 1 v2.0.
  const POINT_LENGTH: nat := 33
  const FIELD_BYTES: nat := 32
  const KEY_SIZE: nat := 16

  datatype Suite<!P(!new)> = Suite(
    group: Group<P>,
    curve: CurveParams,
    hashToElement: (Bytes, Bytes) -> P,
    marshalCompressed: P -> Bytes,
    unmarshalBinary: Bytes -> Option<P>,
    modSqrt: nat -> Option<nat>,
    ordinate: nat -> Option<nat>,
    hkdf: (Bytes, Bytes) -> Bytes,
    aesKeystream: (Bytes, nat) -> byte)
  {
    function Marshal(a: P): Bytes { marshalCompressed(a) }

    function Unmarshal(data: Bytes): Option<P> { unmarshalBinary(data) }

    // A square root of v modulo curve.p, if there is one.
    function Sqrt(v: nat): Option<nat> { modSqrt(v) }

    // A y such that (x, y) is on the curve, if there is one.
    function OrdinateAt(x: nat): Option<nat> { ordinate(x) }

    ghost predicate OrdinateLawAt(x: nat)
      requires curve.p > 0
    {
      OrdinateAt(x) == Sqrt(curve.Polynomial(x))
    }

    // ModSqrt finds a root exactly if there is one.
    ghost predicate SqrtAt(v: nat)
      requires curve.p > 0
    {
      match Sqrt(v)
      case Some(y) => y < curve.p && curve.IsRoot(v, y)
      case None => forall y: nat :: !curve.IsRoot(v, y)
    }

    // The key derivation of KeyFromPoint: secret and salt; the info string and KEY_SIZE are fixed.
    function Hkdf(secret: Bytes, salt: Bytes): Bytes { hkdf(secret, salt) }

    // Byte i of the AES-CTR key stream for the all-zero initial counter block.
    function Keystream(key: Bytes, i: nat): byte { aesKeystream(key, i) }

    // group.go HashToPoint
    function HashToPoint(msg: Bytes, sid: Bytes): P {
      hashToElement(msg, HASH_PREFIX + sid)
    }

    // A uid is hashed in a domain of its session: the text hash_to_element, and the session id.
    lemma SessionDomain(msg: Bytes, sid: Bytes) returns (domain: Bytes)
      ensures HashToPoint(msg, sid) == hashToElement(msg, domain)
      ensures |domain| == 15 + |sid| && domain[15..] == sid
      ensures forall i :: 0 <= i < 15 ==> domain[i] == "hash_to_element"[i] as int
    {
      domain := HASH_PREFIX + sid;
    }

    static const HASH_PREFIX: Bytes :=
      [0x68, 0x61, 0x73, 0x68, 0x5f, 0x74, 0x6f, 0x5f, 0x65, 0x6c, 0x65, 0x6d, 0x65, 0x6e, 0x74]

    // The uncompressed encoding that elliptic.Marshal produces.
    static function Uncompressed(x: nat, y: nat): Bytes {
      [0x04] + FixedBytes(x, FIELD_BYTES) + FixedBytes(y, FIELD_BYTES)
    }

    // Marshal and Unmarshal agree, and only the identity is encoded on a single byte.
    ghost predicate EncodingAt(a: P) {
      && Unmarshal(Marshal(a)) == Some(a)
      && if a == group.one then Marshal(a) == [0]
         else |Marshal(a)| == POINT_LENGTH && Marshal(a)[0] in {2, 3}
    }

    // Of that length, only compressed encodings of other points are decoded.
    ghost predicate DecodingAt(data: Bytes) {
      |data| == POINT_LENGTH && Unmarshal(data).Some? ==> data[0] in {2, 3} && Unmarshal(data).value != group.one
    }

    // A pair of field elements on the curve is decoded to a point, whose compressed encoding is
    // the parity of y and x (section 2.3.3 of SEC 1 v2.0).
    ghost predicate LiftAt(x: nat, y: nat)
      requires curve.p > 0
    {
      x < curve.p && y < curve.p && curve.OnCurve(x, y) ==>
        var p := Unmarshal(Uncompressed(x, y));
        p.Some? && p.value != group.one && Marshal(p.value) == [2 + y % 2] + FixedBytes(x, FIELD_BYTES)
    }

    ghost predicate KeyAt(secret: Bytes, salt: Bytes) {
      |Hkdf(secret, salt)| == KEY_SIZE
    }

    ghost predicate Laws() {
      && group.Laws()
      && curve.Fits()
      && (forall a :: EncodingAt(a))
      && (forall data :: DecodingAt(data))
      && (forall x :: OrdinateLawAt(x))
      && (forall v :: SqrtAt(v))
      && (forall x, y :: LiftAt(x, y))
      && (forall secret, salt :: KeyAt(secret, salt))
    }
  }
}
