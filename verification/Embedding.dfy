/** Byte strings as curve points: NewMessageFromBytes and GetMessageBytes of
    mppj-go/encryption.go. A string s becomes the x-coordinate 04 || s || c, for the first
    counter byte c = 2, 3, ... that gives a point. */
module Embedding {
  import opened Octets
  import opened Options
  import opened Suites

  const MAX_ATTEMPTS: nat := 255

  // The x-coordinate tried at attempt i = 1, 2, ...
  function Candidate(msg: Bytes, i: nat): nat
    requires i >= 1
  {
    BigEndian([0x04] + msg + [0x02]) + (i - 1)
  }

  // The first attempt, from i on, whose x-coordinate is on the curve.
  function FirstAttempt<P(!new)>(S: Suite<P>, msg: Bytes, i: nat): (r: Option<nat>)
    requires 1 <= i <= MAX_ATTEMPTS
    ensures r.Some? ==> i <= r.value <= MAX_ATTEMPTS && S.OrdinateAt(Candidate(msg, r.value)).Some?
    ensures r.Some? ==> forall j :: i <= j < r.value ==> S.OrdinateAt(Candidate(msg, j)).None?
    ensures r.None? ==> forall j :: i <= j <= MAX_ATTEMPTS ==> S.OrdinateAt(Candidate(msg, j)).None?
    decreases MAX_ATTEMPTS - i
  {
    if S.OrdinateAt(Candidate(msg, i)).Some? then Some(i)
    else if i == MAX_ATTEMPTS then None
    else FirstAttempt(S, msg, i + 1)
  }

  // elliptic.Marshal refuses a coordinate that is not below the field prime.
  function LiftPoint<P(!new)>(S: Suite<P>, x: nat, y: nat): Option<P> {
    if x < S.curve.p then S.Unmarshal(Suite<P>.Uncompressed(x, y)) else None
  }

  function MessageFromBytes<P(!new)>(S: Suite<P>, msg: Bytes): Option<P>
  {
    if |msg| == 0 then None else
      var i :- FirstAttempt(S, msg, 1);
      LiftPoint(S, Candidate(msg, i), S.OrdinateAt(Candidate(msg, i)).value)
  }

  method NewMessageFromBytes<P(!new)>(S: Suite<P>, msg: Bytes) returns (r: Option<P>)
    requires S.Laws()
    ensures r == MessageFromBytes(S, msg)
  {
    if |msg| == 0 {
      return None;
    }
    var msgInt := BigEndian([0x04] + msg + [0x02]);
    var i := 1;
    assert S.OrdinateLawAt(msgInt);
    var y := S.Sqrt(S.curve.Polynomial(msgInt));
    while y.None?
      invariant 1 <= i <= MAX_ATTEMPTS
      invariant msgInt == Candidate(msg, i) && y == S.OrdinateAt(msgInt)
      invariant FirstAttempt(S, msg, 1) == FirstAttempt(S, msg, i)
      decreases MAX_ATTEMPTS - i
    {
      if i == MAX_ATTEMPTS {
        return None;
      }
      i := i + 1;
      msgInt := msgInt + 1;
      assert S.OrdinateLawAt(msgInt);
      y := S.Sqrt(S.curve.Polynomial(msgInt));
    }
    return LiftPoint(S, msgInt, y.value);
  }

  // The x-coordinate without leading zero bytes, less its first and last byte. There is none
  // for the identity, nor (a slice out of range) for an x-coordinate below 256.
  function MessageBytes<P(!new)>(S: Suite<P>, a: P): Option<Bytes> {
    var data := S.Marshal(a);
    if |data| != POINT_LENGTH then None else
      var digits := MinimalBytes(BigEndian(data[1..]));
      if |digits| < 2 then None else Some(digits[1..|digits| - 1])
  }

  // The key is what is left of the x-coordinate without its first and last byte: this holds for
  // every point, not only for those that strings are embedded as.
  lemma MiddleOfCoordinate<P(!new)>(S: Suite<P>, a: P) returns (hi: nat, lo: nat)
    requires |S.Marshal(a)| == POINT_LENGTH && BigEndian(S.Marshal(a)[1..]) >= 256
    ensures MessageBytes(S, a).Some? && 1 <= hi < 256 && lo < 256
    ensures var key := MessageBytes(S, a).value;
      BigEndian(S.Marshal(a)[1..]) == (hi * Pow256(|key|) + BigEndian(key)) * 256 + lo
  {
    var x := BigEndian(S.Marshal(a)[1..]);
    var digits := MinimalBytes(x);
    BigEndianOfMinimal(x);
    assert |digits| >= 2 by {
      assert x / 256 > 0;
      assert MinimalBytes(x / 256) != [];
    }
    hi, lo := digits[0], digits[|digits| - 1];
    var key := digits[1..|digits| - 1];
    assert digits == [hi] + key + [lo];
    BigEndianAppend([hi] + key, lo);
    BigEndianPrepend(hi, key);
  }

  lemma CandidateValue(msg: Bytes, i: nat)
    requires 1 <= i <= MAX_ATTEMPTS
    ensures Candidate(msg, i) == 256 * (4 * Pow256(|msg|) + BigEndian(msg)) + i + 1
    ensures 4 * Pow256(|msg| + 1) < Candidate(msg, i) < 6 * Pow256(|msg| + 1)
  {
    BigEndianAppend([0x04] + msg, 0x02);
    BigEndianPrepend(0x04, msg);
    BigEndianBound(msg);
  }

  // Every candidate is a field element for at most 30 bytes, and none is for more.
  lemma CandidateFits(curve: CurveParams, msg: Bytes, i: nat)
    requires curve.Fits() && 1 <= i <= MAX_ATTEMPTS
    ensures Candidate(msg, i) < curve.p <==> |msg| <= 30
  {
    CandidateValue(msg, i);
    if |msg| <= 30 {
      Pow256Monotone(|msg| + 1, FIELD_BYTES - 1);
    } else {
      Pow256Monotone(FIELD_BYTES, |msg| + 1);
    }
  }

  // The root found is the ordinate of a point of the curve, and none is missed.
  lemma OrdinateExactly<P(!new)>(S: Suite<P>, x: nat)
    requires S.Laws()
    ensures S.OrdinateAt(x).Some? <==> S.curve.HasPointAt(x)
    ensures S.OrdinateAt(x).Some? ==>
      S.OrdinateAt(x).value < S.curve.p && S.curve.OnCurve(x, S.OrdinateAt(x).value)
  {
    var v := S.curve.Polynomial(x);
    assert S.OrdinateLawAt(x) && S.SqrtAt(v);
    forall y: nat
      ensures S.curve.OnCurve(x, y) <==> S.curve.IsRoot(v, y)
    {
      S.curve.RootsAreOrdinates(x, y);
    }
  }

  // The first attempt is the first candidate that is the x-coordinate of a point of the curve.
  lemma FirstAttemptExactly<P(!new)>(S: Suite<P>, msg: Bytes, i: nat)
    requires S.Laws() && 1 <= i <= MAX_ATTEMPTS
    ensures FirstAttempt(S, msg, 1) == Some(i) <==>
      S.curve.HasPointAt(Candidate(msg, i)) && forall j :: 1 <= j < i ==> !S.curve.HasPointAt(Candidate(msg, j))
  {
    forall j | 1 <= j <= MAX_ATTEMPTS
      ensures S.OrdinateAt(Candidate(msg, j)).Some? <==> S.curve.HasPointAt(Candidate(msg, j))
    {
      OrdinateExactly(S, Candidate(msg, j));
    }
  }

  ghost predicate SomeCandidateOnCurve(curve: CurveParams, msg: Bytes)
    requires curve.p > 0
  {
    exists i :: 1 <= i <= MAX_ATTEMPTS && curve.HasPointAt(Candidate(msg, i))
  }

  // Exactly the strings of 1 to 30 bytes can be embedded for which an attempt is the x-coordinate
  // of a point of the curve.
  lemma EmbeddingSucceeds<P(!new)>(S: Suite<P>, msg: Bytes)
    requires S.Laws()
    ensures FirstAttempt(S, msg, 1).Some? <==> SomeCandidateOnCurve(S.curve, msg)
    ensures MessageFromBytes(S, msg).Some? <==> 1 <= |msg| <= 30 && FirstAttempt(S, msg, 1).Some?
  {
    forall i | 1 <= i <= MAX_ATTEMPTS
      ensures S.OrdinateAt(Candidate(msg, i)).Some? <==> S.curve.HasPointAt(Candidate(msg, i))
    {
      OrdinateExactly(S, Candidate(msg, i));
    }
    SuccessNeedsAttempt(S, msg);
  }

  lemma SuccessNeedsAttempt<P(!new)>(S: Suite<P>, msg: Bytes)
    requires S.Laws()
    ensures MessageFromBytes(S, msg).Some? <==> 1 <= |msg| <= 30 && FirstAttempt(S, msg, 1).Some?
  {
    var first := FirstAttempt(S, msg, 1);
    if first.Some? {
      CandidateFits(S.curve, msg, first.value);
      if |msg| <= 30 {
        LiftedCoordinate(S, Candidate(msg, first.value));
      }
    }
  }

  lemma LiftedCoordinate<P(!new)>(S: Suite<P>, x: nat)
    requires S.Laws() && x < S.curve.p && S.OrdinateAt(x).Some?
    ensures var y := S.OrdinateAt(x).value;
      var a := LiftPoint(S, x, y);
      a.Some? && a.value != S.group.one && S.Marshal(a.value) == [2 + y % 2] + FixedBytes(x, FIELD_BYTES)
        && BigEndian(S.Marshal(a.value)[1..]) == x
  {
    OrdinateExactly(S, x);
    var y := S.OrdinateAt(x).value;
    assert S.LiftAt(x, y);
    BigEndianOfFixed(x, FIELD_BYTES);
    assert ([2 + y % 2] + FixedBytes(x, FIELD_BYTES))[1..] == FixedBytes(x, FIELD_BYTES);
  }

  // A string is embedded as the point of the curve at the first candidate that has one, with the
  // ordinate that ModSqrt found.
  lemma EmbeddedPoint<P(!new)>(S: Suite<P>, msg: Bytes) returns (i: nat, y: nat)
    requires S.Laws() && MessageFromBytes(S, msg).Some?
    ensures 1 <= i <= MAX_ATTEMPTS && S.curve.OnCurve(Candidate(msg, i), y)
    ensures forall j :: 1 <= j < i ==> !S.curve.HasPointAt(Candidate(msg, j))
    ensures S.Sqrt(S.curve.Polynomial(Candidate(msg, i))) == Some(y)
    ensures S.Marshal(MessageFromBytes(S, msg).value) == [2 + y % 2] + FixedBytes(Candidate(msg, i), FIELD_BYTES)
  {
    i := FirstAttempt(S, msg, 1).value;
    var x := Candidate(msg, i);
    y := S.OrdinateAt(x).value;
    FirstAttemptExactly(S, msg, i);
    OrdinateExactly(S, x);
    assert S.OrdinateLawAt(x);
    LiftedCoordinate(S, x);
  }

  // The point a string is embedded as has the x-coordinate of the first successful attempt.
  lemma EmbeddedCoordinate<P(!new)>(S: Suite<P>, msg: Bytes)
    requires S.Laws() && MessageFromBytes(S, msg).Some?
    ensures var x := Candidate(msg, FirstAttempt(S, msg, 1).value);
      var a := MessageFromBytes(S, msg).value;
      x < S.curve.p && a != S.group.one && |S.Marshal(a)| == POINT_LENGTH && BigEndian(S.Marshal(a)[1..]) == x
  {
    LiftedCoordinate(S, Candidate(msg, FirstAttempt(S, msg, 1).value));
  }

  lemma DigitBetween(d: nat, w: nat, rest: nat)
    requires rest < w && 4 * w <= d * w + rest < 6 * w
    ensures d == 4 || d == 5
  {
    assert d <= 3 ==> d * w <= 3 * w;
    assert d >= 6 ==> d * w >= 6 * w;
  }

  // The leading byte of a number with n + 1 digits, 4 or 5 times 256^n.
  lemma LeadingDigit(v: nat, n: nat)
    requires 4 * Pow256(n) <= v < 6 * Pow256(n)
    ensures |MinimalBytes(v)| == n + 1
    ensures BigEndian(MinimalBytes(v)) == v
    ensures MinimalBytes(v)[0] in {4, 5}
  {
    var s := FixedBytes(v, n + 1);
    BigEndianOfFixed(v, n + 1);
    assert s == [s[0]] + s[1..];
    BigEndianPrepend(s[0], s[1..]);
    BigEndianBound(s[1..]);
    DigitBetween(s[0], Pow256(n), BigEndian(s[1..]));
    MinimalOfBigEndian(s);
  }

  // Extraction always returns a string of the right length, and it returns the embedded
  // string exactly when the search ended within 254 attempts: the 255th carries into it.
  lemma EmbeddingRoundTrip<P(!new)>(S: Suite<P>, msg: Bytes)
    requires S.Laws() && MessageFromBytes(S, msg).Some?
    ensures var decoded := MessageBytes(S, MessageFromBytes(S, msg).value);
      && decoded.Some? && |decoded.value| == |msg|
      && (decoded.value == msg <==> FirstAttempt(S, msg, 1).value < MAX_ATTEMPTS)
  {
    var i := FirstAttempt(S, msg, 1).value;
    EmbeddedCoordinate(S, msg);
    if i < MAX_ATTEMPTS {
      EarlyAttemptKeepsPayload(msg, i);
    } else {
      CarryChangesPayload(msg);
    }
  }

  lemma LeadingFour(d: nat, w: nat, rest: nat, low: nat)
    requires rest < w && low < w && d * w + rest == 4 * w + low
    ensures rest == low
  {
    assert d <= 3 ==> d * w <= 3 * w;
    assert d >= 5 ==> d * w >= 5 * w;
  }

  // The last attempt adds one to the payload, unless all its bytes are 0xff.
  lemma LastAttemptAddsOne<P(!new)>(S: Suite<P>, msg: Bytes)
    requires S.Laws() && MessageFromBytes(S, msg).Some? && FirstAttempt(S, msg, 1) == Some(MAX_ATTEMPTS)
    requires msg != Repeat(0xff, |msg|)
    ensures var decoded := MessageBytes(S, MessageFromBytes(S, msg).value);
      decoded.Some? && |decoded.value| == |msg| && BigEndian(decoded.value) == BigEndian(msg) + 1
  {
    EmbeddedCoordinate(S, msg);
    CarryAddsOne(msg);
  }

  lemma CarryAddsOne(msg: Bytes)
    requires |msg| > 0 && msg != Repeat(0xff, |msg|)
    ensures var digits := MinimalBytes(Candidate(msg, MAX_ATTEMPTS));
      |digits| == |msg| + 2 && BigEndian(digits[1..|digits| - 1]) == BigEndian(msg) + 1
  {
    var n := |msg|;
    var x, v := Candidate(msg, MAX_ATTEMPTS), 4 * Pow256(n) + BigEndian(msg) + 1;
    CandidateValue(msg, MAX_ATTEMPTS);
    BelowLargest(msg);
    assert x / 256 == v && x % 256 == 0;
    var high := MinimalBytes(v);
    AfterTheFour(n, BigEndian(msg) + 1);
    assert MinimalBytes(x) == high + [0];
    assert MinimalBytes(x)[1..n + 1] == high[1..];
  }

  // What follows the leading four of a number.
  lemma AfterTheFour(n: nat, low: nat)
    requires low < Pow256(n)
    ensures var high := MinimalBytes(4 * Pow256(n) + low); |high| == n + 1 && BigEndian(high[1..]) == low
  {
    var v := 4 * Pow256(n) + low;
    LeadingDigit(v, n);
    var high := MinimalBytes(v);
    FirstDigit(high);
    LeadingFour(high[0], Pow256(n), BigEndian(high[1..]), low);
  }

  lemma EarlyAttemptKeepsPayload(msg: Bytes, i: nat)
    requires 1 <= i < MAX_ATTEMPTS
    ensures MinimalBytes(Candidate(msg, i)) == [0x04] + msg + [i + 1]
  {
    BigEndianAppend([0x04] + msg, 0x02);
    BigEndianAppend([0x04] + msg, i + 1);
    MinimalOfBigEndian([0x04] + msg + [i + 1]);
  }

  lemma CarryChangesPayload(msg: Bytes)
    requires |msg| > 0
    ensures var digits := MinimalBytes(Candidate(msg, MAX_ATTEMPTS));
      |digits| == |msg| + 2 && digits[1..|digits| - 1] != msg
  {
    var n := |msg|;
    var x, v := Candidate(msg, MAX_ATTEMPTS), 4 * Pow256(n) + BigEndian(msg) + 1;
    CandidateValue(msg, MAX_ATTEMPTS);
    BigEndianBound(msg);
    assert x / 256 == v && x % 256 == 0;
    LeadingDigit(v, n);
    var high := MinimalBytes(v);
    assert MinimalBytes(x) == high + [0];
    assert MinimalBytes(x)[1..n + 1] == high[1..];
    assert high == [high[0]] + high[1..];
    BigEndianPrepend(high[0], high[1..]);
  }
}
