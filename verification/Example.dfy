/** The hypotheses of the main theorem can be met: two sources that share a uid. */
module Examples {
  import opened DataSources
  import opened Embedding
  import opened EndToEnd
  import opened Helpers
  import opened ModelSuites
  import opened Octets
  import opened Padding
  import opened Permutations
  import opened Protocol
  import opened Suites
  import opened Tables
  import opened Vectors

  const UID: Bytes := [0x75]

  predicate IsExampleValue(value: Bytes) {
    value == [1] || value == [2, 3]
  }

  // Some b for which both values embed at the first attempt.
  ghost predicate FitsExample(b: nat) {
    forall value :: IsExampleValue(value) ==>
      CurveParams(FieldSize(), b).HasPointAt(Candidate(Pad(value, 30), 1))
  }

  lemma SomeFits()
    ensures exists b: nat :: FitsExample(b)
  {
    var b := CurveThrough(Candidate(Pad([1], 30), 1), Candidate(Pad([2, 3], 30), 1));
    assert FitsExample(b);
  }

  ghost function ExampleB(): (b: nat)
    ensures FitsExample(b)
  {
    SomeFits();
    var b: nat :| FitsExample(b);
    b
  }

  ghost function ExampleSuite(): Suite<Residue> {
    ModelSuite(ExampleB())
  }

  ghost function Example(): Session<Residue> {
    Session(ExampleSuite(), [], ["a", "b"], HelperKeys(1000, [1, 1], 2), SecretKeys(0, 0), PublicKeys(0, 0),
      map["a" := map[UID := [1]], "b" := map[UID := [2, 3]]], false)
  }

  lemma PowerOfOne(n: nat)
    requires n < Order()
    ensures ResidueGroup().Exp(1, n) == n
  {
    var k := ExpIsMultiple(1, n);
    assert k >= 1 ==> k * Order() >= Order();
  }

  lemma OrderIsLarge()
    ensures Order() > 1000
  {
    Pow256Monotone(2, FIELD_BYTES);
    assert Pow256(2) == 65536;
  }

  lemma LargePointHasKey(a: Residue)
    requires a == 1000
    ensures MessageBytes(ExampleSuite(), a).Some?
  {
    MarshalledCoordinate(a);
    assert Coordinate(a) == 499;
    assert |MinimalBytes(499)| == 2;
  }

  lemma ExampleNym()
    ensures MessageBytes(Example().S, Example().Nym(UID)).Some?
  {
    OrderIsLarge();
    PowerOfOne(1000);
    LargePointHasKey(Example().Nym(UID));
  }

  lemma ExampleEmbeds(value: Bytes)
    requires IsExampleValue(value)
    ensures Embeds(ExampleSuite(), value)
  {
    LawsHold(ExampleB());
    EmbedsAtOnce(ExampleSuite(), value);
  }

  // A short value whose one chunk needs one attempt.
  lemma EmbedsAtOnce<P(!new)>(S: Suite<P>, value: Bytes)
    requires S.Laws() && |value| < 30 && S.curve.HasPointAt(Candidate(Pad(value, 30), 1))
    ensures Embeds(S, value)
  {
    var chunks := Chunks(Pad(value, 30));
    assert |chunks| == 1 && chunks[0] == Pad(value, 30);
    FirstAttemptExactly(S, chunks[0], 1);
  }

  lemma ExampleUids()
    ensures AllUids(Example().tables) == {UID} && CommonUids(Example().tables) == {UID}
  {
    var tables := Example().tables;
    assert "a" in tables && UID in tables["a"];
    assert forall id, uid :: id in tables && uid in tables[id] ==> uid == UID;
    assert AllUids(tables) == {UID};
  }

  lemma KeysAddUp(order: nat)
    requires order > 1000
    ensures HelperKeys(1000, [1, 1], 2).Additive(order)
  {
    OneAndOne([1, 1]);
  }

  lemma OneAndOne(shares: seq<nat>)
    requires shares == [1, 1]
    ensures Sum(shares) == 2
  {
    assert shares[1..] == [1];
    assert shares[1..][1..] == [];
    assert Sum(shares[1..][1..]) == 0;
    assert Sum(shares[1..]) == 1;
  }

  lemma ExampleIsValid()
    ensures Example().Valid()
  {
    var s := Example();
    LawsHold(ExampleB());
    assert s.tables.Keys == Elements(s.sources) by {
      assert s.sources[0] == "a" && s.sources[1] == "b";
    }
    OrderIsLarge();
    KeysAddUp(Order());
  }

  lemma ExampleIntact(value: Bytes)
    requires IsExampleValue(value)
    ensures Example().Intact(value) && Example().Delivered(value).Some? && ValuePoints(Example().S, value).Some?
  {
    ExampleIsValid();
    ExampleEmbeds(value);
    EmbedsHasPoints(ExampleSuite(), value);
    Example().IntactExactly(value);
  }

  lemma ExampleValuesIntact()
    ensures AllEmbeddable(Example()) && Example().SharedDelivered() && Example().SharedIntact()
  {
    forall value | IsExampleValue(value) {
      ExampleIntact(value);
    }
    var tables := Example().tables;
    assert forall id, uid :: id in tables && uid in tables[id] ==> IsExampleValue(tables[id][uid]);
  }

  lemma ExampleNyms()
    ensures Example().NymInjective() && Example().NymsHaveKeys()
  {
    ExampleUids();
    ExampleNym();
    OnlyUid(Example());
  }

  lemma OnlyUid(s: Session<Residue>)
    requires AllUids(s.tables) == {UID} && MessageBytes(s.S, s.Nym(UID)).Some?
    ensures s.NymInjective() && s.NymsHaveKeys()
  {
  }

  lemma HypothesesHold()
    ensures Example().Valid() && Example().NymInjective() && Example().NymsHaveKeys()
    ensures AllEmbeddable(Example()) && Example().SharedDelivered() && Example().SharedIntact()
    ensures CommonUids(Example().tables) == {UID}
  {
    ExampleIsValid();
    ExampleUids();
    ExampleNyms();
    ExampleValuesIntact();
  }
}
