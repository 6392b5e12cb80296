/** Table rows, and their wire form in mppj-go/api/messages.go. */
module Messages {
  import opened ElGamal
  import opened Octets
  import opened Options
  import opened Serialization
  import opened Suites

  datatype EncRow<P> = EncRow(cuid: Ciphertext<P>, cval: seq<Ciphertext<P>>)

  datatype EncRowWithHint<P> = EncRowWithHint(
    cnyme: Ciphertext<P>, cval: Bytes, cvalKey: Ciphertext<P>, chint: Ciphertext<P>)

  // What copy leaves in a zeroed field of n bytes.
  function Field(src: Bytes, n: nat): (r: Bytes)
    ensures |r| == n
  {
    if |src| >= n then src[..n] else src + Repeat(0, n - |src|)
  }

  // copy(data[lo:hi], src) on a zeroed range that follows what has been written.
  method Copy(data: array<byte>, lo: nat, hi: nat, src: Bytes)
    requires lo <= hi <= data.Length
    requires forall i :: lo <= i < hi ==> data[i] == 0
    modifies data
    ensures data[..hi] == old(data[..lo]) + Field(src, hi - lo)
    ensures forall i :: 0 <= i < data.Length && !(lo <= i < hi) ==> data[i] == old(data[i])
  {
    var n := if |src| < hi - lo then |src| else hi - lo;
    for i := 0 to n
      invariant forall j :: 0 <= j < i ==> data[lo + j] == src[j]
      invariant forall j :: lo + i <= j < hi ==> data[j] == 0
      invariant forall j :: 0 <= j < data.Length && !(lo <= j < hi) ==> data[j] == old(data[j])
    {
      data[lo + i] := src[i];
    }
    forall k | 0 <= k < hi - lo
      ensures data[lo..hi][k] == Field(src, hi - lo)[k]
    {
      assert data[lo..hi][k] == data[lo + k];
    }
    assert data[..lo] == old(data[..lo]);
    assert data[..hi] == data[..lo] + data[lo..hi];
  }

  // Only the first value ciphertext is sent; a row without any panics.
  function EncRowMsg<P(!new)>(S: Suite<P>, er: EncRow<P>): Option<Bytes> {
    if |er.cval| == 0 then None
    else Some(Field(Serialize(S, er.cuid), 66) + Field(Serialize(S, er.cval[0]), 66))
  }

  method GetEncRowMsg<P(!new)>(S: Suite<P>, er: EncRow<P>) returns (r: Option<Bytes>)
    ensures r == EncRowMsg(S, er)
  {
    if |er.cval| == 0 {
      return None;
    }
    var data := new byte[132](_ => 0);
    Copy(data, 0, 66, Serialize(S, er.cuid));
    assert data[..66] == Field(Serialize(S, er.cuid), 66);
    Copy(data, 66, 132, Serialize(S, er.cval[0]));
    assert data[..] == data[..132];
    return Some(data[..]);
  }

  function GetEncRowFromMsg<P(!new)>(S: Suite<P>, data: Bytes): Option<EncRow<P>> {
    if |data| < 132 then None else
      var cuid :- DeserializeCiphertext(S, data[..66]);
      var cval :- DeserializeCiphertext(S, data[66..132]);
      Some(EncRow(cuid, [cval]))
  }

  // The receiving side gets the uid and the first value ciphertext, or refuses the message because
  // a point is the identity: it never gets anything else.
  lemma EncRowArrives<P(!new)>(S: Suite<P>, er: EncRow<P>)
    requires S.Laws() && |er.cval| >= 1
    ensures GetEncRowFromMsg(S, EncRowMsg(S, er).value) ==
      if Serializable(S, er.cuid) && Serializable(S, er.cval[0]) then Some(EncRow(er.cuid, [er.cval[0]])) else None
  {
    var data := EncRowMsg(S, er).value;
    assert data[..66] == Field(Serialize(S, er.cuid), 66);
    assert data[66..132] == Field(Serialize(S, er.cval[0]), 66);
    FieldArrives(S, er.cuid);
    FieldArrives(S, er.cval[0]);
  }

  // So a row arrives unchanged exactly if its value is one ciphertext and no point is the identity.
  lemma EncRowRoundTrip<P(!new)>(S: Suite<P>, er: EncRow<P>)
    requires S.Laws()
    ensures (EncRowMsg(S, er).Some? && GetEncRowFromMsg(S, EncRowMsg(S, er).value) == Some(er))
      <==> |er.cval| == 1 && Serializable(S, er.cuid) && Serializable(S, er.cval[0])
  {
    if |er.cval| != 0 {
      EncRowArrives(S, er);
      assert |er.cval| == 1 ==> er.cval == [er.cval[0]];
    }
  }

  lemma FieldArrives<P(!new)>(S: Suite<P>, ct: Ciphertext<P>)
    requires S.Laws()
    ensures DeserializeCiphertext(S, Field(Serialize(S, ct), 66)) == if Serializable(S, ct) then Some(ct) else None
  {
    if Serializable(S, ct) {
      SerializeLength(S, ct);
      assert Field(Serialize(S, ct), 66) == Serialize(S, ct);
    } else {
      IdentityRefused(S, ct, Field(Serialize(S, ct), 66));
    }
  }

  function EncRowWithHintMsg<P(!new)>(S: Suite<P>, er: EncRowWithHint<P>): Bytes {
    Field(Serialize(S, er.cnyme), 66) +
      Field(Serialize(S, er.cvalKey), 66) + Field(Serialize(S, er.chint), 66) + er.cval
  }

  method GetEncRowWithHintMsg<P(!new)>(S: Suite<P>, er: EncRowWithHint<P>) returns (r: Bytes)
    ensures r == EncRowWithHintMsg(S, er)
  {
    var data := new byte[198 + |er.cval|](_ => 0);
    Copy(data, 0, 66, Serialize(S, er.cnyme));
    assert data[..66] == Field(Serialize(S, er.cnyme), 66);
    Copy(data, 66, 132, Serialize(S, er.cvalKey));
    Copy(data, 132, 198, Serialize(S, er.chint));
    Copy(data, 198, data.Length, er.cval);
    assert data[..] == data[..data.Length];
    return data[..];
  }

  function GetEncRowWithHintFromMsg<P(!new)>(S: Suite<P>, data: Bytes): Option<EncRowWithHint<P>> {
    if |data| < 198 then None else
      var cnym :- DeserializeCiphertext(S, data[..66]);
      var cvalKey :- DeserializeCiphertext(S, data[66..132]);
      var chint :- DeserializeCiphertext(S, data[132..198]);
      Some(EncRowWithHint(cnym, data[198..], cvalKey, chint))
  }

  ghost predicate RowSerializable<P(!new)>(S: Suite<P>, row: EncRowWithHint<P>) {
    Serializable(S, row.cnyme) && Serializable(S, row.cvalKey) && Serializable(S, row.chint)
  }

  // A converted row arrives unchanged, or is refused because a point is the identity.
  lemma EncRowWithHintArrives<P(!new)>(S: Suite<P>, er: EncRowWithHint<P>)
    requires S.Laws()
    ensures GetEncRowWithHintFromMsg(S, EncRowWithHintMsg(S, er)) ==
      if RowSerializable(S, er) then Some(er) else None
  {
    var data := EncRowWithHintMsg(S, er);
    assert data[..66] == Field(Serialize(S, er.cnyme), 66);
    assert data[66..132] == Field(Serialize(S, er.cvalKey), 66);
    assert data[132..198] == Field(Serialize(S, er.chint), 66);
    assert data[198..] == er.cval;
    FieldArrives(S, er.cnyme);
    FieldArrives(S, er.cvalKey);
    FieldArrives(S, er.chint);
  }

  // ----- The bytes themselves -----

  lemma FieldHolds<P(!new)>(S: Suite<P>, ct: Ciphertext<P>)
    requires S.Laws() && Serializable(S, ct)
    ensures Field(Serialize(S, ct), 66)[0..33] == S.Marshal(ct.c0)
    ensures Field(Serialize(S, ct), 66)[33..66] == S.Marshal(ct.c1)
  {
    SerializeHalves(S, ct);
    assert Field(Serialize(S, ct), 66) == Serialize(S, ct);
  }

  lemma FieldAt(data: Bytes, lo: nat, field: Bytes)
    requires |field| == 66 && lo + 66 <= |data| && data[lo..lo + 66] == field
    ensures data[lo..lo + 33] == field[0..33] && data[lo + 33..lo + 66] == field[33..66]
  {
    assert data[lo..lo + 33] == data[lo..lo + 66][0..33] && data[lo + 33..lo + 66] == data[lo..lo + 66][33..66];
  }

  // The message of a source's row: the points of the uid, then those of the value.
  lemma EncRowLayout<P(!new)>(S: Suite<P>, er: EncRow<P>)
    requires S.Laws() && |er.cval| >= 1 && Serializable(S, er.cuid) && Serializable(S, er.cval[0])
    ensures EncRowMsg(S, er).Some? && |EncRowMsg(S, er).value| == 132
    ensures var msg := EncRowMsg(S, er).value;
      && msg[0..33] == S.Marshal(er.cuid.c0) && msg[33..66] == S.Marshal(er.cuid.c1)
      && msg[66..99] == S.Marshal(er.cval[0].c0) && msg[99..132] == S.Marshal(er.cval[0].c1)
  {
    var msg := EncRowMsg(S, er).value;
    FieldHolds(S, er.cuid);
    FieldHolds(S, er.cval[0]);
    FieldAt(msg, 0, Field(Serialize(S, er.cuid), 66));
    FieldAt(msg, 66, Field(Serialize(S, er.cval[0]), 66));
  }

  // The message of a converted row: the points of the pseudonym, of the blinded key and of the
  // hint, and then the payload.
  lemma EncRowWithHintLayout<P(!new)>(S: Suite<P>, er: EncRowWithHint<P>)
    requires S.Laws() && RowSerializable(S, er)
    ensures |EncRowWithHintMsg(S, er)| == 198 + |er.cval|
    ensures var msg := EncRowWithHintMsg(S, er);
      && msg[0..33] == S.Marshal(er.cnyme.c0) && msg[33..66] == S.Marshal(er.cnyme.c1)
      && msg[66..99] == S.Marshal(er.cvalKey.c0) && msg[99..132] == S.Marshal(er.cvalKey.c1)
      && msg[132..165] == S.Marshal(er.chint.c0) && msg[165..198] == S.Marshal(er.chint.c1)
      && msg[198..] == er.cval
  {
    var msg := EncRowWithHintMsg(S, er);
    FieldHolds(S, er.cnyme);
    FieldHolds(S, er.cvalKey);
    FieldHolds(S, er.chint);
    FieldAt(msg, 0, Field(Serialize(S, er.cnyme), 66));
    FieldAt(msg, 66, Field(Serialize(S, er.cvalKey), 66));
    FieldAt(msg, 132, Field(Serialize(S, er.chint), 66));
  }

  ghost predicate HoldsPoints<P(!new)>(S: Suite<P>, msg: Bytes, lo: nat, ct: Ciphertext<P>) {
    lo + 66 <= |msg| && S.Unmarshal(msg[lo..lo + 33]) == Some(ct.c0)
      && S.Unmarshal(msg[lo + 33..lo + 66]) == Some(ct.c1)
  }

  lemma HeldExactly<P(!new)>(S: Suite<P>, msg: Bytes, lo: nat, ct: Ciphertext<P>)
    requires lo + 66 <= |msg|
    ensures DeserializeCiphertext(S, msg[lo..lo + 66]) == Some(ct) <==> HoldsPoints(S, msg, lo, ct)
  {
    FieldAt(msg, lo, msg[lo..lo + 66]);
    assert msg[lo..lo + 66][..33] == msg[lo..lo + 33] && msg[lo..lo + 66][33..] == msg[lo + 33..lo + 66];
  }

  // Any message of at least 132 bytes is decoded to the points that stand in its four fields.
  lemma EncRowDecodes<P(!new)>(S: Suite<P>, msg: Bytes, er: EncRow<P>)
    ensures GetEncRowFromMsg(S, msg) == Some(er) <==>
      |er.cval| == 1 && HoldsPoints(S, msg, 0, er.cuid) && HoldsPoints(S, msg, 66, er.cval[0])
  {
    if |msg| >= 132 {
      assert msg[..66] == msg[0..66];
      if |er.cval| == 1 {
        HeldExactly(S, msg, 0, er.cuid);
        HeldExactly(S, msg, 66, er.cval[0]);
        assert er.cval == [er.cval[0]];
      }
    }
  }

  // And one of at least 198 bytes to those in its six fields, and the rest.
  lemma EncRowWithHintDecodes<P(!new)>(S: Suite<P>, msg: Bytes, er: EncRowWithHint<P>)
    ensures GetEncRowWithHintFromMsg(S, msg) == Some(er) <==>
      && HoldsPoints(S, msg, 0, er.cnyme) && HoldsPoints(S, msg, 66, er.cvalKey) && HoldsPoints(S, msg, 132, er.chint)
      && er.cval == msg[198..]
  {
    if |msg| >= 198 {
      assert msg[..66] == msg[0..66];
      HeldExactly(S, msg, 0, er.cnyme);
      HeldExactly(S, msg, 66, er.cvalKey);
      HeldExactly(S, msg, 132, er.chint);
    }
  }
}
