/** Ciphertexts as bytes, and the symmetric layer, from mppj-go/encryption.go. */
module Serialization {
  import opened ElGamal
  import opened Octets
  import opened Options
  import opened Suites

  function Serialize<P(!new)>(S: Suite<P>, ct: Ciphertext<P>): Bytes {
    S.Marshal(ct.c0) + S.Marshal(ct.c1)
  }

  // The identity has a shorter encoding, which no decoder expects.
  ghost predicate Serializable<P(!new)>(S: Suite<P>, ct: Ciphertext<P>) {
    ct.c0 != S.group.one && ct.c1 != S.group.one
  }

  ghost predicate AllSerializable<P(!new)>(S: Suite<P>, cts: seq<Ciphertext<P>>) {
    forall i :: 0 <= i < |cts| ==> Serializable(S, cts[i])
  }

  function DeserializeCiphertext<P(!new)>(S: Suite<P>, data: Bytes): Option<Ciphertext<P>> {
    if |data| != 66 then None else
      var c0 :- S.Unmarshal(data[..33]);
      var c1 :- S.Unmarshal(data[33..]);
      Some(Ciphertext(c0, c1))
  }

  function SerializedAll<P(!new)>(S: Suite<P>, cts: seq<Ciphertext<P>>): Bytes {
    if cts == [] then [] else SerializedAll(S, cts[..|cts| - 1]) + Serialize(S, cts[|cts| - 1])
  }

  function DeserializedAll<P(!new)>(S: Suite<P>, data: Bytes): Option<seq<Ciphertext<P>>> {
    if |data| % 66 != 0 then None
    else if |data| == 0 then Some([])
    else
      var front :- DeserializedAll(S, data[..|data| - 66]);
      var last :- DeserializeCiphertext(S, data[|data| - 66..]);
      Some(front + [last])
  }

  method SerializeCiphertexts<P(!new)>(S: Suite<P>, cts: seq<Ciphertext<P>>) returns (serialized: Bytes)
    ensures serialized == SerializedAll(S, cts)
  {
    serialized := [];
    for i := 0 to |cts|
      invariant serialized == SerializedAll(S, cts[..i])
    {
      assert cts[..i + 1][..i] == cts[..i];
      serialized := serialized + Serialize(S, cts[i]);
    }
    assert cts[..|cts|] == cts;
  }

  lemma AtLeastOneMore(n: nat, m: nat)
    requires n < m && n % 66 == 0 && m % 66 == 0
    ensures n + 66 <= m && (m - 66) % 66 == 0
  {
    assert n == 66 * (n / 66) && m == 66 * (m / 66);
  }

  lemma {:induction false} PrefixFails<P(!new)>(S: Suite<P>, data: Bytes, n: nat)
    requires n <= |data| && n % 66 == 0 && |data| % 66 == 0 && DeserializedAll(S, data[..n]).None?
    ensures DeserializedAll(S, data).None?
    decreases |data|
  {
    if n < |data| {
      AtLeastOneMore(n, |data|);
      var front := data[..|data| - 66];
      assert front[..n] == data[..n];
      PrefixFails(S, front, n);
      assert DeserializedAll(S, front).None?;
    } else {
      assert data[..n] == data;
    }
  }

  lemma NextCiphertext<P(!new)>(S: Suite<P>, data: Bytes, i: nat)
    requires i + 66 <= |data| && i % 66 == 0 && DeserializedAll(S, data[..i]).Some?
    ensures var next := DeserializeCiphertext(S, data[i..i + 66]);
      DeserializedAll(S, data[..i + 66]) ==
      if next.None? then None else Some(DeserializedAll(S, data[..i]).value + [next.value])
  {
    var longer := data[..i + 66];
    assert |longer| % 66 == 0;
    assert longer[..|longer| - 66] == data[..i] && longer[|longer| - 66..] == data[i..i + 66];
  }

  method DeserializeCiphertexts<P(!new)>(S: Suite<P>, data: Bytes) returns (r: Option<seq<Ciphertext<P>>>)
    ensures r == DeserializedAll(S, data)
  {
    if |data| % 66 != 0 {
      return None;
    }
    var ciphertexts: seq<Ciphertext<P>> := [];
    var i := 0;
    while i < |data|
      invariant i <= |data| && i % 66 == 0
      invariant DeserializedAll(S, data[..i]) == Some(ciphertexts)
    {
      AtLeastOneMore(i, |data|);
      NextCiphertext(S, data, i);
      var ciphertext := DeserializeCiphertext(S, data[i..i + 66]);
      if ciphertext.None? {
        PrefixFails(S, data, i + 66);
        return None;
      }
      ciphertexts := ciphertexts + [ciphertext.value];
      i := i + 66;
    }
    assert data[..i] == data;
    return Some(ciphertexts);
  }

  lemma SerializeLength<P(!new)>(S: Suite<P>, ct: Ciphertext<P>)
    requires S.Laws() && Serializable(S, ct)
    ensures |Serialize(S, ct)| == 66
    ensures DeserializeCiphertext(S, Serialize(S, ct)) == Some(ct)
  {
    assert S.EncodingAt(ct.c0) && S.EncodingAt(ct.c1);
    assert Serialize(S, ct)[..33] == S.Marshal(ct.c0) && Serialize(S, ct)[33..] == S.Marshal(ct.c1);
  }

  lemma {:induction false} SerializableRoundTrip<P(!new)>(S: Suite<P>, cts: seq<Ciphertext<P>>)
    requires S.Laws() && AllSerializable(S, cts)
    ensures |SerializedAll(S, cts)| == 66 * |cts|
    ensures DeserializedAll(S, SerializedAll(S, cts)) == Some(cts)
  {
    if cts != [] {
      var front, last := cts[..|cts| - 1], cts[|cts| - 1];
      SerializableRoundTrip(S, front);
      SerializeLength(S, last);
      var data := SerializedAll(S, cts);
      assert data[..|data| - 66] == SerializedAll(S, front);
      assert data[|data| - 66..] == Serialize(S, last);
      assert front + [last] == cts;
    }
  }

  lemma {:induction false} SerializedPrefix<P(!new)>(S: Suite<P>, cts: seq<Ciphertext<P>>, n: nat)
    requires n <= |cts|
    ensures SerializedAll(S, cts[..n]) <= SerializedAll(S, cts)
  {
    if n < |cts| {
      SerializedPrefix(S, cts[..|cts| - 1], n);
      assert cts[..|cts| - 1][..n] == cts[..n];
    } else {
      assert cts[..n] == cts;
    }
  }

  // An encoding that starts with a ciphertext holding the identity is refused: the decoder
  // meets the identity's zero byte where it expects a point.
  lemma IdentityRefused<P(!new)>(S: Suite<P>, ct: Ciphertext<P>, chunk: Bytes)
    requires S.Laws() && !Serializable(S, ct)
    requires |chunk| == 66 && (Serialize(S, ct) <= chunk || chunk <= Serialize(S, ct))
    ensures DeserializeCiphertext(S, chunk).None?
  {
    assert S.EncodingAt(ct.c0) && S.EncodingAt(ct.c1);
    assert S.DecodingAt(chunk[..33]) && S.DecodingAt(chunk[33..]);
    if ct.c0 == S.group.one {
      assert chunk[..33][0] == Serialize(S, ct)[0] == 0;
    } else {
      assert chunk[33..][0] == Serialize(S, ct)[33] == 0;
    }
  }

  lemma ChunkAfter(before: Bytes, next: Bytes, data: Bytes)
    requires before + next <= data && |before| + 66 <= |data|
    ensures var chunk := data[|before|..|before| + 66]; next <= chunk || chunk <= next
    ensures data[..|before| + 66][..|before|] == before
    ensures data[..|before| + 66][|before|..] == data[|before|..|before| + 66]
  {
    assert (before + next)[..|before|] == before && (before + next)[|before|..] == next;
    assert data[..|before + next|] == before + next;
    assert data[|before|..|before + next|] == next;
  }

  lemma ChunkRefused<P(!new)>(S: Suite<P>, ct: Ciphertext<P>, before: Bytes, data: Bytes)
    requires S.Laws() && !Serializable(S, ct)
    requires before + Serialize(S, ct) <= data && |before| % 66 == 0 && |before| < |data|
    ensures DeserializedAll(S, data).None?
  {
    if |data| % 66 == 0 {
      var n := |before| + 66;
      AtLeastOneMore(|before|, |data|);
      ChunkAfter(before, Serialize(S, ct), data);
      IdentityRefused(S, ct, data[|before|..n]);
      LastChunkFails(S, data[..n]);
      PrefixFails(S, data, n);
    }
  }

  lemma UnserializableRefused<P(!new)>(S: Suite<P>, cts: seq<Ciphertext<P>>, i: nat)
    requires S.Laws() && i < |cts| && AllSerializable(S, cts[..i]) && !Serializable(S, cts[i])
    ensures DeserializedAll(S, SerializedAll(S, cts)).None?
  {
    SerializableRoundTrip(S, cts[..i]);
    SerializedPrefix(S, cts, i + 1);
    assert cts[..i + 1][..i] == cts[..i];
    assert S.EncodingAt(cts[i].c0);
    ChunkRefused(S, cts[i], SerializedAll(S, cts[..i]), SerializedAll(S, cts));
  }

  lemma LastChunkFails<P(!new)>(S: Suite<P>, data: Bytes)
    requires |data| >= 66 && |data| % 66 == 0 && DeserializeCiphertext(S, data[|data| - 66..]).None?
    ensures DeserializedAll(S, data).None?
  {
  }

  // A list of ciphertexts that holds no identity point survives the round trip, and any other
  // list is refused by the decoder: it is never decoded to something else.
  lemma {:induction false} CiphertextsRoundTrip<P(!new)>(S: Suite<P>, cts: seq<Ciphertext<P>>)
    requires S.Laws()
    ensures DeserializedAll(S, SerializedAll(S, cts)) == if AllSerializable(S, cts) then Some(cts) else None
  {
    if AllSerializable(S, cts) {
      SerializableRoundTrip(S, cts);
    } else {
      var i := FirstUnserializable(S, cts);
      UnserializableRefused(S, cts, i);
    }
  }

  lemma {:induction false} FirstUnserializable<P(!new)>(S: Suite<P>, cts: seq<Ciphertext<P>>) returns (i: nat)
    requires !AllSerializable(S, cts)
    ensures i < |cts| && AllSerializable(S, cts[..i]) && !Serializable(S, cts[i])
  {
    var last := |cts| - 1;
    if AllSerializable(S, cts[..last]) {
      i := last;
    } else {
      i := FirstUnserializable(S, cts[..last]);
      assert cts[..last][..i] == cts[..i];
    }
  }

  function KeyFromPoint<P(!new)>(S: Suite<P>, rp: P, sid: Bytes): Bytes {
    S.Hkdf(S.Marshal(rp), sid)
  }

  // AES-CTR (section 6.5 of NIST SP 800-38A); aes.NewCipher takes keys of 16, 24 or 32 bytes.
  function Ctr<P(!new)>(S: Suite<P>, key: Bytes, data: Bytes): Option<Bytes> {
    if |key| !in {16, 24, 32} then None
    else Some(seq(|data|, i requires 0 <= i < |data| => Xor(data[i], S.Keystream(key, i))))
  }

  lemma CtrTwice<P(!new)>(S: Suite<P>, rp: P, sid: Bytes, data: Bytes)
    requires S.Laws()
    ensures var key := KeyFromPoint(S, rp, sid);
      Ctr(S, key, data).Some? && Ctr(S, key, Ctr(S, key, data).value) == Some(data)
  {
    var key := KeyFromPoint(S, rp, sid);
    assert S.KeyAt(S.Marshal(rp), sid);
    var once := Ctr(S, key, data).value;
    var twice := Ctr(S, key, once).value;
    forall i | 0 <= i < |data|
      ensures twice[i] == data[i]
    {
      XorUndoesXor(data[i], S.Keystream(key, i));
    }
    assert twice == data;
  }

  lemma XorUndoesXor(a: byte, b: byte)
    ensures Xor(Xor(a, b), b) == a
  {
    assert XorBits(Xor(a, b), b, 8) == a;
  }

  // What blindAndHint seals under the ephemeral key: the table index on one byte, truncated by
  // the conversion, and the value's ciphertexts.
  function SealedPayload<P(!new)>(S: Suite<P>, key: Bytes, tindex: nat, cts: seq<Ciphertext<P>>): Option<Bytes> {
    Ctr(S, key, [tindex % 256] + SerializedAll(S, cts))
  }

  // What decryptGroup gets back from it.
  function OpenedPayload<P(!new)>(S: Suite<P>, key: Bytes, sealed: Bytes): Option<(nat, seq<Ciphertext<P>>)> {
    var data :- Ctr(S, key, sealed);
    if |data| == 0 then None else
      var cts :- DeserializedAll(S, data[1..]);
      Some((data[0], cts))
  }

  lemma OpenSealed<P(!new)>(S: Suite<P>, rp: P, sid: Bytes, tindex: nat, cts: seq<Ciphertext<P>>)
    requires S.Laws()
    ensures var key := KeyFromPoint(S, rp, sid);
      var sealed, back := SealedPayload(S, key, tindex, cts), DeserializedAll(S, SerializedAll(S, cts));
      && sealed.Some?
      && OpenedPayload(S, key, sealed.value) == if back.None? then None else Some((tindex % 256, back.value))
  {
    var data := [tindex % 256] + SerializedAll(S, cts);
    CtrTwice(S, rp, sid, data);
    assert data[1..] == SerializedAll(S, cts);
  }

  // Index and ciphertexts come back if no point is the identity, the index truncated to a
  // byte; otherwise the payload is refused.
  lemma PayloadRoundTrip<P(!new)>(S: Suite<P>, rp: P, sid: Bytes, tindex: nat, cts: seq<Ciphertext<P>>)
    requires S.Laws()
    ensures var key := KeyFromPoint(S, rp, sid);
      var sealed := SealedPayload(S, key, tindex, cts);
      && sealed.Some?
      && OpenedPayload(S, key, sealed.value) == if AllSerializable(S, cts) then Some((tindex % 256, cts)) else None
  {
    OpenSealed(S, rp, sid, tindex, cts);
    CiphertextsRoundTrip(S, cts);
  }

  // ----- The bytes themselves -----

  // Without identity points a list is the encodings of its points, 33 bytes each, in order.
  lemma {:induction false} SerializedAt<P(!new)>(S: Suite<P>, cts: seq<Ciphertext<P>>, i: nat)
    requires S.Laws() && AllSerializable(S, cts) && i < |cts|
    ensures |SerializedAll(S, cts)| == 66 * |cts|
    ensures SerializedAll(S, cts)[66 * i..66 * i + 33] == S.Marshal(cts[i].c0)
    ensures SerializedAll(S, cts)[66 * i + 33..66 * i + 66] == S.Marshal(cts[i].c1)
  {
    var n := |cts| - 1;
    var front, last, data := SerializedAll(S, cts[..n]), Serialize(S, cts[n]), SerializedAll(S, cts);
    SerializableRoundTrip(S, cts);
    SerializableRoundTrip(S, cts[..n]);
    assert data == front + last;
    if i == n {
      SerializeHalves(S, cts[n]);
      HalvesAfter(front, last);
    } else {
      SerializedAt(S, cts[..n], i);
      HalvesWithin(front, last, 66 * i);
    }
  }

  lemma SerializeHalves<P(!new)>(S: Suite<P>, ct: Ciphertext<P>)
    requires S.Laws() && Serializable(S, ct)
    ensures |Serialize(S, ct)| == 66
    ensures Serialize(S, ct)[0..33] == S.Marshal(ct.c0) && Serialize(S, ct)[33..66] == S.Marshal(ct.c1)
  {
    assert S.EncodingAt(ct.c0) && S.EncodingAt(ct.c1);
  }

  lemma HalvesAfter(front: Bytes, last: Bytes)
    requires |last| == 66
    ensures var data, n := front + last, |front|;
      data[n..n + 33] == last[0..33] && data[n + 33..n + 66] == last[33..66]
  {
  }

  lemma HalvesWithin(front: Bytes, last: Bytes, lo: nat)
    requires lo + 66 <= |front|
    ensures var data := front + last;
      data[lo..lo + 33] == front[lo..lo + 33] && data[lo + 33..lo + 66] == front[lo + 33..lo + 66]
  {
  }

  // The points that stand at position i of a list.
  ghost predicate PointsAt<P(!new)>(S: Suite<P>, data: Bytes, i: nat, ct: Ciphertext<P>) {
    66 * i + 66 <= |data| && S.Unmarshal(data[66 * i..66 * i + 33]) == Some(ct.c0)
      && S.Unmarshal(data[66 * i + 33..66 * i + 66]) == Some(ct.c1)
  }

  ghost predicate AllPointsAt<P(!new)>(S: Suite<P>, data: Bytes, cts: seq<Ciphertext<P>>) {
    |data| == 66 * |cts| && forall i :: 0 <= i < |cts| ==> PointsAt(S, data, i, cts[i])
  }

  // Whatever the bytes are, they are decoded to the points that stand in them, in order.
  lemma {:induction false} DeserializedExactly<P(!new)>(S: Suite<P>, data: Bytes, cts: seq<Ciphertext<P>>)
    ensures DeserializedAll(S, data) == Some(cts) <==> AllPointsAt(S, data, cts)
  {
    if cts == [] {
      EmptyDecoded(S, data);
    } else if |data| >= 66 && |data| % 66 == 0 {
      var n := |cts| - 1;
      DeserializedExactly(S, data[..|data| - 66], cts[..n]);
      AllPointsNext(S, data, cts);
      LastDecoded(S, data, cts);
    } else {
      NoneDecoded(S, data, cts);
    }
  }

  lemma NoneDecoded<P(!new)>(S: Suite<P>, data: Bytes, cts: seq<Ciphertext<P>>)
    requires cts != [] && (|data| < 66 || |data| % 66 != 0)
    ensures DeserializedAll(S, data) != Some(cts) && |data| != 66 * |cts|
  {
  }

  lemma AllPointsNext<P(!new)>(S: Suite<P>, data: Bytes, cts: seq<Ciphertext<P>>)
    requires cts != [] && |data| >= 66
    ensures var n := |cts| - 1;
      AllPointsAt(S, data, cts) <==>
        AllPointsAt(S, data[..|data| - 66], cts[..n]) && DeserializeCiphertext(S, data[|data| - 66..]) == Some(cts[n])
  {
    var n := |cts| - 1;
    var front := data[..|data| - 66];
    if |data| == 66 * |cts| {
      forall i | 0 <= i < n
        ensures PointsAt(S, data, i, cts[i]) <==> PointsAt(S, front, i, cts[..n][i])
      {
        PrefixPoints(S, data, |front|, i, cts[i]);
      }
      LastPoints(S, data, n, cts[n]);
    }
  }

  lemma EmptyDecoded<P(!new)>(S: Suite<P>, data: Bytes)
    ensures DeserializedAll(S, data) == Some([]) <==> data == []
  {
  }

  lemma PrefixPoints<P(!new)>(S: Suite<P>, data: Bytes, n: nat, i: nat, ct: Ciphertext<P>)
    requires 66 * i + 66 <= n <= |data|
    ensures PointsAt(S, data, i, ct) <==> PointsAt(S, data[..n], i, ct)
  {
    assert data[..n][66 * i..66 * i + 33] == data[66 * i..66 * i + 33];
    assert data[..n][66 * i + 33..66 * i + 66] == data[66 * i + 33..66 * i + 66];
  }

  lemma LastPoints<P(!new)>(S: Suite<P>, data: Bytes, n: nat, ct: Ciphertext<P>)
    requires |data| == 66 * n + 66
    ensures PointsAt(S, data, n, ct) <==> DeserializeCiphertext(S, data[|data| - 66..]) == Some(ct)
  {
    var last := data[|data| - 66..];
    assert last[..33] == data[66 * n..66 * n + 33] && last[33..] == data[66 * n + 33..66 * n + 66];
  }

  lemma LastDecoded<P(!new)>(S: Suite<P>, data: Bytes, cts: seq<Ciphertext<P>>)
    requires cts != [] && |data| >= 66 && |data| % 66 == 0
    ensures var n := |cts| - 1;
      DeserializedAll(S, data) == Some(cts) <==>
        DeserializedAll(S, data[..|data| - 66]) == Some(cts[..n])
        && DeserializeCiphertext(S, data[|data| - 66..]) == Some(cts[n])
  {
    var n := |cts| - 1;
    assert cts == cts[..n] + [cts[n]];
  }

  // The symmetric layer combines each byte, bit by bit, with that of the key stream.
  lemma CtrEncrypts<P(!new)>(S: Suite<P>, key: Bytes, data: Bytes)
    ensures Ctr(S, key, data).Some? <==> |key| == 16 || |key| == 24 || |key| == 32
    ensures Ctr(S, key, data).Some? ==>
      var out := Ctr(S, key, data).value;
      |out| == |data| && forall i :: 0 <= i < |data| ==> CombinesBits(out[i], data[i], S.Keystream(key, i))
  {
    forall a: byte, b: byte {
      XorCombines(a, b);
    }
  }

  // The key is derived from the encoding of the point, which determines it, with the session id as salt.
  lemma KeyDerivation<P(!new)>(S: Suite<P>, rp: P, sid: Bytes) returns (secret: Bytes)
    requires S.Laws()
    ensures KeyFromPoint(S, rp, sid) == S.Hkdf(secret, sid) && |KeyFromPoint(S, rp, sid)| == 16
    ensures S.Unmarshal(secret) == Some(rp) && (rp != S.group.one ==> |secret| == 33)
    ensures forall rp' :: S.Marshal(rp') == secret ==> rp' == rp
  {
    secret := S.Marshal(rp);
    assert S.EncodingAt(rp) && S.KeyAt(secret, sid);
    forall rp' | S.Marshal(rp') == secret
      ensures rp' == rp
    {
      assert S.EncodingAt(rp');
    }
  }

  // A sealed payload byte by byte: first the index, truncated to a byte, then the encodings of the
  // points, each byte combined with that of the key stream.
  lemma SealedIndex<P(!new)>(S: Suite<P>, rp: P, sid: Bytes, tindex: nat, cts: seq<Ciphertext<P>>)
    requires S.Laws() && AllSerializable(S, cts)
    ensures var key := KeyFromPoint(S, rp, sid);
      var sealed := SealedPayload(S, key, tindex, cts);
      && sealed.Some? && |sealed.value| == 1 + 66 * |cts|
      && CombinesBits(sealed.value[0], tindex % 256, S.Keystream(key, 0))
  {
    SerializableRoundTrip(S, cts);
    assert S.KeyAt(S.Marshal(rp), sid);
    CtrEncrypts(S, KeyFromPoint(S, rp, sid), [tindex % 256] + SerializedAll(S, cts));
  }

  lemma SealedByte<P(!new)>(S: Suite<P>, rp: P, sid: Bytes, tindex: nat, cts: seq<Ciphertext<P>>, i: nat, j: nat)
    requires S.Laws() && AllSerializable(S, cts) && i < |cts| && j < 33
    ensures |S.Marshal(cts[i].c0)| == |S.Marshal(cts[i].c1)| == 33
    ensures var key := KeyFromPoint(S, rp, sid);
      var sealed, at := SealedPayload(S, key, tindex, cts), 1 + 66 * i + j;
      && sealed.Some? && |sealed.value| == 1 + 66 * |cts|
      && CombinesBits(sealed.value[at], S.Marshal(cts[i].c0)[j], S.Keystream(key, at))
      && CombinesBits(sealed.value[at + 33], S.Marshal(cts[i].c1)[j], S.Keystream(key, at + 33))
  {
    var all := SerializedAll(S, cts);
    SealedIndex(S, rp, sid, tindex, cts);
    SerializedAt(S, cts, i);
    assert S.EncodingAt(cts[i].c0) && S.EncodingAt(cts[i].c1);
    assert all[66 * i + j] == all[66 * i..66 * i + 33][j];
    assert all[66 * i + 33 + j] == all[66 * i + 33..66 * i + 66][j];
    assert S.KeyAt(S.Marshal(rp), sid);
    CtrEncrypts(S, KeyFromPoint(S, rp, sid), [tindex % 256] + all);
  }

  // What is opened with any key are the first byte and the points that stand in the rest.
  lemma OpenedExactly<P(!new)>(S: Suite<P>, key: Bytes, sealed: Bytes, i: nat, cts: seq<Ciphertext<P>>)
    requires Ctr(S, key, sealed).Some?
    ensures var data := Ctr(S, key, sealed).value;
      OpenedPayload(S, key, sealed) == Some((i, cts)) <==>
        |data| >= 1 && data[0] == i && AllPointsAt(S, data[1..], cts)
  {
    var data := Ctr(S, key, sealed).value;
    if |data| > 0 {
      DeserializedExactly(S, data[1..], cts);
    }
  }
}
