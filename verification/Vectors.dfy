/** Values as lists of ciphertexts: PKEEncryptVector, ReRandVector and PKEDecryptVector of
    mppj-go/encryption.go. A value is padded, cut into chunks, and each chunk is embedded. */
module Vectors {
  import opened ElGamal
  import opened Embedding
  import opened Groups
  import opened Octets
  import opened Options
  import opened Padding
  import opened Permutations
  import opened Suites

  // PAYLOADSIZE is 30, written out below so that the arithmetic stays linear.

  function Chunks(data: Bytes): (r: seq<Bytes>)
    requires |data| % 30 == 0
    ensures |r| == |data| / 30
    ensures forall i :: 0 <= i < |r| ==> |r[i]| == 30
  {
    seq(|data| / 30, i requires 0 <= i < |data| / 30 =>
      data[30 * i..30 * (i + 1)])
  }

  function Concat(parts: seq<Bytes>): Bytes {
    if parts == [] then [] else Concat(parts[..|parts| - 1]) + parts[|parts| - 1]
  }

  // Cutting a string and joining its chunks are inverse to each other.
  lemma {:induction false} ConcatOfChunks(data: Bytes)
    requires |data| % 30 == 0
    ensures Concat(Chunks(data)) == data
  {
    var n := |data| / 30;
    if n > 0 {
      var front := data[..30 * (n - 1)];
      ConcatOfChunks(front);
      forall i | 0 <= i < n - 1
        ensures Chunks(data)[i] == Chunks(front)[i]
      {
        assert front[30 * i..30 * (i + 1)] == data[30 * i..30 * (i + 1)];
      }
      assert Chunks(data)[..n - 1] == Chunks(front);
      assert data == front + data[30 * (n - 1)..];
    }
  }

  lemma {:induction false} ChunksOfConcat(parts: seq<Bytes>)
    requires forall i :: 0 <= i < |parts| ==> |parts[i]| == 30
    ensures |Concat(parts)| == 30 * |parts|
    ensures Chunks(Concat(parts)) == parts
  {
    if parts != [] {
      var n := |parts|;
      ChunksOfConcat(parts[..n - 1]);
      var data, front := Concat(parts), Concat(parts[..n - 1]);
      forall i | 0 <= i < n
        ensures Chunks(data)[i] == parts[i]
      {
        if i < n - 1 {
          assert Chunks(front)[i] == parts[i];
          assert data[30 * i..30 * (i + 1)] == front[30 * i..30 * (i + 1)];
        }
      }
    }
  }

  function EmbedAll<P(!new)>(S: Suite<P>, chunks: seq<Bytes>): Option<seq<P>>
  {
    if forall i :: 0 <= i < |chunks| ==> MessageFromBytes(S, chunks[i]).Some? then
      Some(seq(|chunks|, i requires 0 <= i < |chunks| => MessageFromBytes(S, chunks[i]).value))
    else
      None
  }

  // The points a value is encrypted as.
  function ValuePoints<P(!new)>(S: Suite<P>, value: Bytes): (r: Option<seq<P>>)
    ensures r.Some? ==> |r.value| == |value| / 30 + 1
  {
    EmbedAll(S, Chunks(Pad(value, 30)))
  }

  function EncryptAll<P(!new)>(G: Group<P>, pk: P, ms: seq<P>, rs: seq<nat>): seq<Ciphertext<P>>
    requires |ms| == |rs|
  {
    seq(|ms|, i requires 0 <= i < |ms| => PKEEncrypt(G, pk, ms[i], rs[i]))
  }

  function EncryptedVector<P(!new)>(S: Suite<P>, pk: P, value: Bytes, rs: seq<nat>): Option<seq<Ciphertext<P>>>
    requires |rs| == |value| / 30 + 1
  {
    var ms :- ValuePoints(S, value);
    Some(EncryptAll(S.group, pk, ms, rs))
  }

  lemma EmbedNext<P(!new)>(S: Suite<P>, chunks: seq<Bytes>, k: nat)
    requires k < |chunks| && EmbedAll(S, chunks[..k]).Some?
    ensures MessageFromBytes(S, chunks[k]).None? ==> EmbedAll(S, chunks).None?
    ensures MessageFromBytes(S, chunks[k]).Some? ==>
      EmbedAll(S, chunks[..k + 1]) == Some(EmbedAll(S, chunks[..k]).value + [MessageFromBytes(S, chunks[k]).value])
  {
    forall i | 0 <= i < k
      ensures chunks[..k + 1][i] == chunks[i] && MessageFromBytes(S, chunks[i]).Some?
    {
      assert chunks[..k][i] == chunks[i];
    }
    if MessageFromBytes(S, chunks[k]).Some? {
      var more := chunks[..k + 1];
      assert forall i :: 0 <= i < k + 1 ==> MessageFromBytes(S, more[i]).Some?;
      assert EmbedAll(S, more).value == EmbedAll(S, chunks[..k]).value + [MessageFromBytes(S, chunks[k]).value];
    }
  }

  lemma EncryptNext<P(!new)>(G: Group<P>, pk: P, ms: seq<P>, m: P, rs: seq<nat>)
    requires |ms| < |rs|
    ensures EncryptAll(G, pk, ms + [m], rs[..|ms| + 1]) ==
      EncryptAll(G, pk, ms, rs[..|ms|]) + [PKEEncrypt(G, pk, m, rs[|ms|])]
  {
  }

  lemma NextChunk(data: Bytes, idx: nat)
    requires |data| % 30 == 0 && 30 * idx < |data|
    ensures idx < |Chunks(data)|
    ensures 30 * (idx + 1) <= |data|
    ensures data[30 * idx..30 * idx + 30] == Chunks(data)[idx]
  {
  }

  method PKEEncryptVector<P(!new)>(S: Suite<P>, pk: P, msg: Bytes, rs: seq<nat>) returns (r: Option<seq<Ciphertext<P>>>)
    requires S.Laws() && |rs| == |msg| / 30 + 1
    ensures r == EncryptedVector(S, pk, msg, rs)
  {
    var padded := Pad(msg, 30);
    var ciphertexts: seq<Ciphertext<P>> := [];
    ghost var ms: seq<P> := [];
    assert EmbedAll(S, Chunks(padded)[..0]).value == ms;
    for idx := 0 to |rs|
      invariant |ms| == idx
      invariant EmbedAll(S, Chunks(padded)[..idx]) == Some(ms)
      invariant ciphertexts == EncryptAll(S.group, pk, ms, rs[..idx])
    {
      NextChunk(padded, idx);
      EmbedNext(S, Chunks(padded), idx);
      var m := NewMessageFromBytes(S, padded[30 * idx..30 * idx + 30]);
      if m.None? {
        return None;
      }
      EncryptNext(S.group, pk, ms, m.value, rs);
      ciphertexts := ciphertexts + [PKEEncrypt(S.group, pk, m.value, rs[idx])];
      ms := ms + [m.value];
    }
    assert Chunks(padded)[..|rs|] == Chunks(padded) && rs[..|rs|] == rs;
    return Some(ciphertexts);
  }

  function ReRandAll<P(!new)>(G: Group<P>, pk: P, cts: seq<Ciphertext<P>>, rs: seq<nat>): seq<Ciphertext<P>>
    requires |cts| == |rs|
  {
    seq(|cts|, i requires 0 <= i < |cts| => ReRand(G, pk, cts[i], rs[i]))
  }

  // One goroutine per ciphertext; they finish in any order.
  method ReRandVector<P(!new)>(G: Group<P>, pk: P, cts: seq<Ciphertext<P>>, rs: seq<nat>)
    returns (r: seq<Ciphertext<P>>)
    requires |cts| == |rs|
    ensures r == ReRandAll(G, pk, cts, rs)
  {
    var out := new Option<Ciphertext<P>>[|cts|](_ => None);
    var running := Indices(|cts|);
    while running != {}
      invariant running <= Indices(|cts|)
      invariant forall i :: 0 <= i < |cts| && i !in running ==> out[i] == Some(ReRand(G, pk, cts[i], rs[i]))
    {
      var i :| i in running;
      out[i] := Some(ReRand(G, pk, cts[i], rs[i]));
      running := running - {i};
    }
    r := seq(|cts|, i requires 0 <= i < |cts| && out[i].Some? reads out => out[i].value);
  }

  // Joining the bytes of each point and removing the padding.
  function DecodePoints<P(!new)>(S: Suite<P>, ms: seq<P>): Option<Bytes> {
    if forall i :: 0 <= i < |ms| ==> MessageBytes(S, ms[i]).Some? then
      Unpadded(Concat(seq(|ms|, i requires 0 <= i < |ms| => MessageBytes(S, ms[i]).value)))
    else
      None
  }

  function DecryptAll<P(!new)>(G: Group<P>, sk: nat, cts: seq<Ciphertext<P>>): (r: seq<P>)
    ensures |r| == |cts|
  {
    seq(|cts|, i requires 0 <= i < |cts| => PKEDecrypt(G, sk, cts[i]))
  }

  function DecryptedVector<P(!new)>(S: Suite<P>, sk: nat, cts: seq<Ciphertext<P>>): Option<Bytes> {
    DecodePoints(S, DecryptAll(S.group, sk, cts))
  }

  // One goroutine per ciphertext; an error of any of them fails the call.
  method PKEDecryptVector<P(!new)>(S: Suite<P>, sk: nat, cts: seq<Ciphertext<P>>) returns (r: Option<Bytes>)
    ensures r == DecryptedVector(S, sk, cts)
  {
    ghost var ms := DecryptAll(S.group, sk, cts);
    var parts := new Bytes[|cts|](_ => []);
    var errors := 0;
    var running := Indices(|cts|);
    while running != {}
      invariant running <= Indices(|cts|)
      invariant errors == 0 ==> forall i :: 0 <= i < |cts| && i !in running ==>
        MessageBytes(S, ms[i]) == Some(parts[i])
      invariant errors > 0 ==> exists i :: 0 <= i < |cts| && MessageBytes(S, ms[i]).None?
    {
      var i :| i in running;
      var bytes := MessageBytes(S, PKEDecrypt(S.group, sk, cts[i]));
      if bytes.None? {
        assert MessageBytes(S, ms[i]).None?;
        errors := errors + 1;
      } else {
        parts[i] := bytes.value;
      }
      running := running - {i};
    }
    if errors > 0 {
      return None;
    }
    var msgBytes: Bytes := [];
    for i := 0 to |cts|
      invariant msgBytes == Concat(parts[..i])
    {
      assert parts[..i + 1] == parts[..i] + [parts[i]];
      msgBytes := msgBytes + parts[i];
    }
    assert parts[..|cts|] == seq(|ms|, i requires 0 <= i < |ms| => MessageBytes(S, ms[i]).value);
    r := Unpad(msgBytes);
  }

  // The ciphertexts encrypt the points, one by one.
  ghost predicate EncryptsAll<P(!new)>(G: Group<P>, pk: P, cts: seq<Ciphertext<P>>, ms: seq<P>) {
    |cts| == |ms| && forall i :: 0 <= i < |cts| ==> Encrypts(G, pk, cts[i], ms[i])
  }

  lemma EncryptionEncryptsAll<P(!new)>(G: Group<P>, pk: P, ms: seq<P>, rs: seq<nat>)
    requires |ms| == |rs|
    ensures EncryptsAll(G, pk, EncryptAll(G, pk, ms, rs), ms)
  {
  }

  lemma ReRandKeepsAll<P(!new)>(G: Group<P>, pk: P, cts: seq<Ciphertext<P>>, ms: seq<P>, rs: seq<nat>)
    requires G.Laws() && EncryptsAll(G, pk, cts, ms) && |cts| == |rs|
    ensures EncryptsAll(G, pk, ReRandAll(G, pk, cts, rs), ms)
  {
    forall i | 0 <= i < |cts|
      ensures Encrypts(G, pk, ReRandAll(G, pk, cts, rs)[i], ms[i])
    {
      ReRandKeepsMessage(G, pk, cts[i], ms[i], rs[i]);
    }
  }

  // Every chunk of the padded value is embedded before the last attempt.
  ghost predicate Embeds<P(!new)>(S: Suite<P>, value: Bytes)
  {
    var chunks := Chunks(Pad(value, 30));
    forall i :: 0 <= i < |chunks| ==>
      var first := FirstAttempt(S, chunks[i], 1);
      first.Some? && first.value < MAX_ATTEMPTS
  }

  lemma EmbedsHasPoints<P(!new)>(S: Suite<P>, value: Bytes)
    requires S.Laws() && Embeds(S, value)
    ensures ValuePoints(S, value).Some?
  {
    var chunks := Chunks(Pad(value, 30));
    forall i | 0 <= i < |chunks|
      ensures MessageFromBytes(S, chunks[i]).Some?
    {
      EmbeddingSucceeds(S, chunks[i]);
    }
  }

  // The points of a value decode to the value exactly if no chunk needed the last attempt.
  lemma PointsRoundTrip<P(!new)>(S: Suite<P>, value: Bytes)
    requires S.Laws() && ValuePoints(S, value).Some?
    ensures DecodePoints(S, ValuePoints(S, value).value) == Some(value) <==> Embeds(S, value)
  {
    var padded := Pad(value, 30);
    var chunks, ms := Chunks(padded), ValuePoints(S, value).value;
    forall i | 0 <= i < |ms|
      ensures MessageBytes(S, ms[i]).Some? && |MessageBytes(S, ms[i]).value| == 30
      ensures FirstAttempt(S, chunks[i], 1).Some?
      ensures MessageBytes(S, ms[i]).value == chunks[i] <==> FirstAttempt(S, chunks[i], 1).value < MAX_ATTEMPTS
    {
      EmbeddingRoundTrip(S, chunks[i]);
    }
    var parts := seq(|ms|, i requires 0 <= i < |ms| => MessageBytes(S, ms[i]).value);
    assert parts == chunks <==> Embeds(S, value);
    OnlyPaddedDecodes(value, parts);
  }

  lemma OnlyPaddedDecodes(value: Bytes, parts: seq<Bytes>)
    requires |parts| == |value| / 30 + 1
    requires forall i :: 0 <= i < |parts| ==> |parts[i]| == 30
    ensures Unpadded(Concat(parts)) == Some(value) <==> parts == Chunks(Pad(value, 30))
  {
    ChunksOfConcat(parts);
    ConcatOfChunks(Pad(value, 30));
    UnpadUndoesPad(value, 30);
    if Unpadded(Concat(parts)) == Some(value) {
      OnlyPaddedUnpads(value, Concat(parts));
    }
  }

  lemma OnlyPaddedUnpads(value: Bytes, data: Bytes)
    requires |data| == |Pad(value, 30)| && Unpadded(data) == Some(value)
    ensures data == Pad(value, 30)
  {
    UnpadAccepts(data, value);
    var n: byte :| n > 0 && data == value + Repeat(n, n);
    assert n == 30 - |value| % 30;
  }

  // Decrypting encryptions of points, fresh or re-randomized, gives what the points decode to.
  lemma VectorDecrypts<P(!new)>(S: Suite<P>, sk: nat, pk: P, ms: seq<P>, cts: seq<Ciphertext<P>>)
    requires S.Laws() && KeyPair(S.group, sk, pk) && EncryptsAll(S.group, pk, cts, ms)
    ensures DecryptedVector(S, sk, cts) == DecodePoints(S, ms)
  {
    forall i | 0 <= i < |cts|
      ensures PKEDecrypt(S.group, sk, cts[i]) == ms[i]
    {
      DecryptRecovers(S.group, sk, pk, cts[i], ms[i]);
    }
    assert DecryptAll(S.group, sk, cts) == ms;
  }

  // Decrypting a value, fresh or re-randomized any number of times, returns it exactly if no
  // chunk needed the last attempt.
  lemma VectorRoundTrip<P(!new)>(S: Suite<P>, sk: nat, pk: P, value: Bytes, cts: seq<Ciphertext<P>>)
    requires S.Laws() && KeyPair(S.group, sk, pk) && ValuePoints(S, value).Some?
    requires EncryptsAll(S.group, pk, cts, ValuePoints(S, value).value)
    ensures |cts| == |value| / 30 + 1
    ensures DecryptedVector(S, sk, cts) == Some(value) <==> Embeds(S, value)
  {
    VectorDecrypts(S, sk, pk, ValuePoints(S, value).value, cts);
    PointsRoundTrip(S, value);
  }

  // ----- Values that need the last attempt -----

  // No chunk that consists of 0xff only needs the last attempt, which would wrap it around.
  ghost predicate DoesNotWrap<P(!new)>(S: Suite<P>, value: Bytes) {
    var chunks := Chunks(Pad(value, 30));
    forall i :: 0 <= i < |chunks| ==>
      chunks[i] != Repeat(0xff, 30) || FirstAttempt(S, chunks[i], 1) != Some(MAX_ATTEMPTS)
  }

  // What the points of a value decode to, chunk by chunk.
  ghost function DecodedChunks<P(!new)>(S: Suite<P>, ms: seq<P>): (r: seq<Bytes>)
    requires forall i :: 0 <= i < |ms| ==> MessageBytes(S, ms[i]).Some?
    ensures |r| == |ms|
  {
    seq(|ms|, i requires 0 <= i < |ms| => MessageBytes(S, ms[i]).value)
  }

  // A decoded chunk is the chunk, or the next number.
  ghost predicate EqualOrNext(part: Bytes, chunk: Bytes) {
    part == chunk || (|part| == |chunk| && BigEndian(part) == BigEndian(chunk) + 1)
  }

  lemma ChunksGrow<P(!new)>(S: Suite<P>, value: Bytes)
    requires S.Laws() && ValuePoints(S, value).Some? && DoesNotWrap(S, value)
    ensures var ms, chunks := ValuePoints(S, value).value, Chunks(Pad(value, 30));
      && |ms| == |chunks| && (forall i :: 0 <= i < |ms| ==> MessageBytes(S, ms[i]).Some?)
      && forall i :: 0 <= i < |ms| ==> EqualOrNext(DecodedChunks(S, ms)[i], chunks[i])
  {
    var ms, chunks := ValuePoints(S, value).value, Chunks(Pad(value, 30));
    forall i | 0 <= i < |ms|
      ensures MessageBytes(S, ms[i]).Some? && EqualOrNext(MessageBytes(S, ms[i]).value, chunks[i])
    {
      EmbeddingRoundTrip(S, chunks[i]);
      if FirstAttempt(S, chunks[i], 1).value == MAX_ATTEMPTS {
        LastAttemptAddsOne(S, chunks[i]);
      }
    }
  }

  lemma {:induction false} ConcatGrows(parts: seq<Bytes>, chunks: seq<Bytes>)
    requires |parts| == |chunks| && forall i :: 0 <= i < |parts| ==> EqualOrNext(parts[i], chunks[i])
    ensures |Concat(parts)| == |Concat(chunks)| && BigEndian(Concat(parts)) >= BigEndian(Concat(chunks))
  {
    if parts != [] {
      var n := |parts| - 1;
      ConcatGrows(parts[..n], chunks[..n]);
      BigEndianConcat(Concat(parts[..n]), parts[n]);
      BigEndianConcat(Concat(chunks[..n]), chunks[n]);
      ProductGrows(BigEndian(Concat(chunks[..n])), BigEndian(Concat(parts[..n])), Pow256(|chunks[n]|));
    }
  }

  lemma ProductGrows(a: nat, b: nat, w: nat)
    requires a <= b
    ensures a * w <= b * w
  {
  }

  // Unpadding the decoded chunks gives the value, a shorter string, or a greater one.
  lemma UnpaddedGrows(value: Bytes, parts: seq<Bytes>, got: Bytes)
    requires var chunks := Chunks(Pad(value, 30));
      |parts| == |chunks| && forall i :: 0 <= i < |parts| ==> EqualOrNext(parts[i], chunks[i])
    requires Unpadded(Concat(parts)) == Some(got)
    ensures got == value || Rank(got) < Rank(value)
  {
    var chunks, n, data := Chunks(Pad(value, 30)), 30 - |value| % 30, Concat(parts);
    ConcatOfChunks(Pad(value, 30));
    ConcatGrows(parts, chunks);
    LastBytes(value, parts);
    GrowsByPadding(value, got, n, data);
  }

  lemma PaddedWith(value: Bytes, n: nat)
    requires n == 30 - |value| % 30
    ensures 0 < n <= 30 && Pad(value, 30) == value + Repeat(n, n)
  {
  }

  lemma GrowsByPadding(value: Bytes, got: Bytes, n: nat, data: Bytes)
    requires n == 30 - |value| % 30 && |data| == |value| + n && Unpadded(data) == Some(got)
    requires data[|data| - 1] == n || data[|data| - 1] == n + 1
    requires BigEndian(data) >= BigEndian(Pad(value, 30))
    ensures got == value || Rank(got) < Rank(value)
  {
    if data[|data| - 1] == n {
      PaddedWith(value, n);
      SamePadding(value, got, n, data);
      GreaterRanksLower(got, value);
    } else {
      MorePadding(value, got, n, data);
      ShorterRanksLower(got, value);
    }
  }

  lemma MorePadding(value: Bytes, got: Bytes, n: nat, data: Bytes)
    requires |data| == |value| + n && |data| > 0 && data[|data| - 1] == n + 1 && Unpadded(data) == Some(got)
    ensures |got| < |value|
  {
  }

  // The last byte of the decoded chunks is that of the padding, or one more.
  lemma LastBytes(value: Bytes, parts: seq<Bytes>)
    requires var chunks := Chunks(Pad(value, 30));
      |parts| == |chunks| && forall i :: 0 <= i < |parts| ==> EqualOrNext(parts[i], chunks[i])
    ensures var chunks, n, data := Chunks(Pad(value, 30)), 30 - |value| % 30, Concat(parts);
      && |data| > 0 && data[|data| - 1] == if parts[|parts| - 1] == chunks[|parts| - 1] then n else n + 1
  {
    var chunks, n, k := Chunks(Pad(value, 30)), 30 - |value| % 30, |parts| - 1;
    var padded := Pad(value, 30);
    assert chunks[k] == padded[30 * k..30 * (k + 1)] && chunks[k][29] == padded[|padded| - 1] == n;
    assert Concat(parts) == Concat(parts[..k]) + parts[k];
    if parts[k] != chunks[k] {
      NextLastByte(parts[k], chunks[k]);
    }
  }

  lemma NextLastByte(part: Bytes, chunk: Bytes)
    requires |part| == |chunk| > 0 && BigEndian(part) == BigEndian(chunk) + 1 && chunk[|chunk| - 1] < 255
    ensures part[|part| - 1] == chunk[|chunk| - 1] + 1
  {
    var p, c := BigEndian(part[..|part| - 1]), BigEndian(chunk[..|chunk| - 1]);
    assert 256 * p + part[|part| - 1] == 256 * c + chunk[|chunk| - 1] + 1;
  }

  // With the same padding the larger data hold the larger value.
  lemma SamePadding(value: Bytes, got: Bytes, n: nat, data: Bytes)
    requires 0 < n <= 30 && Pad(value, 30) == value + Repeat(n, n) && |data| == |value| + n
    requires Unpadded(data) == Some(got) && data[|data| - 1] == n
    requires BigEndian(data) >= BigEndian(Pad(value, 30))
    ensures |got| == |value| && BigEndian(got) >= BigEndian(value)
  {
    assert data == got + Repeat(n, n);
    BigEndianConcat(got, Repeat(n, n));
    BigEndianConcat(value, Repeat(n, n));
    LargerFactor(BigEndian(got), BigEndian(value), Pow256(n), BigEndian(Repeat(n, n)));
  }

  lemma LargerFactor(a: nat, b: nat, w: nat, c: nat)
    requires w > 0 && a * w + c >= b * w + c
    ensures a >= b
  {
    assert a < b ==> a * w < b * w;
  }

  // So what a value decodes to is the value, or ranks lower.
  lemma DecodedRanksLower<P(!new)>(S: Suite<P>, value: Bytes)
    requires S.Laws() && ValuePoints(S, value).Some? && DoesNotWrap(S, value)
    ensures var got := DecodePoints(S, ValuePoints(S, value).value);
      got.Some? ==> got.value == value || Rank(got.value) < Rank(value)
  {
    var ms := ValuePoints(S, value).value;
    ChunksGrow(S, value);
    if DecodePoints(S, ms).Some? {
      UnpaddedGrows(value, DecodedChunks(S, ms), DecodePoints(S, ms).value);
    }
  }

  // ----- Points and ciphertexts, one by one -----

  // Point i of a value is that of bytes 30i to 30i + 30 of the value and its padding.
  lemma ValuePointAt<P(!new)>(S: Suite<P>, value: Bytes, i: nat)
    requires ValuePoints(S, value).Some? && i <= |value| / 30
    ensures var n := 30 - |value| % 30;
      && i < |ValuePoints(S, value).value| && 30 * i + 30 <= |value| + n
      && MessageFromBytes(S, (value + Repeat(n, n))[30 * i..30 * i + 30]) == Some(ValuePoints(S, value).value[i])
  {
    var n := 30 - |value| % 30;
    assert Pad(value, 30) == value + Repeat(n, n);
    NextChunk(Pad(value, 30), i);
  }

  // Ciphertext i of a value, in terms of the group.
  lemma CiphertextAt<P(!new)>(S: Suite<P>, pk: P, value: Bytes, rs: seq<nat>, i: nat)
    requires |rs| == |value| / 30 + 1 && EncryptedVector(S, pk, value, rs).Some? && i < |rs|
    ensures var n, cts := 30 - |value| % 30, EncryptedVector(S, pk, value, rs).value;
      && |cts| == |rs| && 30 * i + 30 <= |value| + n
      && cts[i].c0 == S.group.BaseExp(rs[i])
      && var m := MessageFromBytes(S, (value + Repeat(n, n))[30 * i..30 * i + 30]);
         m.Some? && cts[i].c1 == S.group.Mul(m.value, S.group.Exp(pk, rs[i]))
  {
    ValuePointAt(S, value, i);
  }

  // Re-randomizing adds the draws.
  lemma ReRandAddsAll<P(!new)>(G: Group<P>, pk: P, ms: seq<P>, rs: seq<nat>, more: seq<nat>, sums: seq<nat>)
    requires G.Laws() && |ms| == |rs| == |more| == |sums|
    requires forall i :: 0 <= i < |rs| ==> sums[i] == rs[i] + more[i]
    ensures ReRandAll(G, pk, EncryptAll(G, pk, ms, rs), more) == EncryptAll(G, pk, ms, sums)
  {
    forall i | 0 <= i < |ms|
      ensures ReRand(G, pk, PKEEncrypt(G, pk, ms[i], rs[i]), more[i]) == PKEEncrypt(G, pk, ms[i], sums[i])
    {
      ReRandAddsRandomness(G, pk, ms[i], rs[i], more[i]);
    }
  }

  // A value has points exactly if, for each of its chunks, one of the candidates is the x-coordinate
  // of a point of the curve.
  lemma ValueHasPointsExactly<P(!new)>(S: Suite<P>, value: Bytes)
    requires S.Laws()
    ensures ValuePoints(S, value).Some? <==> forall i: nat :: i <= |value| / 30 ==> ChunkEmbeds(S, value, i)
  {
    var n, chunks := 30 - |value| % 30, Chunks(Pad(value, 30));
    assert Pad(value, 30) == value + Repeat(n, n);
    forall i: nat | i <= |value| / 30
      ensures ChunkEmbeds(S, value, i) <==> MessageFromBytes(S, chunks[i]).Some?
    {
      NextChunk(Pad(value, 30), i);
      EmbeddingSucceeds(S, chunks[i]);
    }
  }

  ghost predicate ChunkEmbeds<P(!new)>(S: Suite<P>, value: Bytes, i: nat)
    requires S.curve.p > 0
  {
    var n := 30 - |value| % 30;
    30 * i + 30 <= |value| + n && SomeCandidateOnCurve(S.curve, (value + Repeat(n, n))[30 * i..30 * i + 30])
  }
}
