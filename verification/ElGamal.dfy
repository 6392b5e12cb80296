/** ElGamal over the group, from mppj-go/encryption.go, and the Hash-DH OPRF of mppj-go/prf.go.
    The randomness of each operation is its last parameter. */
module ElGamal {
  import opened Groups
  import opened Octets
  import opened Suites

  datatype Ciphertext<P> = Ciphertext(c0: P, c1: P)

  // The secret key is stored negated: pk * g^sk = 1.
  ghost predicate KeyPair<P(!new)>(G: Group<P>, sk: nat, pk: P) {
    G.Mul(pk, G.BaseExp(sk)) == G.one
  }

  function PKEKeyGen<P(!new)>(G: Group<P>, r: nat): (keys: (nat, P))
    requires G.Laws()
    ensures KeyPair(G, keys.0, keys.1)
    ensures keys.0 < G.order && (keys.0 + r) % G.order == 0
  {
    G.ScalarLaws(G.gen, r, 0);
    G.NegatedScalar(r);
    (G.ScalarNeg(r), G.BaseExp(r))
  }

  function PKEEncrypt<P(!new)>(G: Group<P>, pk: P, m: P, r: nat): Ciphertext<P> {
    Ciphertext(G.BaseExp(r), G.Mul(m, G.Exp(pk, r)))
  }

  // Encryption as a recurrence in the randomness: without any it is (1, m), and each further unit
  // multiplies the halves by the generator and the key.
  lemma EncryptNextUnit<P(!new)>(G: Group<P>, pk: P, m: P, r: nat)
    requires G.Laws()
    ensures PKEEncrypt(G, pk, m, 0) == Ciphertext(G.one, m)
    ensures PKEEncrypt(G, pk, m, r + 1).c0 == G.Mul(PKEEncrypt(G, pk, m, r).c0, G.gen)
    ensures PKEEncrypt(G, pk, m, r + 1).c1 == G.Mul(PKEEncrypt(G, pk, m, r).c1, pk)
  {
    assert G.UnitAt(m) && G.CommAt(G.gen, G.BaseExp(r)) && G.CommAt(pk, G.Exp(pk, r));
    assert G.AssocAt(m, G.Exp(pk, r), pk);
  }

  // The operations on ciphertexts with known randomness, exactly.
  lemma ReRandAddsRandomness<P(!new)>(G: Group<P>, pk: P, m: P, r0: nat, r: nat)
    requires G.Laws()
    ensures ReRand(G, pk, PKEEncrypt(G, pk, m, r0), r) == PKEEncrypt(G, pk, m, r0 + r)
  {
    G.ExpAdd(G.gen, r0, r);
    G.ExpAdd(pk, r0, r);
    assert G.AssocAt(m, G.Exp(pk, r0), G.Exp(pk, r));
  }

  lemma EvalScalesRandomness<P(!new)>(G: Group<P>, key: nat, pk: P, m: P, r0: nat, r: nat)
    requires G.Laws()
    ensures OPRFEval(G, key, pk, PKEEncrypt(G, pk, m, r0), r) == PKEEncrypt(G, pk, G.Exp(m, key), r0 * key + r)
  {
    G.ExpMul(G.gen, r0, key);
    G.ExpOfProduct(m, G.Exp(pk, r0), key);
    G.ExpMul(pk, r0, key);
    ReRandAddsRandomness(G, pk, G.Exp(m, key), r0 * key, r);
  }

  function PKEDecrypt<P(!new)>(G: Group<P>, sk: nat, ct: Ciphertext<P>): P {
    G.Mul(ct.c1, G.Exp(ct.c0, sk))
  }

  function ReRand<P(!new)>(G: Group<P>, pk: P, ct: Ciphertext<P>, r: nat): Ciphertext<P> {
    Ciphertext(G.Mul(ct.c0, G.BaseExp(r)), G.Mul(ct.c1, G.Exp(pk, r)))
  }

  function OPRFBlind<P(!new)>(S: Suite<P>, bpk: P, msg: Bytes, sid: Bytes, r: nat): Ciphertext<P> {
    PKEEncrypt(S.group, bpk, S.HashToPoint(msg, sid), r)
  }

  function OPRFUnblind<P(!new)>(G: Group<P>, bsk: nat, ct: Ciphertext<P>): P {
    PKEDecrypt(G, bsk, ct)
  }

  function OPRFEval<P(!new)>(G: Group<P>, key: nat, bpk: P, ct: Ciphertext<P>, r: nat): Ciphertext<P> {
    ReRand(G, bpk, Ciphertext(G.Exp(ct.c0, key), G.Exp(ct.c1, key)), r)
  }

  // The blinding step of blindAndHint: c1 is multiplied by a point.
  function MulMessage<P(!new)>(G: Group<P>, ct: Ciphertext<P>, p: P): Ciphertext<P> {
    ct.(c1 := G.Mul(ct.c1, p))
  }

  // ct is an encryption of m under pk, for some randomness.
  ghost predicate Encrypts<P(!new)>(G: Group<P>, pk: P, ct: Ciphertext<P>, m: P) {
    exists r: nat :: ct == PKEEncrypt(G, pk, m, r)
  }

  lemma ReRandKeepsMessage<P(!new)>(G: Group<P>, pk: P, ct: Ciphertext<P>, m: P, r: nat)
    requires G.Laws() && Encrypts(G, pk, ct, m)
    ensures Encrypts(G, pk, ReRand(G, pk, ct, r), m)
  {
    var r0: nat :| ct == PKEEncrypt(G, pk, m, r0);
    ReRandAddsRandomness(G, pk, m, r0, r);
  }

  lemma EvalRaisesMessage<P(!new)>(G: Group<P>, key: nat, pk: P, ct: Ciphertext<P>, m: P, r: nat)
    requires G.Laws() && Encrypts(G, pk, ct, m)
    ensures Encrypts(G, pk, OPRFEval(G, key, pk, ct, r), G.Exp(m, key))
  {
    var r0: nat :| ct == PKEEncrypt(G, pk, m, r0);
    EvalScalesRandomness(G, key, pk, m, r0, r);
  }

  lemma MulMultipliesMessage<P(!new)>(G: Group<P>, pk: P, ct: Ciphertext<P>, m: P, p: P)
    requires G.Laws() && Encrypts(G, pk, ct, m)
    ensures Encrypts(G, pk, MulMessage(G, ct, p), G.Mul(m, p))
  {
    var r: nat :| ct == PKEEncrypt(G, pk, m, r);
    var mask := G.Exp(pk, r);
    assert G.AssocAt(m, mask, p) && G.CommAt(mask, p) && G.AssocAt(m, p, mask);
    assert MulMessage(G, ct, p) == PKEEncrypt(G, pk, G.Mul(m, p), r);
  }

  // Decryption with the negated key recovers the message, whatever the randomness.
  lemma DecryptRecovers<P(!new)>(G: Group<P>, sk: nat, pk: P, ct: Ciphertext<P>, m: P)
    requires G.Laws() && KeyPair(G, sk, pk) && Encrypts(G, pk, ct, m)
    ensures PKEDecrypt(G, sk, ct) == m
  {
    var r: nat :| ct == PKEEncrypt(G, pk, m, r);
    var mask, unmask := G.Exp(pk, r), G.Exp(G.BaseExp(sk), r);
    G.ExpMul(G.gen, r, sk);
    G.ExpMul(G.gen, sk, r);
    G.ExpOfProduct(pk, G.BaseExp(sk), r);
    G.ExpOne(r);
    assert r * sk == sk * r;
    assert G.AssocAt(m, mask, unmask) && G.UnitAt(m);
  }

  // A run of homomorphic operations, and what each does to the message underneath.
  datatype Operation<P> = ReRandomize(r: nat) | Evaluate(key: nat, r: nat) | Multiply(p: P)

  function Apply<P(!new)>(G: Group<P>, pk: P, ct: Ciphertext<P>, ops: seq<Operation<P>>): Ciphertext<P> {
    if ops == [] then ct else
      var before := Apply(G, pk, ct, ops[..|ops| - 1]);
      match ops[|ops| - 1]
      case ReRandomize(r) => ReRand(G, pk, before, r)
      case Evaluate(key, r) => OPRFEval(G, key, pk, before, r)
      case Multiply(p) => MulMessage(G, before, p)
  }

  function Meaning<P(!new)>(G: Group<P>, m: P, ops: seq<Operation<P>>): P {
    if ops == [] then m else
      var before := Meaning(G, m, ops[..|ops| - 1]);
      match ops[|ops| - 1]
      case ReRandomize(_) => before
      case Evaluate(key, _) => G.Exp(before, key)
      case Multiply(p) => G.Mul(before, p)
  }

  // Any sequence of operations can be done on the ciphertext or on the message.
  lemma {:induction false} HomomorphicRun<P(!new)>(G: Group<P>, sk: nat, pk: P, m: P, r: nat, ops: seq<Operation<P>>)
    requires G.Laws() && KeyPair(G, sk, pk)
    ensures Encrypts(G, pk, Apply(G, pk, PKEEncrypt(G, pk, m, r), ops), Meaning(G, m, ops))
    ensures PKEDecrypt(G, sk, Apply(G, pk, PKEEncrypt(G, pk, m, r), ops)) == Meaning(G, m, ops)
  {
    var ct := PKEEncrypt(G, pk, m, r);
    if ops != [] {
      var earlier := ops[..|ops| - 1];
      HomomorphicRun(G, sk, pk, m, r, earlier);
      var ct', m' := Apply(G, pk, ct, earlier), Meaning(G, m, earlier);
      match ops[|ops| - 1]
      case ReRandomize(r') => ReRandKeepsMessage(G, pk, ct', m', r');
      case Evaluate(key, r') => EvalRaisesMessage(G, key, pk, ct', m', r');
      case Multiply(p) => MulMultipliesMessage(G, pk, ct', m', p);
    }
    DecryptRecovers(G, sk, pk, Apply(G, pk, ct, ops), Meaning(G, m, ops));
  }
}
