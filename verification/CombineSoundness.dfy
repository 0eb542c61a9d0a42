/** Combining factors from trustees that may be dishonest, under keys and sources that need not belong together. */
module CombineSoundness {
  import opened Bytes
  import opened ChallengeBytes
  import opened CombineLengths
  import opened Decryption
  import opened Dlogeq
  import opened DlogeqEquations
  import opened Elgamal
  import opened Groups
  import opened KeyGeneration
  import opened Lagrange
  import opened Modular
  import opened Polynomials
  import opened Protocol
  import opened Results
  import opened ThresholdDecryption
  import opened WeightedKeys

  /** The key and the factor are no common power, yet the proof that they are verifies. */
  ghost predicate FalseProof<E(!new)>(c: Context<E>, ciphertext: Ciphertext<E>, factor: DecryptionFactor<E>,
                                      verificationKey: E, proofContext: ByteString)
    requires c.q > 0
  {
    && |ciphertext.u| == |factor.value| == |factor.proof.bigA1|
    && Verify(c, factor.proof, c.generator, verificationKey, ciphertext.u, factor.value, proofContext) == Ok(true)
    && (forall x: int :: !SamePower(c, c.generator, verificationKey, ciphertext.u, factor.value, x))
  }

  /** A false proof that verifies has met the one challenge that its commitments allow: it is what
    * everything in the statement, the commitments and the context hashes to. */
  lemma FalseProofIsLuck<E(!new)>(c: Context<E>, ciphertext: Ciphertext<E>, factor: DecryptionFactor<E>,
                                  verificationKey: E, proofContext: ByteString, v': int, k': int)
    requires c.Valid() && FalseProof(c, ciphertext, factor, verificationKey, proofContext)
    requires Check(c, factor.proof.(k := k'), c.generator, verificationKey, ciphertext.u, factor.value, v')
    ensures var hashed := c.digestToScalar(InputStream(c,
                                                       Input(c.generator, ciphertext.u, verificationKey, factor.value,
                                                                factor.proof.bigA0, factor.proof.bigA1, proofContext)));
            hashed.Some? && Same(c.q, hashed.value, v')
  {
    hide Rem, Check, SamePower, Verify, Answers, InputStream;
    var i := InputOf(factor.proof, c.generator, verificationKey, ciphertext.u, factor.value, proofContext);
    VerifyExactly(c, factor.proof, c.generator, verificationKey, ciphertext.u, factor.value, proofContext);
    var v := c.digestToScalar(InputStream(c, i)).value;
    CheckExactly(c, factor.proof, c.generator, verificationKey, ciphertext.u, factor.value, proofContext, v);
    FalseStatementOneChallenge(c, factor.proof, k', c.generator, verificationKey, ciphertext.u, factor.value, v, v');
  }

  /** The exponent in a true statement is the key's logarithm. */
  lemma TrueFactor<E(!new)>(c: Context<E>, ciphertext: Ciphertext<E>, factor: DecryptionFactor<E>, verificationKey: E,
                            proofContext: ByteString)
    requires c.Valid() && |ciphertext.u| == |factor.value| == |factor.proof.bigA1|
    requires Verify(c, factor.proof, c.generator, verificationKey, ciphertext.u, factor.value, proofContext) == Ok(true)
    requires !FalseProof(c, ciphertext, factor, verificationKey, proofContext)
    ensures factor.value == c.DistExp(ciphertext.u, c.Log(verificationKey))
  {
    hide Rem, Verify;
    var x: int :| SamePower(c, c.generator, verificationKey, ciphertext.u, factor.value, x);
    LogOfPower(c, x);
    RemSmall(c.q, c.Log(verificationKey));
    forall j | 0 <= j < |ciphertext.u| ensures factor.value[j] == c.DistExp(ciphertext.u, c.Log(verificationKey))[j] {
      assert factor.value[j] == c.DistExp(ciphertext.u, x)[j];
    }
  }

  /** A false proof is among those for the first n ciphertexts. */
  ghost predicate FalseProofAccepted<E(!new)>(c: Context<E>, ciphertexts: seq<Ciphertext<E>>,
                                              dfactors: seq<seq<DecryptionFactor<E>>>, verificationKeys: seq<E>,
                                              proofContext: ByteString, n: nat)
    requires c.q > 0 && |dfactors| == |verificationKeys| && n <= |ciphertexts|
    requires forall i | 0 <= i < |dfactors| :: n <= |dfactors[i]|
  {
    exists i, k | 0 <= i < |dfactors| && 0 <= k < n ::
      FalseProof(c, ciphertexts[k], dfactors[i][k], verificationKeys[i], proofContext)
  }

  lemma AcceptedProof<E(!new)>(c: Context<E>, ciphertexts: seq<Ciphertext<E>>, dfactors: seq<seq<DecryptionFactor<E>>>,
                               verificationKeys: seq<E>, proofContext: ByteString, width: nat, i: nat, k: nat)
    requires Typed(c, ciphertexts, dfactors, verificationKeys, width)
    requires i < |dfactors| && k < Left(|ciphertexts|, dfactors)
    requires LeftProofsVerify(c, ciphertexts, dfactors, verificationKeys, proofContext, width, i)
    ensures Verify(c, dfactors[i][k].proof, c.generator, verificationKeys[i], ciphertexts[k].u, dfactors[i][k].value,
                   proofContext) == Ok(true)
  {
    hide Rem, Verify;
    var n := Left(|ciphertexts|, dfactors[..i + 1]);
    LeftDecreases(|ciphertexts|, dfactors, i + 1);
    assert k < n && ciphertexts[..n][k] == ciphertexts[k];
    assert dfactors[..i + 1][i] == dfactors[i] && dfactors[i][..n][k] == dfactors[i][k];
  }

  lemma TruePowers<E(!new)>(c: Context<E>, ciphertexts: seq<Ciphertext<E>>, dfactors: seq<seq<DecryptionFactor<E>>>,
                            verificationKeys: seq<E>, proofContext: ByteString, width: nat, k: nat)
    requires c.Valid() && Typed(c, ciphertexts, dfactors, verificationKeys, width)
    requires k < Left(|ciphertexts|, dfactors)
    requires AllLeftProofsVerify(c, ciphertexts, dfactors, verificationKeys, proofContext, width)
    requires !FalseProofAccepted(c, ciphertexts, dfactors, verificationKeys, proofContext,
                                 Left(|ciphertexts|, dfactors))
    ensures forall i | 0 <= i < |dfactors| :: KeyPower(c, ciphertexts[k], dfactors[i], verificationKeys[i], k, width)
  {
    hide Rem, Verify, FalseProof, LeftProofsVerify, Left;
    forall i | 0 <= i < |dfactors| ensures KeyPower(c, ciphertexts[k], dfactors[i], verificationKeys[i], k, width) {
      assert LeftProofsVerify(c, ciphertexts, dfactors, verificationKeys, proofContext, width, i);
      AcceptedProof(c, ciphertexts, dfactors, verificationKeys, proofContext, width, i, k);
      assert !FalseProof(c, ciphertexts[k], dfactors[i][k], verificationKeys[i], proofContext);
      TrueFactor(c, ciphertexts[k], dfactors[i][k], verificationKeys[i], proofContext);
    }
  }

  /** The key that the given factors' sources and verification keys stand for. */
  function CombinedKey<E(==,!new)>(c: Context<E>, dfactors: seq<seq<DecryptionFactor<E>>>, verificationKeys: seq<E>): E
    requires IsPrime(c.q) && |dfactors| == |verificationKeys|
    requires forall i | 0 <= i < |dfactors| :: dfactors[i] != [] && 0 <= dfactors[i][0].source < c.q
  {
    WeightedKey(c, Sources(dfactors), verificationKeys, Sources(dfactors))
  }

  /** If combining succeeds, on factors from anyone and of any lengths, with any sources and keys,
    * then either the plaintexts are what the secret behind the combined key decrypts, or a false
    * proof was accepted. */
  lemma CombineSound<E(!new)>(c: Context<E>, ciphertexts: seq<Ciphertext<E>>, dfactors: seq<seq<DecryptionFactor<E>>>,
                              verificationKeys: seq<E>, proofContext: ByteString, width: nat)
    requires c.Valid() && Typed(c, ciphertexts, dfactors, verificationKeys, width)
    requires Combined(c, ciphertexts, dfactors, verificationKeys, proofContext, width).Ok?
    ensures var n := Left(|ciphertexts|, dfactors);
            || Combined(c, ciphertexts, dfactors, verificationKeys, proofContext, width).value
               == CentralDecryptions(c, ciphertexts[..n], c.Log(CombinedKey(c, dfactors, verificationKeys)), width)
            || FalseProofAccepted(c, ciphertexts, dfactors, verificationKeys, proofContext, n)
  {
    hide Rem, Combined, AllLeftProofsVerify, FalseProofAccepted, Left, Decrypt, DivisorAt, WeightedKey, KeyPower;
    CombinedLeft(c, ciphertexts, dfactors, verificationKeys, proofContext, width);
    var n := Left(|ciphertexts|, dfactors);
    var ms := Combined(c, ciphertexts, dfactors, verificationKeys, proofContext, width).value;
    if !FalseProofAccepted(c, ciphertexts, dfactors, verificationKeys, proofContext, n) {
      forall k | 0 <= k < n
        ensures ms[k] == Decrypt(c, ciphertexts[k].u, ciphertexts[k].v,
                                 c.Log(CombinedKey(c, dfactors, verificationKeys)))
      {
        TruePowers(c, ciphertexts, dfactors, verificationKeys, proofContext, width, k);
        RowOfKeys(c, ciphertexts[k], dfactors, verificationKeys, k, width);
      }
      assert ms == CentralDecryptions(c, ciphertexts[..n], c.Log(CombinedKey(c, dfactors, verificationKeys)), width);
    }
  }

  /** Under a combined key that is the joint public key, these are the joint secret's decryptions. */
  lemma CombineSoundUnderKey<E(!new)>(c: Context<E>, ciphertexts: seq<Ciphertext<E>>,
                                      dfactors: seq<seq<DecryptionFactor<E>>>, verificationKeys: seq<E>, secret: int,
                                      proofContext: ByteString, width: nat)
    requires c.Valid() && Typed(c, ciphertexts, dfactors, verificationKeys, width)
    requires CombinedKey(c, dfactors, verificationKeys) == c.Exp(c.generator, secret)
    requires Combined(c, ciphertexts, dfactors, verificationKeys, proofContext, width).Ok?
    ensures var n := Left(|ciphertexts|, dfactors);
            || Combined(c, ciphertexts, dfactors, verificationKeys, proofContext, width).value
               == CentralDecryptions(c, ciphertexts[..n], secret, width)
            || FalseProofAccepted(c, ciphertexts, dfactors, verificationKeys, proofContext, n)
  {
    hide Rem, Combined, CombinedKey, FalseProofAccepted, Left, CentralDecryptions;
    CombineSound(c, ciphertexts, dfactors, verificationKeys, proofContext, width);
    LogOfPower(c, secret);
    SameRem(c.q, secret);
    DecryptSame(c, ciphertexts[..Left(|ciphertexts|, dfactors)], c.Log(CombinedKey(c, dfactors, verificationKeys)),
                secret, width);
  }

  // The exact condition on keys and sources

  /** Whoever the trustees are, combining under these sources and keys decrypts every ciphertext with
    * the secret, unless a false proof is accepted. */
  ghost predicate AlwaysDecryptsUnder<E(!new)>(c: Context<E>, sources: seq<Position>, verificationKeys: seq<E>,
                                               secret: int, proofContext: ByteString)
    requires c.Valid()
  {
    forall ct: Ciphertext<E>, dfactors: seq<seq<DecryptionFactor<E>>> |
      AcceptedUnder(c, ct, dfactors, sources, verificationKeys, proofContext) ::
      DecryptsUnder(c, ct, dfactors, verificationKeys, secret, proofContext)
  }

  /** Factors for one ciphertext from these sources are combined, and no accepted proof is false. */
  ghost predicate AcceptedUnder<E(!new)>(c: Context<E>, ct: Ciphertext<E>, dfactors: seq<seq<DecryptionFactor<E>>>,
                                         sources: seq<Position>, verificationKeys: seq<E>, proofContext: ByteString)
    requires c.Valid()
  {
    && |ct.u| == |ct.v|
    && Typed(c, [ct], dfactors, verificationKeys, |ct.u|)
    && Sources(dfactors) == sources
    && Combined(c, [ct], dfactors, verificationKeys, proofContext, |ct.u|).Ok?
    && !FalseProofAccepted(c, [ct], dfactors, verificationKeys, proofContext, 1)
  }

  ghost predicate DecryptsUnder<E(!new)>(c: Context<E>, ct: Ciphertext<E>, dfactors: seq<seq<DecryptionFactor<E>>>,
                                         verificationKeys: seq<E>, secret: int, proofContext: ByteString)
    requires c.Valid() && |ct.u| == |ct.v| && Typed(c, [ct], dfactors, verificationKeys, |ct.u|)
  {
    Combined(c, [ct], dfactors, verificationKeys, proofContext, |ct.u|) == Ok([Decrypt(c, ct.u, ct.v, secret)])
  }

  lemma AcceptedDecrypts<E(!new)>(c: Context<E>, ct: Ciphertext<E>, dfactors: seq<seq<DecryptionFactor<E>>>,
                                  sources: seq<Position>, verificationKeys: seq<E>, proofContext: ByteString)
    requires c.Valid() && AcceptedUnder(c, ct, dfactors, sources, verificationKeys, proofContext)
    requires InRange(c.q, sources) && |sources| == |verificationKeys|
    ensures Combined(c, [ct], dfactors, verificationKeys, proofContext, |ct.u|)
         == Ok([Decrypt(c, ct.u, ct.v, c.Log(WeightedKey(c, sources, verificationKeys, sources)))])
  {
    hide Rem, Combined, WeightedKey, FalseProofAccepted, Decrypt, Left;
    CombineSound(c, [ct], dfactors, verificationKeys, proofContext, |ct.u|);
    var n := Left(1, dfactors);
    assert n == 1;
    assert [ct][..n] == [ct];
    var s := c.Log(WeightedKey(c, sources, verificationKeys, sources));
    assert CentralDecryptions(c, [ct], s, |ct.u|) == [Decrypt(c, ct.u, ct.v, s)];
  }

  lemma DecryptsSame<E(!new)>(c: Context<E>, ct: Ciphertext<E>, s: int, s': int)
    requires c.Valid() && |ct.u| == |ct.v| && Same(c.q, s, s')
    ensures Decrypt(c, ct.u, ct.v, s) == Decrypt(c, ct.u, ct.v, s')
  {
    hide Rem, Decrypt;
    DecryptSame(c, [ct], s, s', |ct.u|);
    assert CentralDecryptions(c, [ct], s, |ct.u|)[0] == CentralDecryptions(c, [ct], s', |ct.u|)[0];
  }

  /** The sources and keys decrypt with a secret exactly when the key they combine to is its public
    * key, which anyone can compute. Sources may be repeated, or be those of other trustees. */
  lemma KeysDecryptExactly<E(!new)>(c: Context<E>, sources: seq<Position>, verificationKeys: seq<E>, secret: int,
                                    proofContext: ByteString)
    requires c.Valid() && HashTotal(c) && InRange(c.q, sources) && |sources| == |verificationKeys|
    ensures AlwaysDecryptsUnder(c, sources, verificationKeys, secret, proofContext)
       <==> WeightedKey(c, sources, verificationKeys, sources) == c.Exp(c.generator, secret)
  {
    hide Rem, AcceptedUnder, DecryptsUnder, WeightedKey, HashTotal;
    if WeightedKey(c, sources, verificationKeys, sources) == c.Exp(c.generator, secret) {
      forall ct: Ciphertext<E>, dfactors: seq<seq<DecryptionFactor<E>>> |
        AcceptedUnder(c, ct, dfactors, sources, verificationKeys, proofContext)
        ensures |ct.u| == |ct.v| && Typed(c, [ct], dfactors, verificationKeys, |ct.u|)
        ensures DecryptsUnder(c, ct, dfactors, verificationKeys, secret, proofContext)
      {
        RightKeyDecrypts(c, ct, dfactors, sources, verificationKeys, secret, proofContext);
      }
    } else {
      WrongKeyVisible(c, sources, verificationKeys, secret, proofContext);
    }
  }

  lemma RightKeyDecrypts<E(!new)>(c: Context<E>, ct: Ciphertext<E>, dfactors: seq<seq<DecryptionFactor<E>>>,
                                  sources: seq<Position>, verificationKeys: seq<E>, secret: int,
                                  proofContext: ByteString)
    requires c.Valid() && InRange(c.q, sources) && |sources| == |verificationKeys|
    requires AcceptedUnder(c, ct, dfactors, sources, verificationKeys, proofContext)
    requires WeightedKey(c, sources, verificationKeys, sources) == c.Exp(c.generator, secret)
    ensures |ct.u| == |ct.v| && Typed(c, [ct], dfactors, verificationKeys, |ct.u|)
    ensures DecryptsUnder(c, ct, dfactors, verificationKeys, secret, proofContext)
  {
    hide Rem, AcceptedUnder, WeightedKey, Decrypt, Combined, Typed;
    AcceptedTyped(c, ct, dfactors, sources, verificationKeys, proofContext);
    AcceptedDecrypts(c, ct, dfactors, sources, verificationKeys, proofContext);
    LogOfPower(c, secret);
    SameRem(c.q, secret);
    DecryptsSame(c, ct, c.Log(WeightedKey(c, sources, verificationKeys, sources)), secret);
  }

  lemma AcceptedTyped<E(!new)>(c: Context<E>, ct: Ciphertext<E>, dfactors: seq<seq<DecryptionFactor<E>>>,
                               sources: seq<Position>, verificationKeys: seq<E>, proofContext: ByteString)
    requires c.Valid() && AcceptedUnder(c, ct, dfactors, sources, verificationKeys, proofContext)
    ensures |ct.u| == |ct.v| && Typed(c, [ct], dfactors, verificationKeys, |ct.u|)
  {
  }

  /** Under a combined key that is not the secret's, honest factors of one ciphertext give a wrong plaintext. */
  lemma WrongKeyVisible<E(!new)>(c: Context<E>, sources: seq<Position>, verificationKeys: seq<E>, secret: int,
                                 proofContext: ByteString)
    requires c.Valid() && HashTotal(c) && InRange(c.q, sources) && |sources| == |verificationKeys|
    requires WeightedKey(c, sources, verificationKeys, sources) != c.Exp(c.generator, secret)
    ensures !AlwaysDecryptsUnder(c, sources, verificationKeys, secret, proofContext)
  {
    hide Rem, AcceptedUnder, WeightedKey, Decrypt, Combined, HashTotal;
    var ct := Ciphertext([c.generator], [c.one]);
    var key := WeightedKey(c, sources, verificationKeys, sources);
    var dfactors := HonestUnder(c, ct, sources, verificationKeys, proofContext);
    AcceptedTyped(c, ct, dfactors, sources, verificationKeys, proofContext);
    AcceptedDecrypts(c, ct, dfactors, sources, verificationKeys, proofContext);
    if Decrypt(c, ct.u, ct.v, c.Log(key)) == Decrypt(c, ct.u, ct.v, secret) {
      SecretVisible(c, c.Log(key), secret);
      PowerOfLog(c, key, secret);
    }
    assert !DecryptsUnder(c, ct, dfactors, verificationKeys, secret, proofContext);
  }

  /** The keys of trustees that know the logarithms of these verification keys. */
  ghost function KeysOfLogs<E(!new)>(c: Context<E>, sources: seq<Position>,
                                     verificationKeys: seq<E>): (keys: seq<RecipientKey<E>>)
    requires c.Valid() && |sources| == |verificationKeys|
    ensures |keys| == |sources|
  {
    seq(|sources|, i requires 0 <= i < |sources| =>
      RecipientKey(sources[i], verificationKeys[i], c.Log(verificationKeys[i])))
  }

  lemma HonestUnder<E(!new)>(c: Context<E>, ct: Ciphertext<E>, sources: seq<Position>, verificationKeys: seq<E>,
                             proofContext: ByteString)
    returns (dfactors: seq<seq<DecryptionFactor<E>>>)
    requires c.Valid() && HashTotal(c) && InRange(c.q, sources) && |sources| == |verificationKeys|
    requires |ct.u| == |ct.v|
    ensures AcceptedUnder(c, ct, dfactors, sources, verificationKeys, proofContext)
  {
    hide Rem, Combined, HashTotal, FactorOf, HonestAt, FalseProof, AllLeftProofsVerify, PlaintextsAre, Left;
    dfactors := FactorsExist(c, ct, KeysOfLogs(c, sources, verificationKeys), proofContext);
    forall i | 0 <= i < |sources|
      ensures HonestVectorOf(c, ct, dfactors[i], sources[i], verificationKeys[i], proofContext)
    {
      assert FactorOf(c, [ct], KeysOfLogs(c, sources, verificationKeys)[i], dfactors[i], proofContext);
      HonestOfLog(c, ct, sources[i], verificationKeys[i], dfactors[i], proofContext);
    }
    assert Sources(dfactors) == sources;
    HonestProofs(c, ct, dfactors, sources, verificationKeys, proofContext);
    CombinedLeft(c, [ct], dfactors, verificationKeys, proofContext, |ct.u|);
  }

  /** One factor, from this source, with a proof of a true statement that verifies. */
  ghost predicate HonestVectorOf<E(!new)>(c: Context<E>, ct: Ciphertext<E>, factors: seq<DecryptionFactor<E>>,
                                          source: Position, verificationKey: E, proofContext: ByteString)
    requires c.Valid() && |ct.u| == |ct.v|
  {
    && |factors| == 1 && factors[0].source == source && FactorsWide(factors, |ct.u|)
    && ProofsVerify(c, [ct], factors, verificationKey, proofContext, |ct.u|)
    && !FalseProof(c, ct, factors[0], verificationKey, proofContext)
  }

  lemma HonestOfLog<E(!new)>(c: Context<E>, ct: Ciphertext<E>, source: Position, verificationKey: E,
                             factors: seq<DecryptionFactor<E>>, proofContext: ByteString)
    requires c.Valid() && |ct.u| == |ct.v| && 0 <= source < c.q
    requires FactorOf(c, [ct], RecipientKey(source, verificationKey, c.Log(verificationKey)), factors, proofContext)
    ensures HonestVectorOf(c, ct, factors, source, verificationKey, proofContext)
  {
    hide Rem, DecryptionFactors, Verify, ProofsVerify;
    var key := RecipientKey(source, verificationKey, c.Log(verificationKey));
    var f := [c.Log(verificationKey)];
    ConstantValue(c.Log(verificationKey), source);
    RemSmall(c.q, c.Log(verificationKey));
    assert KeyOf(c, key, f);
    var nonces: seq<int> :| |nonces| == 1 && DecryptionFactors(c, key, [ct], proofContext, nonces) == Ok(factors);
    HonestFactors(c, [ct], key, f, proofContext, nonces, |ct.u|);
    HonestRow(c, [ct], factors, key, f, proofContext, |ct.u|);
    assert SamePower(c, c.generator, verificationKey, ct.u, factors[0].value, c.Log(verificationKey));
  }

  lemma ConstantValue(v: int, x: int)
    ensures Value([v], x) == v
  {
  }

  lemma HonestProofs<E(!new)>(c: Context<E>, ct: Ciphertext<E>, dfactors: seq<seq<DecryptionFactor<E>>>,
                              sources: seq<Position>, verificationKeys: seq<E>, proofContext: ByteString)
    requires c.Valid() && |ct.u| == |ct.v| && InRange(c.q, sources) && |dfactors| == |sources| == |verificationKeys|
    requires forall i | 0 <= i < |sources| ::
               HonestVectorOf(c, ct, dfactors[i], sources[i], verificationKeys[i], proofContext)
    ensures Typed(c, [ct], dfactors, verificationKeys, |ct.u|)
    ensures AllLeftProofsVerify(c, [ct], dfactors, verificationKeys, proofContext, |ct.u|)
    ensures !FalseProofAccepted(c, [ct], dfactors, verificationKeys, proofContext, 1)
  {
    hide Rem, ProofsVerify, FalseProof, Left;
    forall i | 0 <= i < |dfactors|
      ensures dfactors[i] != [] && FactorsWide(dfactors[i], |ct.u|) && 0 <= dfactors[i][0].source < c.q
      ensures !FalseProof(c, ct, dfactors[i][0], verificationKeys[i], proofContext)
    {
      assert HonestVectorOf(c, ct, dfactors[i], sources[i], verificationKeys[i], proofContext);
    }
    forall i | 0 <= i < |dfactors|
      ensures LeftProofsVerify(c, [ct], dfactors, verificationKeys, proofContext, |ct.u|, i)
    {
      assert HonestVectorOf(c, ct, dfactors[i], sources[i], verificationKeys[i], proofContext);
      OneLeft(dfactors, i);
      assert [ct][..1] == [ct] && dfactors[i][..1] == dfactors[i];
    }
  }

  lemma OneLeft<E>(dfactors: seq<seq<DecryptionFactor<E>>>, i: nat)
    requires i < |dfactors| && forall j | 0 <= j < |dfactors| :: |dfactors[j]| == 1
    ensures Left(1, dfactors[..i + 1]) == 1
  {
    hide Left;
  }
}
