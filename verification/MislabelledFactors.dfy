/** Factors under another participant's position: the proofs do not cover the position, so combining accepts them. */
module MislabelledFactors {
  import opened Bytes
  import opened CombineSoundness
  import opened Decryption
  import opened Dlogeq
  import opened Elgamal
  import opened Groups
  import opened Lagrange
  import opened Modular
  import opened Polynomials
  import opened Protocol
  import opened Results
  import opened ThresholdDecryption
  import opened WeightedKeys

  const IDENTITY: Polynomial := [0, 1]

  const REFLECTION: Polynomial := [3, -1]

  function Relabelled<E>(factors: seq<DecryptionFactor<E>>, position: Position): (r: seq<DecryptionFactor<E>>)
    requires |factors| == 1
    ensures |r| == 1
  {
    [factors[0].(source := position)]
  }

  lemma Values(x: int)
    ensures Value(IDENTITY, x) == x && Value(REFLECTION, x) == 3 - x
  {
    assert IDENTITY[1..] == [1] && REFLECTION[1..] == [-1];
    assert Value([1], x) == 1 && Value([-1], x) == -1;
  }

  /** Relabelling keeps the proofs, and turns shares of x at 1 and 2 into shares of 3 - x at 2 and 1. */
  lemma RelabelledShares<E(!new)>(c: Context<E>, ct: Ciphertext<E>, dfactors: seq<seq<DecryptionFactor<E>>>,
                                  vks: seq<E>, proofContext: ByteString, width: nat)
    requires c.Valid() && Typed(c, [ct], dfactors, vks, width) && SameLengths([ct], dfactors) && |dfactors| == 2
    requires AllProofsVerify(c, [ct], dfactors, vks, proofContext, width)
    requires SharesOf(c, [ct], dfactors, IDENTITY) && Sources(dfactors) == [1, 2]
    ensures var swapped := [Relabelled(dfactors[0], 2), Relabelled(dfactors[1], 1)];
            && Typed(c, [ct], swapped, vks, width) && SameLengths([ct], swapped)
            && AllProofsVerify(c, [ct], swapped, vks, proofContext, width)
            && SharesOf(c, [ct], swapped, REFLECTION) && Sources(swapped) == [2, 1]
  {
    hide Rem, Verify, Value;
    Values(1);
    Values(2);
    var swapped: seq<seq<DecryptionFactor<E>>> := [Relabelled(dfactors[0], 2), Relabelled(dfactors[1], 1)];
    assert ProofsVerify(c, [ct], dfactors[0], vks[0], proofContext, width);
    assert ProofsVerify(c, [ct], dfactors[1], vks[1], proofContext, width);
    assert dfactors[0][0].source == Sources(dfactors)[0] && dfactors[1][0].source == Sources(dfactors)[1];
    assert dfactors[0][0].value == c.DistExp([ct][0].u, 1) && dfactors[1][0].value == c.DistExp([ct][0].u, 2);
    forall i, k | 0 <= i < |swapped| && 0 <= k < 1
      ensures swapped[i][k].value == c.DistExp([ct][k].u, Value(REFLECTION, swapped[i][0].source))
    {
    }
  }

  /** Two participants who exchange their positions: every proof verifies under their keys, and the
    * positions are different, but the plaintext is not what the secret decrypts. */
  lemma MislabelledNotDecrypted<E(!new)>(c: Context<E>, proofContext: ByteString)
    returns (ct: Ciphertext<E>, dfactors: seq<seq<DecryptionFactor<E>>>)
    requires c.Valid() && HashTotal(c)
    ensures var vks := VerificationKeys(KeysAt(c, IDENTITY, [1, 2]));
            && Typed(c, [ct], dfactors, vks, 1) && Distinct(Sources(dfactors)) && |IDENTITY| == |dfactors|
            && CombinedKey(c, dfactors, vks) == c.Exp(c.generator, 3) != c.Exp(c.generator, Value(IDENTITY, 0))
            && Combined(c, [ct], dfactors, vks, proofContext, 1).Ok?
            && Combined(c, [ct], dfactors, vks, proofContext, 1).value
               != CentralDecryptions(c, [ct], Value(IDENTITY, 0), 1)
  {
    hide Rem, Combined, FactorsOf, Decrypt, Weighted, SharesOf, AllProofsVerify, Value, KeysOf;
    ct := Ciphertext([c.generator], [c.one]);
    var keys := KeysAt(c, IDENTITY, [1, 2]);
    var vks := VerificationKeys(keys);
    KeysAtAreShares(c, IDENTITY, [1, 2]);
    var honest := FactorsExist(c, ct, keys, proofContext);
    PipelineFactors(c, [ct], keys, honest, IDENTITY, proofContext, 1);
    RelabelledShares(c, ct, honest, vks, proofContext, 1);
    dfactors := [Relabelled(honest[0], 2), Relabelled(honest[1], 1)];
    CombineWeighted(c, [ct], dfactors, vks, proofContext, 1, REFLECTION);
    InterpolationAtZero(c.q, [2, 1], REFLECTION);
    DecryptSame(c, [ct], Weighted(c.q, [2, 1], [2, 1], REFLECTION), Value(REFLECTION, 0), 1);
    Values(0);
    WrongSecret(c, ct);
    SwappedKey(c, dfactors, vks);
  }

  lemma WrongSecret<E(!new)>(c: Context<E>, ct: Ciphertext<E>)
    requires c.Valid() && ct == Ciphertext([c.generator], [c.one])
    ensures CentralDecryptions(c, [ct], 3, 1) != CentralDecryptions(c, [ct], 0, 1)
  {
    hide Rem, Decrypt;
    if CentralDecryptions(c, [ct], 3, 1)[0] == CentralDecryptions(c, [ct], 0, 1)[0] {
      SecretVisible(c, 3, 0);
      RemSmall(c.q, 3);
      RemSmall(c.q, 0);
    }
  }

  /** The keys of participants 1 and 2 under each other's position stand for another key. */
  lemma SwappedKey<E(!new)>(c: Context<E>, dfactors: seq<seq<DecryptionFactor<E>>>, vks: seq<E>)
    requires c.Valid() && vks == VerificationKeys(KeysAt(c, IDENTITY, [1, 2])) && |dfactors| == 2
    requires dfactors[0] != [] && dfactors[1] != [] && Sources(dfactors) == [2, 1]
    ensures forall i | 0 <= i < |dfactors| :: dfactors[i] != [] && 0 <= dfactors[i][0].source < c.q
    ensures CombinedKey(c, dfactors, vks) == c.Exp(c.generator, 3) != c.Exp(c.generator, 0)
  {
    hide Rem, Value, WeightedKey;
    Values(0);
    Values(1);
    Values(2);
    assert dfactors[0][0].source == Sources(dfactors)[0] && dfactors[1][0].source == Sources(dfactors)[1];
    MatchingKeysWeigh(c, [2, 1], vks, REFLECTION);
    LogOfPower(c, 3);
    LogOfPower(c, 0);
    RemSmall(c.q, 3);
    RemSmall(c.q, 0);
  }

  /** Keys under sources that are all multiplied with the same factor still stand for the joint
    * public key, so belonging to the sources is not necessary. */
  lemma ScaledSourcesDecrypt<E(!new)>(c: Context<E>, positions: seq<Position>, sources: seq<Position>, k: int,
                                      vks: seq<E>, f: Polynomial)
    requires c.Valid() && InRange(c.q, positions) && InRange(c.q, sources)
    requires Distinct(positions) && |f| <= |positions| == |sources| == |vks|
    requires forall i | 0 <= i < |positions| :: vks[i] == c.Exp(c.generator, Value(f, positions[i]))
    requires k != 0 && !Same(c.q, k, 0) && forall i | 0 <= i < |positions| :: sources[i] == k * positions[i]
    ensures WeightedKey(c, sources, vks, sources) == c.Exp(c.generator, Value(f, 0))
  {
    hide Rem, Value, WeightedKey;
    MatchingKeysWeigh(c, positions, vks, f);
    WeightedKeyScaled(c, positions, sources, vks, positions, sources, k);
  }
}
