/** Which error combining returns: that of the first proof looked at that does not verify. */
module CombineErrors {
  import opened Bytes
  import opened CombineLengths
  import opened Decryption
  import opened Dlogeq
  import opened Elgamal
  import opened Groups
  import opened Lagrange
  import opened Modular
  import opened Results
  import opened ThresholdDecryption

  /** The proof for one ciphertext, verified. */
  function Verified<E(==,!new)>(c: Context<E>, ciphertext: Ciphertext<E>, factor: DecryptionFactor<E>,
                                verificationKey: E, proofContext: ByteString): Result<bool>
    requires c.q > 0 && |ciphertext.u| == |factor.value| == |factor.proof.bigA1|
  {
    Verify(c, factor.proof, c.generator, verificationKey, ciphertext.u, factor.value, proofContext)
  }

  /** A proof that does not verify is reported as such, unless its challenge cannot be hashed. */
  function ErrorOf(verified: Result<bool>): Error {
    match verified
    case Ok(_) => DecryptProofFailed
    case Err(error) => error
  }

  /** The k-th proof of one trustee is its first that does not verify. */
  ghost predicate FirstBad<E(!new)>(c: Context<E>, ciphertexts: seq<Ciphertext<E>>, factors: seq<DecryptionFactor<E>>,
                                    verificationKey: E, proofContext: ByteString, width: nat, k: nat)
    requires c.q > 0 && FactorsWide(factors, width) && AllWide(ciphertexts, width)
    requires k < |factors| && k < |ciphertexts|
  {
    && Verified(c, ciphertexts[k], factors[k], verificationKey, proofContext) != Ok(true)
    && (forall j | 0 <= j < k :: Verified(c, ciphertexts[j], factors[j], verificationKey, proofContext) == Ok(true))
  }

  lemma {:induction false} NextDivisorsFail<E(!new)>(c: Context<E>, divisors: seq<seq<E>>,
                                                     factors: seq<DecryptionFactor<E>>,
                                                     ciphertexts: seq<Ciphertext<E>>, verificationKey: E, lagrange: int,
                                                     proofContext: ByteString, width: nat)
    returns (k: nat)
    requires c.q > 0 && RowsWide(divisors, width) && FactorsWide(factors, width) && AllWide(ciphertexts, width)
    requires NextDivisors(c, divisors, factors, ciphertexts, verificationKey, lagrange, proofContext, width).Err?
    ensures k < |divisors| && k < |factors| && k < |ciphertexts|
    ensures FirstBad(c, ciphertexts, factors, verificationKey, proofContext, width, k)
    ensures NextDivisors(c, divisors, factors, ciphertexts, verificationKey, lagrange, proofContext, width).error
         == ErrorOf(Verified(c, ciphertexts[k], factors[k], verificationKey, proofContext))
    decreases |divisors|
  {
    hide Rem, Verify;
    if Verified(c, ciphertexts[0], factors[0], verificationKey, proofContext) != Ok(true) {
      k := 0;
    } else {
      var j := NextDivisorsFail(c, divisors[1..], factors[1..], ciphertexts[1..], verificationKey, lagrange,
                                proofContext, width);
      k := j + 1;
      forall i | 0 <= i < k
        ensures Verified(c, ciphertexts[i], factors[i], verificationKey, proofContext) == Ok(true)
      {
        if i > 0 {
          assert ciphertexts[i] == ciphertexts[1..][i - 1] && factors[i] == factors[1..][i - 1];
        }
      }
    }
  }

  /** The k-th proof of trustee i is the first of those looked at that does not verify. */
  ghost predicate FirstBadProof<E(!new)>(c: Context<E>, ciphertexts: seq<Ciphertext<E>>,
                                         dfactors: seq<seq<DecryptionFactor<E>>>, verificationKeys: seq<E>,
                                         proofContext: ByteString, width: nat, i: nat, k: nat)
    requires Typed(c, ciphertexts, dfactors, verificationKeys, width)
  {
    && i < |dfactors| && k < Left(|ciphertexts|, dfactors[..i + 1]) && k < |dfactors[i]|
    && FirstBad(c, ciphertexts, dfactors[i], verificationKeys[i], proofContext, width, k)
    && (forall j | 0 <= j < i :: LeftProofsVerify(c, ciphertexts, dfactors, verificationKeys, proofContext, width, j))
  }

  lemma {:induction false} DivisorsFail<E(!new)>(c: Context<E>, ciphertexts: seq<Ciphertext<E>>,
                                                 dfactors: seq<seq<DecryptionFactor<E>>>, verificationKeys: seq<E>,
                                                 present: seq<Position>, proofContext: ByteString, width: nat, n: nat)
    returns (i: nat, k: nat)
    requires Typed(c, ciphertexts, dfactors, verificationKeys, width) && InRange(c.q, present) && n <= |dfactors|
    requires Divisors(c, ciphertexts, dfactors[..n], verificationKeys[..n], present, proofContext, width).Err?
    ensures FirstBadProof(c, ciphertexts, dfactors, verificationKeys, proofContext, width, i, k)
    ensures Divisors(c, ciphertexts, dfactors[..n], verificationKeys[..n], present, proofContext, width).error
         == ErrorOf(Verified(c, ciphertexts[k], dfactors[i][k], verificationKeys[i], proofContext))
    decreases n
  {
    hide Rem, NextDivisors, Coefficient, LeftProofsVerify, FirstBad, RowsAre, Verified;
    assert n > 0;
    var m := n - 1;
    assert dfactors[..n][..m] == dfactors[..m] && verificationKeys[..n][..m] == verificationKeys[..m];
    assert dfactors[..m + 1] == dfactors[..m] + [dfactors[m]];
    var before := Divisors(c, ciphertexts, dfactors[..m], verificationKeys[..m], present, proofContext, width);
    if before.Err? {
      i, k := DivisorsFail(c, ciphertexts, dfactors, verificationKeys, present, proofContext, width, m);
    } else {
      hide Divisors, AllLeftProofsVerify;
      DivisorsLeft(c, ciphertexts, dfactors[..m], verificationKeys[..m], present, proofContext, width);
      i := m;
      k := NextDivisorsFail(c, before.value, dfactors[m], ciphertexts, verificationKeys[m],
                            Coefficient(c.q, dfactors[m][0].source, present), proofContext, width);
      EarlierVerify(c, ciphertexts, dfactors, verificationKeys, proofContext, width, m);
    }
  }

  lemma EarlierVerify<E(!new)>(c: Context<E>, ciphertexts: seq<Ciphertext<E>>,
                               dfactors: seq<seq<DecryptionFactor<E>>>, verificationKeys: seq<E>,
                               proofContext: ByteString, width: nat, m: nat)
    requires Typed(c, ciphertexts, dfactors, verificationKeys, width) && m <= |dfactors|
    requires AllLeftProofsVerify(c, ciphertexts, dfactors[..m], verificationKeys[..m], proofContext, width)
    ensures forall j | 0 <= j < m ::
              LeftProofsVerify(c, ciphertexts, dfactors, verificationKeys, proofContext, width, j)
  {
    hide Rem, ProofsVerify, Left;
    forall j | 0 <= j < m ensures LeftProofsVerify(c, ciphertexts, dfactors, verificationKeys, proofContext, width, j) {
      assert LeftProofsVerify(c, ciphertexts, dfactors[..m], verificationKeys[..m], proofContext, width, j);
      assert dfactors[..m][..j + 1] == dfactors[..j + 1];
    }
  }

  /** Combining fails with the error of the first proof that does not verify, trustee by trustee and
    * ciphertext by ciphertext, among those that are looked at. */
  lemma CombinedError<E(!new)>(c: Context<E>, ciphertexts: seq<Ciphertext<E>>,
                               dfactors: seq<seq<DecryptionFactor<E>>>, verificationKeys: seq<E>,
                               proofContext: ByteString, width: nat)
    returns (i: nat, k: nat)
    requires Typed(c, ciphertexts, dfactors, verificationKeys, width)
    requires Combined(c, ciphertexts, dfactors, verificationKeys, proofContext, width).Err?
    ensures FirstBadProof(c, ciphertexts, dfactors, verificationKeys, proofContext, width, i, k)
    ensures Combined(c, ciphertexts, dfactors, verificationKeys, proofContext, width).error
         == ErrorOf(Verified(c, ciphertexts[k], dfactors[i][k], verificationKeys[i], proofContext))
  {
    hide Rem, Divisors, Verified;
    assert dfactors[..|dfactors|] == dfactors && verificationKeys[..|dfactors|] == verificationKeys;
    i, k := DivisorsFail(c, ciphertexts, dfactors, verificationKeys, Sources(dfactors), proofContext, width,
                         |dfactors|);
  }
}
