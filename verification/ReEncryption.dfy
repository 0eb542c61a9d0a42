/** Re-encrypting ciphertexts before they are decrypted together. */
module ReEncryption {
  import opened Bytes
  import opened Decryption
  import opened Elgamal
  import opened Groups
  import opened Lagrange
  import opened Modular
  import opened Polynomials
  import opened Results
  import opened ThresholdDecryption

  /** Every ciphertext is re-encrypted by a chain of its own. */
  ghost predicate ReEncrypted<E(!new)>(c: Context<E>, ciphertexts: seq<Ciphertext<E>>, ciphertexts': seq<Ciphertext<E>>,
                                       chains: seq<seq<seq<int>>>, pk: E, width: nat)
    requires c.q > 0
  {
    && |ciphertexts| == |ciphertexts'| == |chains| && AllWide(ciphertexts, width)
    && (forall k | 0 <= k < |chains| :: ReEncryptedBy(c, ciphertexts[k], ciphertexts'[k], chains[k], pk))
  }

  ghost predicate ReEncryptedBy<E(!new)>(c: Context<E>, ct: Ciphertext<E>, ct': Ciphertext<E>, rs: seq<seq<int>>, pk: E)
    requires c.q > 0
  {
    && |ct.u| == |ct.v|
    && (forall i | 0 <= i < |rs| :: |rs[i]| == |ct.u|)
    && ct' == ReEncryptAll(c, ct, rs, pk)
  }

  /** No chains of re-encryptions change what a list of ciphertexts, honest or not, decrypts to. */
  lemma CentralDecryptionsKept<E(!new)>(c: Context<E>, ciphertexts: seq<Ciphertext<E>>,
                                        ciphertexts': seq<Ciphertext<E>>,
                                        chains: seq<seq<seq<int>>>, sk: int, width: nat)
    requires c.Valid() && ReEncrypted(c, ciphertexts, ciphertexts', chains, c.Exp(c.generator, sk), width)
    ensures AllWide(ciphertexts', width)
    ensures CentralDecryptions(c, ciphertexts', sk, width) == CentralDecryptions(c, ciphertexts, sk, width)
  {
    hide Rem, Decrypt, ReEncryptAll;
    forall k | 0 <= k < |ciphertexts|
      ensures WellFormed(ciphertexts'[k], width)
      ensures Decrypt(c, ciphertexts'[k].u, ciphertexts'[k].v, sk) == Decrypt(c, ciphertexts[k].u, ciphertexts[k].v, sk)
    {
      assert ReEncryptedBy(c, ciphertexts[k], ciphertexts'[k], chains[k], c.Exp(c.generator, sk));
      ReEncryptionKeepsPlaintext(c, sk, ciphertexts[k], chains[k]);
    }
  }

  /** Nor do they change what recipients decrypt together: any recipients that may decrypt, before
    * or after, and with any random scalars, return the same plaintexts. */
  lemma ThresholdDecryptionKept<E(!new)>(c: Context<E>, ciphertexts: seq<Ciphertext<E>>,
                                         ciphertexts': seq<Ciphertext<E>>, chains: seq<seq<seq<int>>>,
                                         keys: seq<RecipientKey<E>>, dfactors: seq<seq<DecryptionFactor<E>>>,
                                         keys': seq<RecipientKey<E>>, dfactors': seq<seq<DecryptionFactor<E>>>,
                                         f: Polynomial, proofContext: ByteString, width: nat)
    requires c.Valid() && ciphertexts != []
    requires ReEncrypted(c, ciphertexts, ciphertexts', chains, c.Exp(c.generator, Value(f, 0)), width)
    requires KeysOf(c, keys, f) && FactorsOf(c, ciphertexts, keys, dfactors, proofContext)
    requires KeysOf(c, keys', f) && FactorsOf(c, ciphertexts', keys', dfactors', proofContext)
    requires Distinct(Positions(keys)) && |f| <= |keys| && Distinct(Positions(keys')) && |f| <= |keys'|
    ensures Typed(c, ciphertexts, dfactors, VerificationKeys(keys), width)
    ensures Typed(c, ciphertexts', dfactors', VerificationKeys(keys'), width)
    ensures Combined(c, ciphertexts', dfactors', VerificationKeys(keys'), proofContext, width)
         == Combined(c, ciphertexts, dfactors, VerificationKeys(keys), proofContext, width)
         == Ok(CentralDecryptions(c, ciphertexts, Value(f, 0), width))
  {
    hide Rem, Combined, CentralDecryptions, KeysOf, FactorsOf, ReEncryptedBy, Typed, Distinct, Value;
    CentralDecryptionsKept(c, ciphertexts, ciphertexts', chains, Value(f, 0), width);
    ThresholdRefinesCentral(c, ciphertexts, keys, dfactors, f, proofContext, width);
    ThresholdRefinesCentral(c, ciphertexts', keys', dfactors', f, proofContext, width);
  }
}
