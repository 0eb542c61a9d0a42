/** Which Naor-Yung ciphertexts are refused. */
module CheckedCiphertexts {
  import opened Bytes
  import opened Groups
  import opened Modular
  import opened Naoryung
  import opened PleqChallengeBytes
  import opened PleqEquations
  import opened Results

  import Elgamal
  import Pleq

  /** What the proof of a ciphertext is about. */
  function StatementOf<E>(pkey: PublicKey<E>, ct: Ciphertext<E>, proofContext: ByteString): Statement<E> {
    Statement(pkey.pkB, pkey.pkA, ct.uB, ct.vB, ct.uA, ct.proof.bigA, proofContext)
  }

  /** The scalar that everything in the ciphertext and its context hashes to. */
  function Hashed<E(==,!new)>(c: Context<E>, pkey: PublicKey<E>, ct: Ciphertext<E>,
                              proofContext: ByteString): Option<nat>
  {
    c.digestToScalar(StatementStream(c, StatementOf(pkey, ct, proofContext)))
  }

  /** The responses in the ciphertext answer that scalar. */
  ghost predicate ProofAnswers<E(!new)>(c: Context<E>, pkey: PublicKey<E>, ct: Ciphertext<E>, proofContext: ByteString)
    requires c.Valid() && WellFormed(ct, |ct.uB|) && Hashed(c, pkey, ct, proofContext).Some?
  {
    RowsAnswer(c, StatementOf(pkey, ct, proofContext), Hashed(c, pkey, ct, proofContext).value, ct.proof.k)
  }

  /** Stripping keeps the ElGamal part unchanged when the proof answers the hash, and refuses every
    * other ciphertext. */
  lemma StripExactly<E(!new)>(c: Context<E>, pkey: PublicKey<E>, ct: Ciphertext<E>, proofContext: ByteString)
    requires c.Valid() && WellFormed(ct, |ct.uB|)
    ensures Strip(c, pkey, ct, proofContext)
         == if Hashed(c, pkey, ct, proofContext).None? then Err(HashToElementError)
            else if ProofAnswers(c, pkey, ct, proofContext) then Ok(Elgamal.Ciphertext(ct.uB, ct.vB))
            else Err(NaorYungStripError)
  {
    hide Rem, StatementStream, RowsAnswer, Pleq.VerifyPlEq;
    VerifyPlEqExactly(c, ct.proof, pkey.pkB, pkey.pkA, ct.uB, ct.vB, ct.uA, proofContext);
  }

  /** So does decrypting, whose result is then that of plain ElGamal decryption. */
  lemma DecryptExactly<E(!new)>(c: Context<E>, keyPair: KeyPair<E>, ct: Ciphertext<E>, proofContext: ByteString)
    requires c.Valid() && WellFormed(ct, |ct.uB|)
    ensures Decrypt(c, keyPair, ct, proofContext)
         == if Hashed(c, keyPair.pkey, ct, proofContext).None? then Err(HashToElementError)
            else if ProofAnswers(c, keyPair.pkey, ct, proofContext)
            then Ok(Elgamal.Decrypt(c, ct.uB, ct.vB, keyPair.skB))
            else Err(NaorYungStripError)
  {
    hide Rem, StatementStream, RowsAnswer, Pleq.VerifyPlEq, Elgamal.Decrypt;
    VerifyPlEqExactly(c, ct.proof, keyPair.pkey.pkB, keyPair.pkey.pkA, ct.uB, ct.vB, ct.uA, proofContext);
  }

  /** Encrypting fails only when the hash has no scalar, and otherwise gives these three parts with
    * a proof for the given nonces. */
  lemma EncryptExactly<E(!new)>(c: Context<E>, pkey: PublicKey<E>, message: seq<E>, r: seq<int>,
                                proofContext: ByteString, nonces: seq<int>)
    requires c.Valid() && |message| == |r| == |nonces|
    ensures var plain := Elgamal.EncryptWithR(c, pkey.pkB, message, r);
            var s := Statement(pkey.pkB, pkey.pkA, plain.u, plain.v, c.ReplExp(pkey.pkA, r),
                               Pleq.Commitments(c, pkey.pkA, r, nonces), proofContext);
            match c.digestToScalar(StatementStream(c, s))
            case None => EncryptWithR(c, pkey, message, r, proofContext, nonces) == Err(HashToElementError)
            case Some(v) =>
              && EncryptWithR(c, pkey, message, r, proofContext, nonces).Ok?
              && var ct := EncryptWithR(c, pkey, message, r, proofContext, nonces).value;
                 && ct.uB == plain.u && ct.vB == plain.v && ct.uA == s.uA && ct.proof.bigA == s.bigA
                 && forall i | 0 <= i < |r| :: Same(c.q, ct.proof.k[i], nonces[i] * r[i] + v * r[i])
  {
    hide Rem, StatementStream, Pleq.ProvePlEq, Pleq.Commitments;
    var plain := Elgamal.EncryptWithR(c, pkey.pkB, message, r);
    ProvePlEqExactly(c, pkey.pkB, pkey.pkA, plain.u, plain.v, c.ReplExp(pkey.pkA, r), r, proofContext, nonces);
  }
}
