/** The Naor-Yung cryptosystem: ElGamal with a proof of well-formedness. */
module Naoryung {
  import opened Bytes
  import opened Groups
  import opened Modular
  import opened Pleq
  import opened Results

  import Elgamal

  datatype PublicKey<E> = PublicKey(pkB: E, pkA: E)

  datatype KeyPair<E> = KeyPair(skB: int, pkey: PublicKey<E>)

  datatype Ciphertext<E> = Ciphertext(uB: seq<E>, vB: seq<E>, uA: seq<E>, proof: PlEqProof<E>)

  predicate WellFormed<E>(ct: Ciphertext<E>, width: nat) {
    |ct.uB| == |ct.vB| == |ct.uA| == width && Sized(ct.proof, width)
  }

  /** The secret key belongs to the ElGamal part of the public key. */
  ghost predicate Matching<E(!new)>(c: Context<E>, keyPair: KeyPair<E>)
    requires c.q > 0
  {
    keyPair.pkey.pkB == c.Exp(c.generator, keyPair.skB)
  }

  function EncryptWithR<E(==,!new)>(c: Context<E>, pkey: PublicKey<E>, message: seq<E>, r: seq<int>,
                                    proofContext: ByteString, nonces: seq<int>): (result: Result<Ciphertext<E>>)
    requires c.q > 0 && |message| == |r| == |nonces|
    ensures result.Ok? ==> WellFormed(result.value, |r|)
  {
    var uB := c.ReplExp(c.generator, r);
    var vB := c.Mul(message, c.ReplExp(pkey.pkB, r));
    var uA := c.ReplExp(pkey.pkA, r);
    var proof :- ProvePlEq(c, pkey.pkB, pkey.pkA, uB, vB, uA, r, proofContext, nonces);
    Ok(Ciphertext(uB, vB, uA, proof))
  }

  /** Verify the proof and keep the ElGamal part. */
  function Strip<E(==,!new)>(c: Context<E>, pkey: PublicKey<E>, ct: Ciphertext<E>, proofContext: ByteString)
    : (result: Result<Elgamal.Ciphertext<E>>)
    requires c.q > 0 && WellFormed(ct, |ct.uB|)
    ensures result.Ok? ==> Elgamal.WellFormed(result.value, |ct.uB|)
  {
    var proofOk :- VerifyPlEq(c, ct.proof, pkey.pkB, pkey.pkA, ct.uB, ct.vB, ct.uA, proofContext);
    if proofOk then
      Ok(Elgamal.Ciphertext(ct.uB, ct.vB))
    else
      Err(NaorYungStripError)
  }

  function Decrypt<E(==,!new)>(c: Context<E>, keyPair: KeyPair<E>, ct: Ciphertext<E>, proofContext: ByteString)
    : (result: Result<seq<E>>)
    requires c.q > 0 && WellFormed(ct, |ct.uB|)
    ensures result.Ok? ==> |result.value| == |ct.uB|
  {
    var proofOk :- VerifyPlEq(c, ct.proof, keyPair.pkey.pkB, keyPair.pkey.pkA, ct.uB, ct.vB, ct.uA, proofContext);
    if proofOk then
      Ok(Elgamal.Decrypt(c, ct.uB, ct.vB, keyPair.skB))
    else
      Err(NaorYungStripError)
  }

  /** What was encrypted is stripped to the plain encryption with the same randomness. */
  lemma StripEncrypt<E(!new)>(c: Context<E>, pkey: PublicKey<E>, message: seq<E>, r: seq<int>,
                              proofContext: ByteString, nonces: seq<int>)
    requires c.Valid() && |message| == |r| == |nonces|
    requires EncryptWithR(c, pkey, message, r, proofContext, nonces).Ok?
    ensures Strip(c, pkey, EncryptWithR(c, pkey, message, r, proofContext, nonces).value, proofContext)
         == Ok(Elgamal.EncryptWithR(c, pkey.pkB, message, r))
  {
    hide Rem, VerifyPlEq, ProvePlEq;
    var vB := c.Mul(message, c.ReplExp(pkey.pkB, r));
    PlEqCompleteness(c, pkey.pkB, pkey.pkA, vB, r, proofContext, nonces);
  }

  /** What was encrypted decrypts to the message. */
  lemma DecryptEncrypt<E(!new)>(c: Context<E>, keyPair: KeyPair<E>, message: seq<E>, r: seq<int>,
                                proofContext: ByteString, nonces: seq<int>)
    requires c.Valid() && Matching(c, keyPair) && |message| == |r| == |nonces|
    requires EncryptWithR(c, keyPair.pkey, message, r, proofContext, nonces).Ok?
    ensures Decrypt(c, keyPair, EncryptWithR(c, keyPair.pkey, message, r, proofContext, nonces).value, proofContext)
         == Ok(message)
  {
    hide Rem, VerifyPlEq, ProvePlEq;
    var vB := c.Mul(message, c.ReplExp(keyPair.pkey.pkB, r));
    PlEqCompleteness(c, keyPair.pkey.pkB, keyPair.pkey.pkA, vB, r, proofContext, nonces);
    Elgamal.DecryptEncrypt(c, keyPair.skB, message, r);
  }
}
