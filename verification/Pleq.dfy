/** Proofs that both parts of a Naor-Yung ciphertext use the same randomness. */
module Pleq {
  import opened Bytes
  import opened Dlogeq
  import opened Groups
  import opened Modular
  import opened Results

  import ArraySerialization

  const PLEQ_TAGS: seq<ByteString> := [
    [0x67],
    [0x79],
    [0x7a],
    [0x75, 0x5f, 0x62],
    [0x76, 0x5f, 0x62],
    [0x75, 0x5f, 0x61],
    [0x62, 0x69, 0x67, 0x5f, 0x61],
    [0x70, 0x6c, 0x65, 0x71, 0x5f, 0x63, 0x6f, 0x6e, 0x74, 0x65, 0x78, 0x74]
  ]

  /** The commitments under g and under z, and the responses. */
  datatype PlEqProof<E> = PlEqProof(bigA: (seq<E>, seq<E>), k: seq<int>)

  predicate Sized<E>(proof: PlEqProof<E>, width: nat) {
    |proof.bigA.0| == |proof.bigA.1| == |proof.k| == width
  }

  /** Both rows, each behind its length. */
  function SerializeRows<E(==,!new)>(c: Context<E>, rows: (seq<E>, seq<E>)): ByteString {
    ArraySerialization.SerializeArray([SerializeElements(c, rows.0), SerializeElements(c, rows.1)])
  }

  function PlEqInput<E(==,!new)>(c: Context<E>, y: E, z: E, uB: seq<E>, vB: seq<E>, uA: seq<E>,
                                 bigA: (seq<E>, seq<E>), proofContext: ByteString): seq<ByteString>
  {
    [c.ser(c.generator), c.ser(y), c.ser(z), SerializeElements(c, uB), SerializeElements(c, vB),
     SerializeElements(c, uA), SerializeRows(c, bigA), proofContext]
  }

  function PlEqChallenge<E(==,!new)>(c: Context<E>, y: E, z: E, uB: seq<E>, vB: seq<E>, uA: seq<E>,
                                     bigA: (seq<E>, seq<E>), proofContext: ByteString): Result<nat>
  {
    match c.HashToScalar(PlEqInput(c, y, z, uB, vB, uA, bigA, proofContext), PLEQ_TAGS)
    case Some(v) => Ok(v)
    case None => Err(HashToElementError)
  }

  /** The prover's commitments, from random scalars multiplied with the randomness to be proved. */
  function Commitments<E(==,!new)>(c: Context<E>, z: E, r: seq<int>, aPrime: seq<int>): (bigA: (seq<E>, seq<E>))
    requires c.q > 0 && |aPrime| == |r|
    ensures |bigA.0| == |bigA.1| == |r|
  {
    var a := Blinded(c.q, r, aPrime);
    (c.ReplExp(c.generator, a), c.ReplExp(z, a))
  }

  function Blinded(q: nat, r: seq<int>, aPrime: seq<int>): (a: seq<int>)
    requires q > 0 && |aPrime| == |r|
    ensures |a| == |r|
  {
    seq(|r|, i requires 0 <= i < |r| => Rem(q, aPrime[i] * r[i]))
  }

  /** The prover, with aPrime as its random scalars. */
  function ProvePlEq<E(==,!new)>(c: Context<E>, y: E, z: E, uB: seq<E>, vB: seq<E>, uA: seq<E>, r: seq<int>,
                                 proofContext: ByteString, aPrime: seq<int>): (result: Result<PlEqProof<E>>)
    requires c.q > 0 && |aPrime| == |r|
    ensures result.Ok? ==> Sized(result.value, |r|)
  {
    var a, bigA := Blinded(c.q, r, aPrime), Commitments(c, z, r, aPrime);
    var v :- PlEqChallenge(c, y, z, uB, vB, uA, bigA, proofContext);
    Ok(PlEqProof(bigA, seq(|r|, i requires 0 <= i < |r| => Rem(c.q, a[i] + Rem(c.q, v * r[i])))))
  }

  /** The verification equations, for a given challenge. */
  predicate CheckPlEq<E(==,!new)>(c: Context<E>, proof: PlEqProof<E>, z: E, uB: seq<E>, uA: seq<E>, v: int)
    requires c.q > 0 && |uB| == |uA| && Sized(proof, |uB|)
  {
    && c.Mul(c.DistExp(uB, v), proof.bigA.0) == c.ReplExp(c.generator, proof.k)
    && c.Mul(c.DistExp(uA, v), proof.bigA.1) == c.ReplExp(z, proof.k)
  }

  function VerifyPlEq<E(==,!new)>(c: Context<E>, proof: PlEqProof<E>, y: E, z: E, uB: seq<E>, vB: seq<E>, uA: seq<E>,
                                  proofContext: ByteString): Result<bool>
    requires c.q > 0 && |uB| == |uA| && Sized(proof, |uB|)
  {
    var v :- PlEqChallenge(c, y, z, uB, vB, uA, proof.bigA, proofContext);
    Ok(CheckPlEq(c, proof, z, uB, uA, v))
  }

  /** An honest proof verifies; the challenge hash is the only possible failure. */
  lemma PlEqCompleteness<E(!new)>(c: Context<E>, y: E, z: E, vB: seq<E>, r: seq<int>, proofContext: ByteString,
                                  aPrime: seq<int>)
    requires c.Valid() && |aPrime| == |r|
    ensures var uB, uA := c.ReplExp(c.generator, r), c.ReplExp(z, r);
            match ProvePlEq(c, y, z, uB, vB, uA, r, proofContext, aPrime)
            case Ok(proof) => VerifyPlEq(c, proof, y, z, uB, vB, uA, proofContext) == Ok(true)
            case Err(error) =>
              && error == HashToElementError
              && c.HashToScalar(PlEqInput(c, y, z, uB, vB, uA, Commitments(c, z, r, aPrime), proofContext), PLEQ_TAGS)
                 == None
  {
    hide Rem, PlEqInput;
    if ProvePlEq(c, y, z, c.ReplExp(c.generator, r), vB, c.ReplExp(z, r), r, proofContext, aPrime).Ok? {
      PlEqProofVerifies(c, y, z, vB, r, proofContext, aPrime);
    }
  }

  lemma PlEqProofVerifies<E(!new)>(c: Context<E>, y: E, z: E, vB: seq<E>, r: seq<int>, proofContext: ByteString,
                                   aPrime: seq<int>)
    requires c.Valid() && |aPrime| == |r|
    requires ProvePlEq(c, y, z, c.ReplExp(c.generator, r), vB, c.ReplExp(z, r), r, proofContext, aPrime).Ok?
    ensures var uB, uA := c.ReplExp(c.generator, r), c.ReplExp(z, r);
            (VerifyPlEq(c, ProvePlEq(c, y, z, uB, vB, uA, r, proofContext, aPrime).value, y, z, uB, vB, uA,
                        proofContext)
             == Ok(true))
  {
    hide Rem, PlEqChallenge;
    var uB, uA := c.ReplExp(c.generator, r), c.ReplExp(z, r);
    var proof := ProvePlEq(c, y, z, uB, vB, uA, r, proofContext, aPrime).value;
    var v := PlEqChallenge(c, y, z, uB, vB, uA, proof.bigA, proofContext).value;
    forall i | 0 <= i < |r|
      ensures c.mul(c.Exp(uB[i], v), proof.bigA.0[i]) == c.Exp(c.generator, proof.k[i])
      ensures c.mul(c.Exp(uA[i], v), proof.bigA.1[i]) == c.Exp(z, proof.k[i])
    {
      var a := Rem(c.q, aPrime[i] * r[i]);
      ResponseValue(c.q, a, v, r[i]);
      CompletenessAt(c, c.generator, uB[i], proof.bigA.0[i], a, v, r[i], proof.k[i]);
      CompletenessAt(c, z, uA[i], proof.bigA.1[i], a, v, r[i], proof.k[i]);
    }
    assert c.Mul(c.DistExp(uB, v), proof.bigA.0) == c.ReplExp(c.generator, proof.k);
    assert c.Mul(c.DistExp(uA, v), proof.bigA.1) == c.ReplExp(z, proof.k);
  }

  /** The randomness revealed by two accepted responses to different challenges. */
  function ExtractRow(q: nat, v: int, k: seq<int>, v': int, k': seq<int>): (r: seq<int>)
    requires IsPrime(q) && !Same(q, v - v', 0) && |k| == |k'|
    ensures |r| == |k|
  {
    seq(|k|, i requires 0 <= i < |k| => Extract(q, v, k[i], v', k'[i]))
  }

  /** Special soundness: two accepted responses to different challenges, for the same commitments,
    * yield randomness that both parts of the ciphertext share. */
  lemma PlEqSpecialSoundness<E(!new)>(c: Context<E>, proof: PlEqProof<E>, k': seq<int>, z: E, uB: seq<E>, uA: seq<E>,
                                      v: int, v': int)
    requires c.Valid() && |uB| == |uA| == |k'| && Sized(proof, |uB|) && !Same(c.q, v - v', 0)
    requires CheckPlEq(c, proof, z, uB, uA, v) && CheckPlEq(c, proof.(k := k'), z, uB, uA, v')
    ensures var r := ExtractRow(c.q, v, proof.k, v', k');
            uB == c.ReplExp(c.generator, r) && uA == c.ReplExp(z, r)
  {
    hide Rem;
    var r := ExtractRow(c.q, v, proof.k, v', k');
    forall i | 0 <= i < |uB| ensures uB[i] == c.Exp(c.generator, r[i]) && uA[i] == c.Exp(z, r[i]) {
      assert c.Mul(c.DistExp(uB, v), proof.bigA.0)[i] == c.ReplExp(c.generator, proof.k)[i];
      assert c.Mul(c.DistExp(uB, v'), proof.bigA.0)[i] == c.ReplExp(c.generator, k')[i];
      ExtractAt(c, c.generator, uB[i], proof.bigA.0[i], v, proof.k[i], v', k'[i]);
      assert c.Mul(c.DistExp(uA, v), proof.bigA.1)[i] == c.ReplExp(z, proof.k)[i];
      assert c.Mul(c.DistExp(uA, v'), proof.bigA.1)[i] == c.ReplExp(z, k')[i];
      ExtractAt(c, z, uA[i], proof.bigA.1[i], v, proof.k[i], v', k'[i]);
    }
  }

  /** For a ciphertext whose parts share no randomness, at most one challenge can be answered once
    * the commitments are fixed. */
  lemma PlEqFalseStatementOneChallenge<E(!new)>(c: Context<E>, proof: PlEqProof<E>, k': seq<int>, z: E, uB: seq<E>,
                                                uA: seq<E>, v: int, v': int)
    requires c.Valid() && |uB| == |uA| == |k'| && Sized(proof, |uB|)
    requires forall r: seq<int> | |r| == |uB| :: uB != c.ReplExp(c.generator, r) || uA != c.ReplExp(z, r)
    requires CheckPlEq(c, proof, z, uB, uA, v) && CheckPlEq(c, proof.(k := k'), z, uB, uA, v')
    ensures Same(c.q, v, v')
  {
    hide Rem, CheckPlEq;
    if Same(c.q, v - v', 0) {
      SameAdd(c.q, v - v', 0, v', v');
    } else {
      PlEqSpecialSoundness(c, proof, k', z, uB, uA, v, v');
      assert false;
    }
  }

  lemma ExtractAt<E(!new)>(c: Context<E>, g: E, y: E, a: E, v: int, k: int, v': int, k': int)
    requires c.Valid() && !Same(c.q, v - v', 0)
    requires c.mul(c.Exp(y, v), a) == c.Exp(g, k) && c.mul(c.Exp(y, v'), a) == c.Exp(g, k')
    ensures y == c.Exp(g, Extract(c.q, v, k, v', k'))
  {
    hide Rem;
    EquationLog(c, g, y, a, v, k);
    EquationLog(c, g, y, a, v', k');
    ExtractedEquation(c.q, c.Log(g), c.Log(y), c.Log(a), v, k, v', k');
    PowerLog(c, g, y, Extract(c.q, v, k, v', k'));
  }
}
