/** When a proof of well-formedness verifies, and what the prover answers, in terms of the scalar
  * that the hash function returns and of logarithms. */
module PleqEquations {
  import opened Bytes
  import opened Dlogeq
  import opened Groups
  import opened Modular
  import opened Pleq
  import opened PleqChallengeBytes
  import opened Results

  /** The responses answer the challenge v, for both parts of the ciphertext. */
  ghost predicate RowsAnswer<E(!new)>(c: Context<E>, s: Statement<E>, v: int, k: seq<int>)
    requires c.Valid() && |s.bigA.0| == |s.bigA.1| == |s.uA| == |s.uB| == |k|
  {
    forall i | 0 <= i < |k| ::
      && Same(c.q, c.Log(s.uB[i]) * v + c.Log(s.bigA.0[i]), k[i])
      && Same(c.q, c.Log(s.uA[i]) * v + c.Log(s.bigA.1[i]), c.Log(s.z) * k[i])
  }

  /** One row of verification equations. */
  lemma RowExactly<E(!new)>(c: Context<E>, z: E, u: seq<E>, bigA: seq<E>, v: int, k: seq<int>)
    requires c.Valid() && |u| == |bigA| == |k|
    ensures c.Mul(c.DistExp(u, v), bigA) == c.ReplExp(z, k)
       <==> forall i | 0 <= i < |k| :: Same(c.q, c.Log(u[i]) * v + c.Log(bigA[i]), c.Log(z) * k[i])
  {
    hide Rem;
    var left, right := c.Mul(c.DistExp(u, v), bigA), c.ReplExp(z, k);
    forall i | 0 <= i < |k|
      ensures left[i] == right[i] <==> Same(c.q, c.Log(u[i]) * v + c.Log(bigA[i]), c.Log(z) * k[i])
    {
      EquationLog(c, z, u[i], bigA[i], v, k[i]);
    }
    assert left == right <==> forall i | 0 <= i < |k| :: left[i] == right[i];
  }

  lemma CheckPlEqExactly<E(!new)>(c: Context<E>, proof: PlEqProof<E>, y: E, z: E, uB: seq<E>, vB: seq<E>, uA: seq<E>,
                                  proofContext: ByteString, v: int)
    requires c.Valid() && |uB| == |uA| && Sized(proof, |uB|)
    ensures CheckPlEq(c, proof, z, uB, uA, v)
       <==> RowsAnswer(c, Statement(y, z, uB, vB, uA, proof.bigA, proofContext), v, proof.k)
  {
    hide Rem;
    LogGenerator(c);
    RowExactly(c, c.generator, uB, proof.bigA.0, v, proof.k);
    RowExactly(c, z, uA, proof.bigA.1, v, proof.k);
  }

  /** The only failure is that the hash has no scalar; otherwise the proof is accepted exactly when
    * its responses answer that scalar. */
  lemma VerifyPlEqExactly<E(!new)>(c: Context<E>, proof: PlEqProof<E>, y: E, z: E, uB: seq<E>, vB: seq<E>, uA: seq<E>,
                                   proofContext: ByteString)
    requires c.Valid() && |uB| == |uA| && Sized(proof, |uB|)
    ensures var s := Statement(y, z, uB, vB, uA, proof.bigA, proofContext);
            VerifyPlEq(c, proof, y, z, uB, vB, uA, proofContext)
            == match c.digestToScalar(StatementStream(c, s))
               case None => Err(HashToElementError)
               case Some(v) => Ok(RowsAnswer(c, s, v, proof.k))
  {
    hide Rem, CheckPlEq, RowsAnswer, PlEqInput;
    var s := Statement(y, z, uB, vB, uA, proof.bigA, proofContext);
    if c.digestToScalar(StatementStream(c, s)).Some? {
      CheckPlEqExactly(c, proof, y, z, uB, vB, uA, proofContext, c.digestToScalar(StatementStream(c, s)).value);
    }
  }

  /** The prover commits to its random scalars times the randomness, under both bases, and answers
    * the scalar of the hash; it fails only when there is none. */
  lemma ProvePlEqExactly<E(!new)>(c: Context<E>, y: E, z: E, uB: seq<E>, vB: seq<E>, uA: seq<E>, r: seq<int>,
                                  proofContext: ByteString, aPrime: seq<int>)
    requires c.Valid() && |aPrime| == |r|
    ensures var s := Statement(y, z, uB, vB, uA, Commitments(c, z, r, aPrime), proofContext);
            match c.digestToScalar(StatementStream(c, s))
            case None => ProvePlEq(c, y, z, uB, vB, uA, r, proofContext, aPrime) == Err(HashToElementError)
            case Some(v) =>
              && ProvePlEq(c, y, z, uB, vB, uA, r, proofContext, aPrime).Ok?
              && var proof := ProvePlEq(c, y, z, uB, vB, uA, r, proofContext, aPrime).value;
                 && proof.bigA == s.bigA
                 && (forall i | 0 <= i < |r| ::
                       0 <= proof.k[i] < c.q && Same(c.q, proof.k[i], aPrime[i] * r[i] + v * r[i]))
    ensures forall i | 0 <= i < |r| ::
              && Same(c.q, c.Log(Commitments(c, z, r, aPrime).0[i]), aPrime[i] * r[i])
              && Same(c.q, c.Log(Commitments(c, z, r, aPrime).1[i]), c.Log(z) * (aPrime[i] * r[i]))
  {
    hide Rem, PlEqInput;
    var s := Statement(y, z, uB, vB, uA, Commitments(c, z, r, aPrime), proofContext);
    forall i | 0 <= i < |r|
      ensures Same(c.q, c.Log(s.bigA.0[i]), aPrime[i] * r[i])
      ensures Same(c.q, c.Log(s.bigA.1[i]), c.Log(z) * (aPrime[i] * r[i]))
    {
      BlindedLogs(c, z, aPrime[i] * r[i]);
    }
    if c.digestToScalar(StatementStream(c, s)).Some? {
      var v := c.digestToScalar(StatementStream(c, s)).value;
      var proof := ProvePlEq(c, y, z, uB, vB, uA, r, proofContext, aPrime).value;
      forall i | 0 <= i < |r| ensures Same(c.q, proof.k[i], aPrime[i] * r[i] + v * r[i]) {
        ResponseValue(c.q, Rem(c.q, aPrime[i] * r[i]), v, r[i]);
        SameRem(c.q, aPrime[i] * r[i]);
        SameAdd(c.q, Rem(c.q, aPrime[i] * r[i]), aPrime[i] * r[i], v * r[i], v * r[i]);
      }
    }
  }

  lemma BlindedLogs<E(!new)>(c: Context<E>, z: E, a: int)
    requires c.Valid()
    ensures Same(c.q, c.Log(c.Exp(c.generator, Rem(c.q, a))), a)
    ensures Same(c.q, c.Log(c.Exp(z, Rem(c.q, a))), c.Log(z) * a)
  {
    hide Rem;
    var b := Rem(c.q, a);
    SameRem(c.q, a);
    LogOfPower(c, b);
    SameRem(c.q, b);
    LogExp(c, z, b);
    SameRem(c.q, c.Log(z) * b);
    SameMul(c.q, c.Log(z), c.Log(z), b, a);
  }

  /** An accepted proof for a ciphertext whose parts share no randomness has met the one challenge
    * that its commitments allow. */
  lemma FalseCiphertextIsLuck<E(!new)>(c: Context<E>, proof: PlEqProof<E>, y: E, z: E, uB: seq<E>, vB: seq<E>,
                                       uA: seq<E>, proofContext: ByteString, v': int, k': seq<int>)
    requires c.Valid() && |uB| == |uA| == |k'| && Sized(proof, |uB|)
    requires forall r: seq<int> | |r| == |uB| :: uB != c.ReplExp(c.generator, r) || uA != c.ReplExp(z, r)
    requires VerifyPlEq(c, proof, y, z, uB, vB, uA, proofContext) == Ok(true)
    requires CheckPlEq(c, proof.(k := k'), z, uB, uA, v')
    ensures var hashed := c.digestToScalar(StatementStream(c, Statement(y, z, uB, vB, uA, proof.bigA, proofContext)));
            hashed.Some? && Same(c.q, hashed.value, v')
  {
    hide Rem, CheckPlEq, RowsAnswer, StatementStream, VerifyPlEq;
    VerifyPlEqExactly(c, proof, y, z, uB, vB, uA, proofContext);
    var v := c.digestToScalar(StatementStream(c, Statement(y, z, uB, vB, uA, proof.bigA, proofContext))).value;
    CheckPlEqExactly(c, proof, y, z, uB, vB, uA, proofContext, v);
    PlEqFalseStatementOneChallenge(c, proof, k', z, uB, uA, v, v');
  }
}
