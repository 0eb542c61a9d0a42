/** When a proof of equal discrete logarithms verifies, and what the prover answers, in terms of the
  * scalar that the hash function returns and of logarithms. */
module DlogeqEquations {
  import opened Bytes
  import opened ChallengeBytes
  import opened Dlogeq
  import opened Groups
  import opened Modular
  import opened Results

  /** The response k answers the challenge v, at the first base and at every one of the second. */
  ghost predicate Answers<E(!new)>(c: Context<E>, i: Input<E>, v: int, k: int)
    requires c.Valid() && |i.g1| == |i.y1| == |i.bigA1|
  {
    && Same(c.q, c.Log(i.y0) * v + c.Log(i.bigA0), c.Log(i.g0) * k)
    && (forall j | 0 <= j < |i.g1| :: Same(c.q, c.Log(i.y1[j]) * v + c.Log(i.bigA1[j]), c.Log(i.g1[j]) * k))
  }

  /** What is hashed for a proof, the prover's commitments included. */
  function InputOf<E>(proof: DlogEqProof<E>, g0: E, y0: E, g1: seq<E>, y1: seq<E>, proofContext: ByteString): Input<E> {
    Input(g0, g1, y0, y1, proof.bigA0, proof.bigA1, proofContext)
  }

  /** The verification equations of the second statement. */
  lemma ProductExactly<E(!new)>(c: Context<E>, g1: seq<E>, y1: seq<E>, bigA1: seq<E>, v: int, k: int)
    requires c.Valid() && |g1| == |y1| == |bigA1|
    ensures c.Mul(c.DistExp(y1, v), bigA1) == c.DistExp(g1, k)
       <==> forall j | 0 <= j < |g1| :: Same(c.q, c.Log(y1[j]) * v + c.Log(bigA1[j]), c.Log(g1[j]) * k)
  {
    hide Rem;
    var left, right := c.Mul(c.DistExp(y1, v), bigA1), c.DistExp(g1, k);
    forall j | 0 <= j < |g1|
      ensures left[j] == right[j] <==> Same(c.q, c.Log(y1[j]) * v + c.Log(bigA1[j]), c.Log(g1[j]) * k)
    {
      EquationLog(c, g1[j], y1[j], bigA1[j], v, k);
    }
    assert left == right <==> forall j | 0 <= j < |g1| :: left[j] == right[j];
  }

  lemma CheckExactly<E(!new)>(c: Context<E>, proof: DlogEqProof<E>, g0: E, y0: E, g1: seq<E>, y1: seq<E>,
                              proofContext: ByteString, v: int)
    requires c.Valid() && |g1| == |y1| == |proof.bigA1|
    ensures Check(c, proof, g0, y0, g1, y1, v)
       <==> Answers(c, InputOf(proof, g0, y0, g1, y1, proofContext), v, proof.k)
  {
    hide Rem;
    EquationLog(c, g0, y0, proof.bigA0, v, proof.k);
    ProductExactly(c, g1, y1, proof.bigA1, v, proof.k);
  }

  /** The only failure is that the hash has no scalar; otherwise the proof is accepted exactly when
    * its response answers that scalar. */
  lemma VerifyExactly<E(!new)>(c: Context<E>, proof: DlogEqProof<E>, g0: E, y0: E, g1: seq<E>, y1: seq<E>,
                               proofContext: ByteString)
    requires c.Valid() && |g1| == |y1| == |proof.bigA1|
    ensures var i := InputOf(proof, g0, y0, g1, y1, proofContext);
            Verify(c, proof, g0, y0, g1, y1, proofContext)
            == match c.digestToScalar(InputStream(c, i))
               case None => Err(HashToElementError)
               case Some(v) => Ok(Answers(c, i, v, proof.k))
  {
    hide Rem, Check, Answers, ChallengeInput;
    var i := InputOf(proof, g0, y0, g1, y1, proofContext);
    if c.digestToScalar(InputStream(c, i)).Some? {
      CheckExactly(c, proof, g0, y0, g1, y1, proofContext, c.digestToScalar(InputStream(c, i)).value);
    }
  }

  /** The prover commits to its random scalar under every base, and answers the scalar of the hash;
    * it fails only when there is none. */
  lemma ProveExactly<E(!new)>(c: Context<E>, x: int, g0: E, y0: E, g1: seq<E>, y1: seq<E>, proofContext: ByteString,
                              a: int)
    requires c.Valid() && |g1| == |y1|
    ensures var i := Input(g0, g1, y0, y1, c.Exp(g0, a), c.DistExp(g1, a), proofContext);
            match c.digestToScalar(InputStream(c, i))
            case None => Prove(c, x, g0, y0, g1, y1, proofContext, a) == Err(HashToElementError)
            case Some(v) =>
              && Prove(c, x, g0, y0, g1, y1, proofContext, a).Ok?
              && var proof := Prove(c, x, g0, y0, g1, y1, proofContext, a).value;
                 && proof.bigA0 == i.bigA0 && proof.bigA1 == i.bigA1
                 && 0 <= proof.k < c.q && Same(c.q, proof.k, a + v * x)
  {
    hide Rem, ChallengeInput;
    var i := Input(g0, g1, y0, y1, c.Exp(g0, a), c.DistExp(g1, a), proofContext);
    if c.digestToScalar(InputStream(c, i)).Some? {
      ResponseValue(c.q, a, c.digestToScalar(InputStream(c, i)).value, x);
    }
  }
}
