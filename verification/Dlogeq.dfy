/** Proofs that two discrete logarithms are equal, the second over a product of groups. */
module Dlogeq {
  import opened Bytes
  import opened Groups
  import opened Modular
  import opened Results

  import ArraySerialization

  const DS_TAGS: seq<ByteString> := [
    [0x67, 0x30],
    [0x67, 0x31],
    [0x79, 0x30],
    [0x79, 0x31],
    [0x62, 0x69, 0x67, 0x5f, 0x61, 0x5f, 0x30],
    [0x62, 0x69, 0x67, 0x5f, 0x61, 0x5f, 0x31],
    [0x64, 0x6c, 0x6f, 0x67, 0x65, 0x71, 0x5f, 0x70, 0x72, 0x6f, 0x6f, 0x66, 0x5f,
     0x63, 0x6f, 0x6e, 0x74, 0x65, 0x78, 0x74]
  ]

  /** The commitments and the response. */
  datatype DlogEqProof<E> = DlogEqProof(bigA0: E, bigA1: seq<E>, k: int)

  /** What is proved: y0 and every y1[i] are the x-th powers of g0 and g1[i]. */
  ghost predicate SamePower<E(!new)>(c: Context<E>, g0: E, y0: E, g1: seq<E>, y1: seq<E>, x: int)
    requires c.q > 0
  {
    y0 == c.Exp(g0, x) && y1 == c.DistExp(g1, x)
  }

  function Serialized<E(==,!new)>(c: Context<E>, xs: seq<E>): (elements: seq<ByteString>)
    ensures |elements| == |xs|
  {
    seq(|xs|, i requires 0 <= i < |xs| => c.ser(xs[i]))
  }

  /** An array is written element by element, each behind its length. */
  function SerializeElements<E(==,!new)>(c: Context<E>, xs: seq<E>): ByteString {
    ArraySerialization.SerializeArray(Serialized(c, xs))
  }

  function ChallengeInput<E(==,!new)>(c: Context<E>, g0: E, g1: seq<E>, y0: E, y1: seq<E>, bigA0: E, bigA1: seq<E>,
                                      proofContext: ByteString): seq<ByteString>
  {
    [c.ser(g0), SerializeElements(c, g1), c.ser(y0), SerializeElements(c, y1),
     c.ser(bigA0), SerializeElements(c, bigA1), proofContext]
  }

  function Challenge<E(==,!new)>(c: Context<E>, g0: E, g1: seq<E>, y0: E, y1: seq<E>, bigA0: E, bigA1: seq<E>,
                                 proofContext: ByteString): Result<nat>
  {
    match c.HashToScalar(ChallengeInput(c, g0, g1, y0, y1, bigA0, bigA1, proofContext), DS_TAGS)
    case Some(v) => Ok(v)
    case None => Err(HashToElementError)
  }

  /** The prover, with a as its random scalar. */
  function Prove<E(==,!new)>(c: Context<E>, secretX: int, g0: E, y0: E, g1: seq<E>, y1: seq<E>,
                             proofContext: ByteString,
                             a: int): (r: Result<DlogEqProof<E>>)
    requires c.q > 0
    ensures r.Ok? ==> |r.value.bigA1| == |g1|
  {
    var bigA0 := c.Exp(g0, a);
    var bigA1 := c.DistExp(g1, a);
    var v :- Challenge(c, g0, g1, y0, y1, bigA0, bigA1, proofContext);
    Ok(DlogEqProof(bigA0, bigA1, Rem(c.q, a + Rem(c.q, v * secretX))))
  }

  /** The verification equations, for a given challenge. */
  predicate Check<E(==,!new)>(c: Context<E>, proof: DlogEqProof<E>, g0: E, y0: E, g1: seq<E>, y1: seq<E>, v: int)
    requires c.q > 0 && |g1| == |y1| == |proof.bigA1|
  {
    && c.mul(c.Exp(y0, v), proof.bigA0) == c.Exp(g0, proof.k)
    && c.Mul(c.DistExp(y1, v), proof.bigA1) == c.DistExp(g1, proof.k)
  }

  function Verify<E(==,!new)>(c: Context<E>, proof: DlogEqProof<E>, g0: E, y0: E, g1: seq<E>, y1: seq<E>,
                              proofContext: ByteString): Result<bool>
    requires c.q > 0 && |g1| == |y1| == |proof.bigA1|
  {
    var v :- Challenge(c, g0, g1, y0, y1, proof.bigA0, proof.bigA1, proofContext);
    Ok(Check(c, proof, g0, y0, g1, y1, v))
  }

  /** One verification equation, in terms of logarithms. */
  lemma EquationLog<E(!new)>(c: Context<E>, g: E, y: E, a: E, v: int, k: int)
    requires c.Valid()
    ensures c.mul(c.Exp(y, v), a) == c.Exp(g, k) <==> Same(c.q, c.Log(y) * v + c.Log(a), c.Log(g) * k)
  {
    hide Rem;
    LogExp(c, y, v);
    LogExp(c, g, k);
    LogMul(c, c.Exp(y, v), a);
    SameRem(c.q, c.Log(y) * v);
    SameRem(c.q, c.Log(g) * k);
    SameAdd(c.q, c.Log(c.Exp(y, v)), c.Log(y) * v, c.Log(a), c.Log(a));
    SameRem(c.q, c.Log(c.Exp(y, v)) + c.Log(a));
    if Same(c.q, c.Log(y) * v + c.Log(a), c.Log(g) * k) {
      LogInjective(c, c.mul(c.Exp(y, v), a), c.Exp(g, k));
    }
  }

  lemma PowerLog<E(!new)>(c: Context<E>, g: E, y: E, x: int)
    requires c.Valid()
    ensures y == c.Exp(g, x) <==> Same(c.q, c.Log(y), c.Log(g) * x)
  {
    hide Rem;
    LogExp(c, g, x);
    SameRem(c.q, c.Log(g) * x);
    if Same(c.q, c.Log(y), c.Log(g) * x) {
      LogInjective(c, y, c.Exp(g, x));
    }
  }

  /** The proof of a true statement satisfies the equations for its challenge. */
  lemma HonestEquation(q: nat, g: int, y: int, la: int, a: int, v: int, x: int, k: int)
    requires q > 0 && Same(q, y, g * x) && Same(q, la, g * a) && Same(q, k, a + v * x)
    ensures Same(q, y * v + la, g * k)
  {
    hide Rem;
    SameMul(q, y, g * x, v, v);
    SameAdd(q, y * v, g * x * v, la, g * a);
    SameMul(q, g, g, k, a + v * x);
    assert g * x * v + g * a == g * (a + v * x);
  }

  /** Every proof of a true statement verifies; the challenge hash is the only possible failure. */
  lemma Completeness<E(!new)>(c: Context<E>, x: int, g0: E, y0: E, g1: seq<E>, y1: seq<E>, proofContext: ByteString,
                              a: int)
    requires c.Valid() && |g1| == |y1|
    requires SamePower(c, g0, y0, g1, y1, x)
    ensures match Prove(c, x, g0, y0, g1, y1, proofContext, a)
            case Ok(proof) => Verify(c, proof, g0, y0, g1, y1, proofContext) == Ok(true)
            case Err(error) =>
              && error == HashToElementError
              && c.HashToScalar(ChallengeInput(c, g0, g1, y0, y1, c.Exp(g0, a), c.DistExp(g1, a), proofContext),
                                DS_TAGS)
                 == None
  {
    hide Rem, ChallengeInput;
    if Prove(c, x, g0, y0, g1, y1, proofContext, a).Ok? {
      ProofVerifies(c, x, g0, y0, g1, y1, proofContext, a);
    }
  }

  lemma ProofVerifies<E(!new)>(c: Context<E>, x: int, g0: E, y0: E, g1: seq<E>, y1: seq<E>, proofContext: ByteString,
                               a: int)
    requires c.Valid() && |g1| == |y1|
    requires SamePower(c, g0, y0, g1, y1, x)
    requires Prove(c, x, g0, y0, g1, y1, proofContext, a).Ok?
    ensures Verify(c, Prove(c, x, g0, y0, g1, y1, proofContext, a).value, g0, y0, g1, y1, proofContext) == Ok(true)
  {
    hide Rem;
    var proof := Prove(c, x, g0, y0, g1, y1, proofContext, a).value;
    var v := Challenge(c, g0, g1, y0, y1, proof.bigA0, proof.bigA1, proofContext).value;
    ResponseValue(c.q, a, v, x);
    CompletenessAt(c, g0, y0, proof.bigA0, a, v, x, proof.k);
    forall i | 0 <= i < |g1|
      ensures c.mul(c.Exp(y1[i], v), proof.bigA1[i]) == c.Exp(g1[i], proof.k)
    {
      assert y1[i] == c.DistExp(g1, x)[i];
      CompletenessAt(c, g1[i], y1[i], proof.bigA1[i], a, v, x, proof.k);
    }
    assert c.Mul(c.DistExp(y1, v), proof.bigA1) == c.DistExp(g1, proof.k);
  }

  lemma ResponseValue(q: nat, a: int, v: int, x: int)
    requires q > 0
    ensures Same(q, Rem(q, a + Rem(q, v * x)), a + v * x)
  {
    hide Rem;
    SameRem(q, v * x);
    SameAdd(q, a, a, Rem(q, v * x), v * x);
    SameRem(q, a + Rem(q, v * x));
  }

  lemma CompletenessAt<E(!new)>(c: Context<E>, g: E, y: E, bigA: E, a: int, v: int, x: int, k: int)
    requires c.Valid()
    requires y == c.Exp(g, x) && bigA == c.Exp(g, a) && Same(c.q, k, a + v * x)
    ensures c.mul(c.Exp(y, v), bigA) == c.Exp(g, k)
  {
    hide Rem;
    PowerLog(c, g, y, x);
    PowerLog(c, g, bigA, a);
    HonestEquation(c.q, c.Log(g), c.Log(y), c.Log(bigA), a, v, x, k);
    EquationLog(c, g, y, bigA, v, k);
  }

  /** The exponent that two accepted responses to different challenges reveal. */
  function Extract(q: nat, v: int, k: int, v': int, k': int): int
    requires IsPrime(q) && !Same(q, v - v', 0)
  {
    (k - k') * Inverse(q, v - v').value
  }

  lemma ExtractedEquation(q: nat, g: int, y: int, a: int, v: int, k: int, v': int, k': int)
    requires IsPrime(q) && !Same(q, v - v', 0)
    requires Same(q, y * v + a, g * k) && Same(q, y * v' + a, g * k')
    ensures Same(q, y, g * Extract(q, v, k, v', k'))
  {
    hide Rem;
    var d, e := v - v', Inverse(q, v - v').value;
    SameAdd(q, y * v + a, g * k, y * v' + a, g * k');
    assert y * v + a - (y * v' + a) == y * d;
    assert g * k - g * k' == g * (k - k');
    SameMul(q, y * d, g * (k - k'), e, e);
    SameMul(q, y, y, d * e, 1);
    assert y * d * e == y * (d * e);
    assert g * (k - k') * e == g * ((k - k') * e);
  }

  /** Special soundness: two accepted responses to different challenges, for the same
    * commitments, yield one exponent for every component. */
  lemma SpecialSoundness<E(!new)>(c: Context<E>, proof: DlogEqProof<E>, k': int, g0: E, y0: E, g1: seq<E>, y1: seq<E>,
                                  v: int, v': int)
    requires c.Valid() && |g1| == |y1| == |proof.bigA1|
    requires !Same(c.q, v - v', 0)
    requires Check(c, proof, g0, y0, g1, y1, v) && Check(c, proof.(k := k'), g0, y0, g1, y1, v')
    ensures SamePower(c, g0, y0, g1, y1, Extract(c.q, v, proof.k, v', k'))
  {
    hide Rem;
    var x := Extract(c.q, v, proof.k, v', k');
    EquationLog(c, g0, y0, proof.bigA0, v, proof.k);
    EquationLog(c, g0, y0, proof.bigA0, v', k');
    ExtractedEquation(c.q, c.Log(g0), c.Log(y0), c.Log(proof.bigA0), v, proof.k, v', k');
    PowerLog(c, g0, y0, x);
    forall i | 0 <= i < |g1| ensures y1[i] == c.Exp(g1[i], x) {
      assert c.Mul(c.DistExp(y1, v), proof.bigA1)[i] == c.DistExp(g1, proof.k)[i];
      assert c.Mul(c.DistExp(y1, v'), proof.bigA1)[i] == c.DistExp(g1, k')[i];
      EquationLog(c, g1[i], y1[i], proof.bigA1[i], v, proof.k);
      EquationLog(c, g1[i], y1[i], proof.bigA1[i], v', k');
      ExtractedEquation(c.q, c.Log(g1[i]), c.Log(y1[i]), c.Log(proof.bigA1[i]), v, proof.k, v', k');
      PowerLog(c, g1[i], y1[i], x);
    }
  }

  /** For a false statement, at most one challenge can be answered once the commitments are fixed. */
  lemma FalseStatementOneChallenge<E(!new)>(c: Context<E>, proof: DlogEqProof<E>, k': int, g0: E, y0: E, g1: seq<E>,
                                            y1: seq<E>, v: int, v': int)
    requires c.Valid() && |g1| == |y1| == |proof.bigA1|
    requires forall x: int :: !SamePower(c, g0, y0, g1, y1, x)
    requires Check(c, proof, g0, y0, g1, y1, v) && Check(c, proof.(k := k'), g0, y0, g1, y1, v')
    ensures Same(c.q, v, v')
  {
    hide Rem;
    if Same(c.q, v - v', 0) {
      SameAdd(c.q, v - v', 0, v', v');
    } else {
      SpecialSoundness(c, proof, k', g0, y0, g1, y1, v, v');
      assert false;
    }
  }

  /** A verified proof cannot be changed into another by changing its response. */
  lemma ResponseUnique<E(!new)>(c: Context<E>, proof: DlogEqProof<E>, k': int, g0: E, y0: E, g1: seq<E>, y1: seq<E>,
                                v: int)
    requires c.Valid() && |g1| == |y1| == |proof.bigA1| && g0 != c.one
    requires Check(c, proof, g0, y0, g1, y1, v) && Check(c, proof.(k := k'), g0, y0, g1, y1, v)
    ensures Same(c.q, proof.k, k')
  {
    hide Rem;
    EquationLog(c, g0, y0, proof.bigA0, v, proof.k);
    EquationLog(c, g0, y0, proof.bigA0, v, k');
    LogOne(c);
    if Same(c.q, c.Log(g0), 0) {
      LogInjective(c, g0, c.one);
    } else {
      Cancel(c.q, c.Log(g0), proof.k, k');
    }
  }
}
