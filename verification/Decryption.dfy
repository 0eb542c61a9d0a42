/** Distributed decryption: partial decryptions and how they are combined. */
module Decryption {
  import opened Bytes
  import opened Dlogeq
  import opened Elgamal
  import opened Groups
  import opened Lagrange
  import opened Modular
  import opened Results

  /** What a recipient keeps from key generation. */
  datatype RecipientKey<E> = RecipientKey(position: Position, verificationKey: E, sk: int)

  /** One recipient's partial decryption of one ciphertext, with its proof. */
  datatype DecryptionFactor<E> = DecryptionFactor(value: seq<E>, proof: DlogEqProof<E>, source: Position)

  /** The partial decryptions of a list of ciphertexts, with one random scalar for each proof. */
  function DecryptionFactors<E(==,!new)>(c: Context<E>, key: RecipientKey<E>, ciphertexts: seq<Ciphertext<E>>,
                                         proofContext: ByteString, nonces: seq<int>)
    : (r: Result<seq<DecryptionFactor<E>>>)
    requires c.q > 0 && |nonces| == |ciphertexts|
    ensures r.Ok? ==> |r.value| == |ciphertexts|
  {
    if ciphertexts == [] then
      Ok([])
    else
      var n := |ciphertexts| - 1;
      var rest :- DecryptionFactors(c, key, ciphertexts[..n], proofContext, nonces[..n]);
      var u := ciphertexts[n].u;
      var value := c.DistExp(u, key.sk);
      var proof :- Prove(c, key.sk, c.generator, key.verificationKey, u, value, proofContext, nonces[n]);
      Ok(rest + [DecryptionFactor(value, proof, key.position)])
  }

  // The sizes that the types of the original fix

  predicate AllWide<E>(ciphertexts: seq<Ciphertext<E>>, width: nat) {
    forall k | 0 <= k < |ciphertexts| :: WellFormed(ciphertexts[k], width)
  }

  predicate FactorsWide<E>(factors: seq<DecryptionFactor<E>>, width: nat) {
    forall k | 0 <= k < |factors| :: |factors[k].value| == |factors[k].proof.bigA1| == width
  }

  predicate RowsWide<E>(rows: seq<seq<E>>, width: nat) {
    forall k | 0 <= k < |rows| :: |rows[k]| == width
  }

  ghost predicate Typed<E(!new)>(c: Context<E>, ciphertexts: seq<Ciphertext<E>>,
                                 dfactors: seq<seq<DecryptionFactor<E>>>,
                                 verificationKeys: seq<E>, width: nat)
  {
    && IsPrime(c.q)
    && AllWide(ciphertexts, width)
    && |dfactors| == |verificationKeys|
    && (forall i | 0 <= i < |dfactors| ::
          dfactors[i] != [] && FactorsWide(dfactors[i], width) && 0 <= dfactors[i][0].source < c.q)
  }

  function Sources<E>(dfactors: seq<seq<DecryptionFactor<E>>>): (ps: seq<Position>)
    requires forall i | 0 <= i < |dfactors| :: dfactors[i] != []
    ensures |ps| == |dfactors|
    ensures forall i | 0 <= i < |dfactors| :: ps[i] == dfactors[i][0].source
  {
    seq(|dfactors|, i requires 0 <= i < |dfactors| => dfactors[i][0].source)
  }

  /** Multiply one trustee's factors, raised to its coefficient, into the accumulated divisors.
    * The lists are paired up to the shortest one, and the first proof that fails is an error. */
  function NextDivisors<E(==,!new)>(c: Context<E>, divisors: seq<seq<E>>, factors: seq<DecryptionFactor<E>>,
                                    ciphertexts: seq<Ciphertext<E>>, verificationKey: E, lagrange: int,
                                    proofContext: ByteString, width: nat)
    : (r: Result<seq<seq<E>>>)
    requires c.q > 0 && RowsWide(divisors, width) && FactorsWide(factors, width) && AllWide(ciphertexts, width)
    ensures r.Ok? ==> RowsWide(r.value, width) && |r.value| <= |ciphertexts|
    decreases |divisors|
  {
    if divisors == [] || factors == [] || ciphertexts == [] then
      Ok([])
    else
      var proofOk :- Verify(c, factors[0].proof, c.generator, verificationKey, ciphertexts[0].u, factors[0].value,
                            proofContext);
      if !proofOk then
        Err(DecryptProofFailed)
      else
        var row := c.Mul(c.DistExp(factors[0].value, lagrange), divisors[0]);
        var rest :- NextDivisors(c, divisors[1..], factors[1..], ciphertexts[1..], verificationKey, lagrange,
                                 proofContext, width);
        Ok([row] + rest)
  }

  /** The divisors after the given trustees, of those present. */
  function Divisors<E(==,!new)>(c: Context<E>, ciphertexts: seq<Ciphertext<E>>, dfactors: seq<seq<DecryptionFactor<E>>>,
                                verificationKeys: seq<E>, present: seq<Position>, proofContext: ByteString, width: nat)
    : (r: Result<seq<seq<E>>>)
    requires Typed(c, ciphertexts, dfactors, verificationKeys, width) && InRange(c.q, present)
    ensures r.Ok? ==> RowsWide(r.value, width) && |r.value| <= |ciphertexts|
    decreases |dfactors|
  {
    if dfactors == [] then
      Ok(seq(|ciphertexts|, _ => c.One(width)))
    else
      var n := |dfactors| - 1;
      var previous :- Divisors(c, ciphertexts, dfactors[..n], verificationKeys[..n], present, proofContext, width);
      NextDivisors(c, previous, dfactors[n], ciphertexts, verificationKeys[n],
                   Coefficient(c.q, dfactors[n][0].source, present), proofContext, width)
  }

  function Plaintexts<E(==,!new)>(c: Context<E>, ciphertexts: seq<Ciphertext<E>>, divisors: seq<seq<E>>, width: nat)
    : (ms: seq<seq<E>>)
    requires AllWide(ciphertexts, width) && RowsWide(divisors, width) && |divisors| <= |ciphertexts|
    ensures |ms| == |divisors|
  {
    seq(|divisors|, k requires 0 <= k < |divisors| => c.Mul(ciphertexts[k].v, c.Inv(divisors[k])))
  }

  function Combined<E(==,!new)>(c: Context<E>, ciphertexts: seq<Ciphertext<E>>, dfactors: seq<seq<DecryptionFactor<E>>>,
                                verificationKeys: seq<E>, proofContext: ByteString, width: nat): Result<seq<seq<E>>>
    requires Typed(c, ciphertexts, dfactors, verificationKeys, width)
  {
    var divisors :- Divisors(c, ciphertexts, dfactors, verificationKeys, Sources(dfactors), proofContext, width);
    Ok(Plaintexts(c, ciphertexts, divisors, width))
  }

  /** Combine the factors of all trustees into the plaintexts. */
  method Combine<E(==,!new)>(c: Context<E>, ciphertexts: seq<Ciphertext<E>>, dfactors: seq<seq<DecryptionFactor<E>>>,
                             verificationKeys: seq<E>, proofContext: ByteString, width: nat)
    returns (r: Result<seq<seq<E>>>)
    requires Typed(c, ciphertexts, dfactors, verificationKeys, width)
    ensures r == Combined(c, ciphertexts, dfactors, verificationKeys, proofContext, width)
  {
    hide Rem, NextDivisors;
    var present := Sources(dfactors);
    var divisors := seq(|ciphertexts|, _ => c.One(width));
    for i := 0 to |dfactors|
      invariant RowsWide(divisors, width) && |divisors| <= |ciphertexts|
      invariant Divisors(c, ciphertexts, dfactors[..i], verificationKeys[..i], present, proofContext, width)
           == Ok(divisors)
    {
      var lagrange := Lagrange.Lagrange(c.q, dfactors[i][0].source, present);
      DivisorsStep(c, ciphertexts, dfactors, verificationKeys, present, proofContext, width, i, divisors);
      var next := NextDivisors(c, divisors, dfactors[i], ciphertexts, verificationKeys[i], lagrange, proofContext,
                               width);
      if next.Err? {
        DivisorsError(c, ciphertexts, dfactors, verificationKeys, present, proofContext, width, i + 1, next.error);
        return Err(next.error);
      }
      divisors := next.value;
    }
    assert dfactors[..|dfactors|] == dfactors && verificationKeys[..|dfactors|] == verificationKeys;
    r := Ok(Plaintexts(c, ciphertexts, divisors, width));
  }

  lemma DivisorsStep<E(!new)>(c: Context<E>, ciphertexts: seq<Ciphertext<E>>, dfactors: seq<seq<DecryptionFactor<E>>>,
                              verificationKeys: seq<E>, present: seq<Position>, proofContext: ByteString, width: nat,
                              i: nat, divisors: seq<seq<E>>)
    requires Typed(c, ciphertexts, dfactors, verificationKeys, width) && InRange(c.q, present) && i < |dfactors|
    requires RowsWide(divisors, width)
    requires Divisors(c, ciphertexts, dfactors[..i], verificationKeys[..i], present, proofContext, width)
         == Ok(divisors)
    ensures Divisors(c, ciphertexts, dfactors[..i + 1], verificationKeys[..i + 1], present, proofContext, width)
         == NextDivisors(c, divisors, dfactors[i], ciphertexts, verificationKeys[i],
                         Coefficient(c.q, dfactors[i][0].source, present), proofContext, width)
  {
    hide Rem, NextDivisors, Coefficient;
    assert dfactors[..i + 1][..i] == dfactors[..i] && verificationKeys[..i + 1][..i] == verificationKeys[..i];
  }

  /** An error at one trustee is the error of all. */
  lemma {:induction false} DivisorsError<E(!new)>(c: Context<E>, ciphertexts: seq<Ciphertext<E>>,
                                                  dfactors: seq<seq<DecryptionFactor<E>>>, verificationKeys: seq<E>,
                                                  present: seq<Position>, proofContext: ByteString, width: nat,
                                                  i: nat, error: Error)
    requires Typed(c, ciphertexts, dfactors, verificationKeys, width) && InRange(c.q, present) && i <= |dfactors|
    requires Divisors(c, ciphertexts, dfactors[..i], verificationKeys[..i], present, proofContext, width) == Err(error)
    ensures Divisors(c, ciphertexts, dfactors, verificationKeys, present, proofContext, width) == Err(error)
    decreases |dfactors|
  {
    hide Rem, NextDivisors, Coefficient;
    var n := |dfactors|;
    if i == n {
      assert dfactors[..i] == dfactors && verificationKeys[..i] == verificationKeys;
    } else {
      assert dfactors[..n - 1][..i] == dfactors[..i] && verificationKeys[..n - 1][..i] == verificationKeys[..i];
      DivisorsError(c, ciphertexts, dfactors[..n - 1], verificationKeys[..n - 1], present, proofContext, width, i,
                    error);
    }
  }
}
