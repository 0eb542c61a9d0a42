/** Combining factor vectors of any lengths: lists are paired up to the shortest one so far. */
module CombineLengths {
  import opened Bytes
  import opened Decryption
  import opened Dlogeq
  import opened Elgamal
  import opened Groups
  import opened Lagrange
  import opened Modular
  import opened Results
  import opened ThresholdDecryption

  function Shorter(a: nat, b: nat): nat {
    if a <= b then a else b
  }

  /** How many ciphertexts are left when the given trustees are combined. */
  function Left<E>(count: nat, dfactors: seq<seq<DecryptionFactor<E>>>): (n: nat)
    ensures n <= count
    ensures forall i | 0 <= i < |dfactors| :: n <= |dfactors[i]|
    ensures n == count || exists i | 0 <= i < |dfactors| :: n == |dfactors[i]|
  {
    if dfactors == [] then
      count
    else
      assert dfactors == dfactors[..|dfactors| - 1] + [dfactors[|dfactors| - 1]];
      Shorter(Left(count, dfactors[..|dfactors| - 1]), |dfactors[|dfactors| - 1]|)
  }

  lemma {:induction false} LeftDecreases<E>(count: nat, dfactors: seq<seq<DecryptionFactor<E>>>, i: nat)
    requires i <= |dfactors|
    ensures Left(count, dfactors) <= Left(count, dfactors[..i])
    decreases |dfactors|
  {
    if i < |dfactors| {
      LeftDecreases(count, dfactors[..|dfactors| - 1], i);
      assert dfactors[..|dfactors| - 1][..i] == dfactors[..i];
    } else {
      assert dfactors[..i] == dfactors;
    }
  }

  /** The lists of one trustee are paired up to the shortest, and what is behind is not looked at. */
  lemma {:induction false} NextDivisorsPaired<E(!new)>(c: Context<E>, divisors: seq<seq<E>>,
                                                       factors: seq<DecryptionFactor<E>>,
                                                       ciphertexts: seq<Ciphertext<E>>,
                                                       verificationKey: E, lagrange: int, proofContext: ByteString,
                                                       width: nat, n: nat)
    requires c.q > 0 && RowsWide(divisors, width) && FactorsWide(factors, width) && AllWide(ciphertexts, width)
    requires n == Shorter(|divisors|, |factors|) && |divisors| <= |ciphertexts|
    ensures NextDivisors(c, divisors, factors, ciphertexts, verificationKey, lagrange, proofContext, width)
         == NextDivisors(c, divisors[..n], factors[..n], ciphertexts[..n], verificationKey, lagrange, proofContext,
                         width)
    decreases |divisors|
  {
    hide Rem, Verify;
    if divisors != [] && factors != [] {
      NextDivisorsPaired(c, divisors[1..], factors[1..], ciphertexts[1..], verificationKey, lagrange, proofContext,
                         width,
                         n - 1);
      assert divisors[..n][1..] == divisors[1..][..n - 1];
      assert factors[..n][1..] == factors[1..][..n - 1];
      assert ciphertexts[..n][1..] == ciphertexts[1..][..n - 1];
    }
  }

  /** The proofs of trustee i that are looked at are those for the ciphertexts that are left. */
  ghost predicate LeftProofsVerify<E(!new)>(c: Context<E>, ciphertexts: seq<Ciphertext<E>>,
                                            dfactors: seq<seq<DecryptionFactor<E>>>, verificationKeys: seq<E>,
                                            proofContext: ByteString, width: nat, i: nat)
    requires Typed(c, ciphertexts, dfactors, verificationKeys, width) && i < |dfactors|
  {
    var n := Left(|ciphertexts|, dfactors[..i + 1]);
    assert dfactors[..i + 1][i] == dfactors[i];
    ProofsVerify(c, ciphertexts[..n], dfactors[i][..n], verificationKeys[i], proofContext, width)
  }

  ghost predicate AllLeftProofsVerify<E(!new)>(c: Context<E>, ciphertexts: seq<Ciphertext<E>>,
                                               dfactors: seq<seq<DecryptionFactor<E>>>, verificationKeys: seq<E>,
                                               proofContext: ByteString, width: nat)
    requires Typed(c, ciphertexts, dfactors, verificationKeys, width)
  {
    forall i | 0 <= i < |dfactors| ::
      LeftProofsVerify(c, ciphertexts, dfactors, verificationKeys, proofContext, width, i)
  }

  lemma AllLeftProofsVerifyLast<E(!new)>(c: Context<E>, ciphertexts: seq<Ciphertext<E>>,
                                         dfactors: seq<seq<DecryptionFactor<E>>>, verificationKeys: seq<E>,
                                         proofContext: ByteString, width: nat)
    requires Typed(c, ciphertexts, dfactors, verificationKeys, width) && dfactors != []
    ensures var n := |dfactors| - 1;
            AllLeftProofsVerify(c, ciphertexts, dfactors, verificationKeys, proofContext, width)
            <==> && AllLeftProofsVerify(c, ciphertexts, dfactors[..n], verificationKeys[..n], proofContext, width)
                 && LeftProofsVerify(c, ciphertexts, dfactors, verificationKeys, proofContext, width, n)
  {
    hide Rem, ProofsVerify, Left;
    var n := |dfactors| - 1;
    forall i | 0 <= i < n
      ensures LeftProofsVerify(c, ciphertexts, dfactors[..n], verificationKeys[..n], proofContext, width, i)
           == LeftProofsVerify(c, ciphertexts, dfactors, verificationKeys, proofContext, width, i)
    {
      assert dfactors[..n][..i + 1] == dfactors[..i + 1];
    }
  }

  ghost predicate RowsAre<E(!new)>(c: Context<E>, rows: seq<seq<E>>, dfactors: seq<seq<DecryptionFactor<E>>>,
                                   present: seq<Position>, width: nat)
    requires IsPrime(c.q) && InRange(c.q, present)
  {
    forall k | 0 <= k < |rows| :: RowIs(c, rows[k], dfactors, present, k, width)
  }

  ghost predicate RowIs<E(!new)>(c: Context<E>, row: seq<E>, dfactors: seq<seq<DecryptionFactor<E>>>,
                                 present: seq<Position>, k: nat, width: nat)
    requires IsPrime(c.q) && InRange(c.q, present)
  {
    && (forall i | 0 <= i < |dfactors| :: FactorAt(c.q, dfactors[i], k, width))
    && row == DivisorAt(c, dfactors, present, k, width)
  }

  lemma {:induction false} DivisorsLeft<E(!new)>(c: Context<E>, ciphertexts: seq<Ciphertext<E>>,
                                                 dfactors: seq<seq<DecryptionFactor<E>>>, verificationKeys: seq<E>,
                                                 present: seq<Position>, proofContext: ByteString, width: nat)
    requires Typed(c, ciphertexts, dfactors, verificationKeys, width) && InRange(c.q, present)
    ensures Divisors(c, ciphertexts, dfactors, verificationKeys, present, proofContext, width).Ok?
       <==> AllLeftProofsVerify(c, ciphertexts, dfactors, verificationKeys, proofContext, width)
    ensures var r := Divisors(c, ciphertexts, dfactors, verificationKeys, present, proofContext, width);
            r.Ok? ==> |r.value| == Left(|ciphertexts|, dfactors) && RowsAre(c, r.value, dfactors, present, width)
    decreases |dfactors|
  {
    hide Rem, NextDivisors, Coefficient, LeftProofsVerify, RowIs;
    if dfactors == [] {
      DivisorsNone(c, ciphertexts, present, width);
    } else {
      hide AllLeftProofsVerify, RowsAre;
      var n := |dfactors| - 1;
      DivisorsLeft(c, ciphertexts, dfactors[..n], verificationKeys[..n], present, proofContext, width);
      AllLeftProofsVerifyLast(c, ciphertexts, dfactors, verificationKeys, proofContext, width);
      var before := Divisors(c, ciphertexts, dfactors[..n], verificationKeys[..n], present, proofContext, width);
      if before.Ok? {
        DivisorsLeftStep(c, ciphertexts, dfactors, verificationKeys, present, proofContext, width, before.value);
      }
    }
  }

  lemma DivisorsNone<E(!new)>(c: Context<E>, ciphertexts: seq<Ciphertext<E>>, present: seq<Position>, width: nat)
    requires IsPrime(c.q) && InRange(c.q, present)
    ensures RowsAre(c, seq(|ciphertexts|, _ => c.One(width)), [], present, width)
  {
  }

  lemma DivisorsLeftStep<E(!new)>(c: Context<E>, ciphertexts: seq<Ciphertext<E>>,
                                  dfactors: seq<seq<DecryptionFactor<E>>>,
                                  verificationKeys: seq<E>, present: seq<Position>, proofContext: ByteString,
                                  width: nat,
                                  before: seq<seq<E>>)
    requires Typed(c, ciphertexts, dfactors, verificationKeys, width) && InRange(c.q, present) && dfactors != []
    requires RowsWide(before, width) && |before| == Left(|ciphertexts|, dfactors[..|dfactors| - 1])
    requires RowsAre(c, before, dfactors[..|dfactors| - 1], present, width)
    ensures var n := |dfactors| - 1;
            var r := NextDivisors(c, before, dfactors[n], ciphertexts, verificationKeys[n],
                                  Coefficient(c.q, dfactors[n][0].source, present), proofContext, width);
            && (r.Ok? <==> LeftProofsVerify(c, ciphertexts, dfactors, verificationKeys, proofContext, width, n))
            && (r.Ok? ==> |r.value| == Left(|ciphertexts|, dfactors) && RowsAre(c, r.value, dfactors, present, width))
  {
    hide Rem, NextDivisors, Coefficient, ProofsVerify, RowIs;
    var n := |dfactors| - 1;
    var m := Shorter(|before|, |dfactors[n]|);
    var l := Coefficient(c.q, dfactors[n][0].source, present);
    assert dfactors[..n + 1] == dfactors;
    NextDivisorsPaired(c, before, dfactors[n], ciphertexts, verificationKeys[n], l, proofContext, width, m);
    NextDivisorsRows(c, before[..m], dfactors[n][..m], ciphertexts[..m], verificationKeys[n], l, proofContext, width);
    var r := NextDivisors(c, before, dfactors[n], ciphertexts, verificationKeys[n], l, proofContext, width);
    if r.Ok? {
      forall k | 0 <= k < m ensures RowIs(c, r.value[k], dfactors, present, k, width) {
        assert RowIs(c, before[k], dfactors[..n], present, k, width);
        RowStep(c, before[k], dfactors, present, k, width);
      }
    }
  }

  lemma RowStep<E(!new)>(c: Context<E>, row: seq<E>, dfactors: seq<seq<DecryptionFactor<E>>>, present: seq<Position>,
                         k: nat, width: nat)
    requires IsPrime(c.q) && InRange(c.q, present) && dfactors != []
    requires RowIs(c, row, dfactors[..|dfactors| - 1], present, k, width)
    requires FactorAt(c.q, dfactors[|dfactors| - 1], k, width)
    ensures |row| == width
    ensures var last := dfactors[|dfactors| - 1];
            RowIs(c, c.Mul(c.DistExp(last[k].value, Coefficient(c.q, last[0].source, present)), row),
                  dfactors, present, k, width)
  {
    hide Rem, Coefficient;
    forall i | 0 <= i < |dfactors| ensures FactorAt(c.q, dfactors[i], k, width) {
      if i < |dfactors| - 1 {
        assert FactorAt(c.q, dfactors[..|dfactors| - 1][i], k, width);
      }
    }
  }

  /** For factor vectors of any lengths, combining succeeds exactly when the proofs that are
    * looked at verify. It then gives a plaintext for as many ciphertexts as the shortest list
    * has, so for all of them exactly when no trustee's vector is short. */
  lemma CombinedLeft<E(!new)>(c: Context<E>, ciphertexts: seq<Ciphertext<E>>, dfactors: seq<seq<DecryptionFactor<E>>>,
                              verificationKeys: seq<E>, proofContext: ByteString, width: nat)
    requires Typed(c, ciphertexts, dfactors, verificationKeys, width)
    ensures var r := Combined(c, ciphertexts, dfactors, verificationKeys, proofContext, width);
            && (r.Ok? <==> AllLeftProofsVerify(c, ciphertexts, dfactors, verificationKeys, proofContext, width))
            && (r.Ok? ==>
                  && |r.value| == Left(|ciphertexts|, dfactors)
                  && (|r.value| == |ciphertexts| <==> forall i | 0 <= i < |dfactors| :: |ciphertexts| <= |dfactors[i]|)
                  && PlaintextsAre(c, r.value, ciphertexts, dfactors, width))
  {
    hide Rem, Divisors, Coefficient, AllLeftProofsVerify, DivisorAt;
    DivisorsLeft(c, ciphertexts, dfactors, verificationKeys, Sources(dfactors), proofContext, width);
  }

  /** Every plaintext is its ciphertext divided by the weighted product of its factors. */
  ghost predicate PlaintextsAre<E(!new)>(c: Context<E>, ms: seq<seq<E>>, ciphertexts: seq<Ciphertext<E>>,
                                         dfactors: seq<seq<DecryptionFactor<E>>>, width: nat)
    requires IsPrime(c.q) && AllWide(ciphertexts, width) && |ms| <= |ciphertexts|
    requires forall i | 0 <= i < |dfactors| :: dfactors[i] != []
    requires InRange(c.q, Sources(dfactors))
  {
    forall k | 0 <= k < |ms| ::
      && (forall i | 0 <= i < |dfactors| :: FactorAt(c.q, dfactors[i], k, width))
      && ms[k] == c.Mul(ciphertexts[k].v, c.Inv(DivisorAt(c, dfactors, Sources(dfactors), k, width)))
  }
}
