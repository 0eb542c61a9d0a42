/** Combining any number of participants' factors, without checking their proofs. */
module UntypedCombine {
  import opened CombineLengths
  import opened CombineOrder
  import opened Decryption
  import opened Elgamal
  import opened Groups
  import opened Lagrange
  import opened Modular
  import opened Polynomials
  import opened Results
  import opened ThresholdDecryption
  import opened Bytes

  ghost predicate UntypedFactors<E(!new)>(c: Context<E>, dfactors: seq<seq<DecryptionFactor<E>>>, width: nat) {
    && IsPrime(c.q)
    && (forall i | 0 <= i < |dfactors| ::
          dfactors[i] != [] && FactorsWide(dfactors[i], width) && 0 <= dfactors[i][0].source < c.q)
  }

  /** Multiply one participant's factors, raised to its coefficient, into the divisors; the
    * lists are paired up to the shorter one. */
  function RaiseInto<E(==,!new)>(c: Context<E>, divisors: seq<seq<E>>, factors: seq<DecryptionFactor<E>>, lagrange: int,
                                 width: nat): (rows: seq<seq<E>>)
    requires c.q > 0 && RowsWide(divisors, width) && FactorsWide(factors, width)
    ensures RowsWide(rows, width) && |rows| <= |divisors|
  {
    seq(if |divisors| <= |factors| then |divisors| else |factors|, k requires 0 <= k < |divisors| && k < |factors| =>
      c.Mul(divisors[k], c.DistExp(factors[k].value, lagrange)))
  }

  /** The divisors after the given participants, of those present. */
  function UntypedDivisors<E(==,!new)>(c: Context<E>, count: nat, dfactors: seq<seq<DecryptionFactor<E>>>,
                                       present: seq<Position>, width: nat): (rows: seq<seq<E>>)
    requires UntypedFactors(c, dfactors, width) && InRange(c.q, present)
    ensures RowsWide(rows, width) && |rows| <= count
    decreases |dfactors|
  {
    if dfactors == [] then
      seq(count, _ => c.One(width))
    else
      var n := |dfactors| - 1;
      RaiseInto(c, UntypedDivisors(c, count, dfactors[..n], present, width), dfactors[n],
                Coefficient(c.q, dfactors[n][0].source, present), width)
  }

  function UntypedCombined<E(==,!new)>(c: Context<E>, ciphertexts: seq<Ciphertext<E>>,
                                       dfactors: seq<seq<DecryptionFactor<E>>>, width: nat): (ms: seq<seq<E>>)
    requires UntypedFactors(c, dfactors, width) && AllWide(ciphertexts, width)
  {
    Plaintexts(c, ciphertexts, UntypedDivisors(c, |ciphertexts|, dfactors, Sources(dfactors), width), width)
  }

  method Combine<E(==,!new)>(c: Context<E>, ciphertexts: seq<Ciphertext<E>>, dfactors: seq<seq<DecryptionFactor<E>>>,
                             width: nat)
    returns (ms: seq<seq<E>>)
    requires UntypedFactors(c, dfactors, width) && AllWide(ciphertexts, width)
    ensures ms == UntypedCombined(c, ciphertexts, dfactors, width)
  {
    hide Rem, RaiseInto;
    var present := Sources(dfactors);
    var divisors := seq(|ciphertexts|, _ => c.One(width));
    for i := 0 to |dfactors|
      invariant divisors == UntypedDivisors(c, |ciphertexts|, dfactors[..i], present, width)
    {
      var lagrange := Lagrange.Lagrange(c.q, dfactors[i][0].source, present);
      assert dfactors[..i + 1][..i] == dfactors[..i];
      divisors := RaiseInto(c, divisors, dfactors[i], lagrange, width);
    }
    assert dfactors[..|dfactors|] == dfactors;
    ms := Plaintexts(c, ciphertexts, divisors, width);
  }

  lemma RowsCommute<E(!new)>(c: Context<E>, xs: seq<E>, ys: seq<E>)
    requires c.Valid() && |xs| == |ys|
    ensures c.Mul(xs, ys) == c.Mul(ys, xs)
  {
    forall j | 0 <= j < |xs| ensures c.mul(xs[j], ys[j]) == c.mul(ys[j], xs[j]) {
      MulCommutes(c, xs[j], ys[j]);
    }
  }

  lemma {:induction false} UntypedRows<E(!new)>(c: Context<E>, ciphertexts: seq<Ciphertext<E>>,
                                                dfactors: seq<seq<DecryptionFactor<E>>>, present: seq<Position>,
                                                width: nat)
    requires c.Valid() && UntypedFactors(c, dfactors, width) && InRange(c.q, present)
         && SameLengths(ciphertexts, dfactors)
    ensures UntypedDivisors(c, |ciphertexts|, dfactors, present, width)
         == seq(|ciphertexts|, k requires 0 <= k < |ciphertexts| => DivisorAt(c, dfactors, present, k, width))
    decreases |dfactors|
  {
    hide Rem, Coefficient;
    if dfactors != [] {
      var n := |dfactors| - 1;
      UntypedRows(c, ciphertexts, dfactors[..n], present, width);
      var before := UntypedDivisors(c, |ciphertexts|, dfactors[..n], present, width);
      var l := Coefficient(c.q, dfactors[n][0].source, present);
      forall k | 0 <= k < |ciphertexts|
        ensures UntypedDivisors(c, |ciphertexts|, dfactors, present, width)[k]
             == DivisorAt(c, dfactors, present, k, width)
      {
        RowsCommute(c, before[k], c.DistExp(dfactors[n][k].value, l));
      }
    }
  }

  /** For lists of any lengths, there are as many divisors as the shortest has. */
  lemma {:induction false} UntypedLeft<E(!new)>(c: Context<E>, count: nat, dfactors: seq<seq<DecryptionFactor<E>>>,
                                                present: seq<Position>, width: nat)
    requires c.Valid() && UntypedFactors(c, dfactors, width) && InRange(c.q, present)
    ensures |UntypedDivisors(c, count, dfactors, present, width)| == Left(count, dfactors)
    ensures RowsAre(c, UntypedDivisors(c, count, dfactors, present, width), dfactors, present, width)
    decreases |dfactors|
  {
    hide Rem, Coefficient, RowIs;
    if dfactors == [] {
      UntypedNone(c, count, present, width);
    } else {
      var n := |dfactors| - 1;
      UntypedLeft(c, count, dfactors[..n], present, width);
      var before, rows := UntypedDivisors(c, count, dfactors[..n], present, width),
                          UntypedDivisors(c, count, dfactors, present, width);
      var l := Coefficient(c.q, dfactors[n][0].source, present);
      forall k | 0 <= k < |rows| ensures RowIs(c, rows[k], dfactors, present, k, width) {
        assert RowIs(c, before[k], dfactors[..n], present, k, width);
        RowStep(c, before[k], dfactors, present, k, width);
        RowsCommute(c, before[k], c.DistExp(dfactors[n][k].value, l));
      }
    }
  }

  lemma UntypedNone<E(!new)>(c: Context<E>, count: nat, present: seq<Position>, width: nat)
    requires c.Valid() && InRange(c.q, present)
    ensures RowsAre(c, seq(count, _ => c.One(width)), [], present, width)
  {
  }

  /** Whenever the checked combination succeeds, on lists of any lengths, it returns the plaintexts
    * of the unchecked one. */
  lemma CheckedIsUnchecked<E(!new)>(c: Context<E>, ciphertexts: seq<Ciphertext<E>>,
                                    dfactors: seq<seq<DecryptionFactor<E>>>,
                                    verificationKeys: seq<E>, proofContext: ByteString, width: nat)
    requires c.Valid() && Typed(c, ciphertexts, dfactors, verificationKeys, width)
    requires Combined(c, ciphertexts, dfactors, verificationKeys, proofContext, width).Ok?
    ensures Combined(c, ciphertexts, dfactors, verificationKeys, proofContext, width).value
         == UntypedCombined(c, ciphertexts, dfactors, width)
  {
    hide Rem, Coefficient, Combined, DivisorAt, UntypedDivisors, AllLeftProofsVerify, Left;
    CombinedLeft(c, ciphertexts, dfactors, verificationKeys, proofContext, width);
    UntypedLeft(c, |ciphertexts|, dfactors, Sources(dfactors), width);
    var ms, rows := Combined(c, ciphertexts, dfactors, verificationKeys, proofContext, width).value,
                    UntypedDivisors(c, |ciphertexts|, dfactors, Sources(dfactors), width);
    forall k | 0 <= k < |ms| ensures ms[k] == c.Mul(ciphertexts[k].v, c.Inv(rows[k])) {
      assert RowIs(c, rows[k], dfactors, Sources(dfactors), k, width);
    }
  }

  lemma UntypedRow<E(!new)>(c: Context<E>, ciphertexts: seq<Ciphertext<E>>, dfactors: seq<seq<DecryptionFactor<E>>>,
                            f: Polynomial, k: nat, width: nat)
    requires c.Valid() && UntypedFactors(c, dfactors, width) && AllWide(ciphertexts, width) && k < |ciphertexts|
    requires SameLengths(ciphertexts, dfactors) && SharesOf(c, ciphertexts, dfactors, f)
    ensures c.Mul(ciphertexts[k].v, c.Inv(DivisorAt(c, dfactors, Sources(dfactors), k, width)))
         == Decrypt(c, ciphertexts[k].u, ciphertexts[k].v, Weighted(c.q, Sources(dfactors), Sources(dfactors), f))
  {
    hide Rem, Coefficient, DivisorAt, Decrypt, Weighted;
    var present := Sources(dfactors);
    var s, d := Weighted(c.q, present, present, f), DivisorAt(c, dfactors, present, k, width);
    forall j | 0 <= j < width ensures Same(c.q, c.Log(d[j]), c.Log(ciphertexts[k].u[j]) * s) {
      LogDivisor(c, ciphertexts, dfactors, present, f, k, width, j);
    }
    DivideIsDecrypt(c, ciphertexts[k].u, ciphertexts[k].v, d, s);
  }

  /** Any number of participants at distinct positions, at least as many as the polynomial has
    * coefficients, decrypt with its secret. */
  lemma UntypedDecrypts<E(!new)>(c: Context<E>, ciphertexts: seq<Ciphertext<E>>,
                                 dfactors: seq<seq<DecryptionFactor<E>>>,
                                 f: Polynomial, width: nat)
    requires c.Valid() && UntypedFactors(c, dfactors, width) && AllWide(ciphertexts, width)
    requires SameLengths(ciphertexts, dfactors) && SharesOf(c, ciphertexts, dfactors, f)
    requires Distinct(Sources(dfactors)) && |f| <= |dfactors|
    ensures UntypedCombined(c, ciphertexts, dfactors, width) == CentralDecryptions(c, ciphertexts, Value(f, 0), width)
  {
    hide Rem, Coefficient, DivisorAt, UntypedDivisors, Decrypt, SharesOf, Weighted, Value;
    var present := Sources(dfactors);
    var s := Weighted(c.q, present, present, f);
    UntypedRows(c, ciphertexts, dfactors, present, width);
    forall k | 0 <= k < |ciphertexts|
      ensures c.Mul(ciphertexts[k].v, c.Inv(DivisorAt(c, dfactors, present, k, width)))
           == Decrypt(c, ciphertexts[k].u, ciphertexts[k].v, s)
    {
      UntypedRow(c, ciphertexts, dfactors, f, k, width);
    }
    assert UntypedCombined(c, ciphertexts, dfactors, width) == CentralDecryptions(c, ciphertexts, s, width);
    InterpolationAtZero(c.q, present, f);
    DecryptSame(c, ciphertexts, s, Value(f, 0), width);
  }
}
