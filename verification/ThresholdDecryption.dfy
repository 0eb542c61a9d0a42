/** Distributed decryption refines decryption with the joint secret key. */
module ThresholdDecryption {
  import opened Bytes
  import opened Dealer
  import opened Decryption
  import opened Dlogeq
  import opened Elgamal
  import opened Groups
  import opened KeyGeneration
  import opened Lagrange
  import opened Modular
  import opened Permutations
  import opened Polynomials
  import opened Recipient
  import opened Results
  import opened Threshold

  // What combining computes

  ghost predicate ProofsVerify<E(!new)>(c: Context<E>, ciphertexts: seq<Ciphertext<E>>,
                                        factors: seq<DecryptionFactor<E>>,
                                        verificationKey: E, proofContext: ByteString, width: nat)
    requires c.q > 0 && AllWide(ciphertexts, width) && FactorsWide(factors, width) && |factors| == |ciphertexts|
  {
    forall k | 0 <= k < |ciphertexts| ::
      Verify(c, factors[k].proof, c.generator, verificationKey, ciphertexts[k].u, factors[k].value, proofContext)
           == Ok(true)
  }

  /** Every trustee gives one factor for every ciphertext. */
  predicate SameLengths<E>(ciphertexts: seq<Ciphertext<E>>, dfactors: seq<seq<DecryptionFactor<E>>>) {
    forall i | 0 <= i < |dfactors| :: |dfactors[i]| == |ciphertexts|
  }

  ghost predicate AllProofsVerify<E(!new)>(c: Context<E>, ciphertexts: seq<Ciphertext<E>>,
                                           dfactors: seq<seq<DecryptionFactor<E>>>, verificationKeys: seq<E>,
                                           proofContext: ByteString, width: nat)
    requires Typed(c, ciphertexts, dfactors, verificationKeys, width) && SameLengths(ciphertexts, dfactors)
  {
    forall i | 0 <= i < |dfactors| ::
      ProofsVerify(c, ciphertexts, dfactors[i], verificationKeys[i], proofContext, width)
  }

  predicate FactorAt<E>(q: nat, factors: seq<DecryptionFactor<E>>, k: nat, width: nat) {
    k < |factors| && |factors[k].value| == width && 0 <= factors[0].source < q
  }

  /** The product of the factors for one ciphertext, each raised to its trustee's coefficient. */
  function DivisorAt<E(==,!new)>(c: Context<E>, dfactors: seq<seq<DecryptionFactor<E>>>, present: seq<Position>, k: nat,
                                 width: nat): (row: seq<E>)
    requires IsPrime(c.q) && InRange(c.q, present)
    requires forall i | 0 <= i < |dfactors| :: FactorAt(c.q, dfactors[i], k, width)
    ensures |row| == width
  {
    if dfactors == [] then
      c.One(width)
    else
      var last := dfactors[|dfactors| - 1];
      assert FactorAt(c.q, last, k, width);
      c.Mul(c.DistExp(last[k].value, Coefficient(c.q, last[0].source, present)),
            DivisorAt(c, dfactors[..|dfactors| - 1], present, k, width))
  }

  lemma {:induction false} NextDivisorsRows<E(!new)>(c: Context<E>, divisors: seq<seq<E>>,
                                                     factors: seq<DecryptionFactor<E>>,
                                                     ciphertexts: seq<Ciphertext<E>>, verificationKey: E, lagrange: int,
                                                     proofContext: ByteString, width: nat)
    requires c.q > 0 && RowsWide(divisors, width) && FactorsWide(factors, width) && AllWide(ciphertexts, width)
    requires |divisors| == |factors| == |ciphertexts|
    ensures NextDivisors(c, divisors, factors, ciphertexts, verificationKey, lagrange, proofContext, width).Ok?
       <==> ProofsVerify(c, ciphertexts, factors, verificationKey, proofContext, width)
    ensures NextDivisors(c, divisors, factors, ciphertexts, verificationKey, lagrange, proofContext, width).Ok?
        ==> (NextDivisors(c, divisors, factors, ciphertexts, verificationKey, lagrange, proofContext, width).value
          == seq(|divisors|, k requires 0 <= k < |divisors| =>
                 c.Mul(c.DistExp(factors[k].value, lagrange), divisors[k])))
    decreases |divisors|
  {
    hide Rem, Verify;
    if divisors != [] {
      NextDivisorsRows(c, divisors[1..], factors[1..], ciphertexts[1..], verificationKey, lagrange, proofContext,
                       width);
      if ProofsVerify(c, ciphertexts, factors, verificationKey, proofContext, width) {
        assert ProofsVerify(c, ciphertexts[1..], factors[1..], verificationKey, proofContext, width);
      }
      if NextDivisors(c, divisors, factors, ciphertexts, verificationKey, lagrange, proofContext, width).Ok? {
        forall k | 0 <= k < |ciphertexts|
          ensures Verify(c, factors[k].proof, c.generator, verificationKey, ciphertexts[k].u, factors[k].value,
                         proofContext) == Ok(true)
        {
          if k > 0 {
            assert factors[k] == factors[1..][k - 1] && ciphertexts[k] == ciphertexts[1..][k - 1];
          }
        }
      }
    }
  }

  lemma AllProofsVerifyLast<E(!new)>(c: Context<E>, ciphertexts: seq<Ciphertext<E>>,
                                     dfactors: seq<seq<DecryptionFactor<E>>>, verificationKeys: seq<E>,
                                     proofContext: ByteString, width: nat)
    requires Typed(c, ciphertexts, dfactors, verificationKeys, width) && SameLengths(ciphertexts, dfactors)
    requires dfactors != []
    ensures AllProofsVerify(c, ciphertexts, dfactors, verificationKeys, proofContext, width) <==>
            (var n := |dfactors| - 1;
             && AllProofsVerify(c, ciphertexts, dfactors[..n], verificationKeys[..n], proofContext, width)
             && ProofsVerify(c, ciphertexts, dfactors[n], verificationKeys[n], proofContext, width))
  {
    hide Rem, ProofsVerify;
    var n := |dfactors| - 1;
    if AllProofsVerify(c, ciphertexts, dfactors[..n], verificationKeys[..n], proofContext, width)
       && ProofsVerify(c, ciphertexts, dfactors[n], verificationKeys[n], proofContext, width) {
      forall i | 0 <= i < |dfactors|
        ensures ProofsVerify(c, ciphertexts, dfactors[i], verificationKeys[i], proofContext, width)
      {
        if i < n {
          assert dfactors[i] == dfactors[..n][i] && verificationKeys[i] == verificationKeys[..n][i];
        }
      }
    }
  }

  lemma {:induction false} DivisorsRows<E(!new)>(c: Context<E>, ciphertexts: seq<Ciphertext<E>>,
                                                 dfactors: seq<seq<DecryptionFactor<E>>>, verificationKeys: seq<E>,
                                                 present: seq<Position>, proofContext: ByteString, width: nat)
    requires Typed(c, ciphertexts, dfactors, verificationKeys, width) && InRange(c.q, present)
    requires SameLengths(ciphertexts, dfactors)
    ensures Divisors(c, ciphertexts, dfactors, verificationKeys, present, proofContext, width).Ok?
       <==> AllProofsVerify(c, ciphertexts, dfactors, verificationKeys, proofContext, width)
    ensures Divisors(c, ciphertexts, dfactors, verificationKeys, present, proofContext, width).Ok?
        ==> (Divisors(c, ciphertexts, dfactors, verificationKeys, present, proofContext, width).value
          == seq(|ciphertexts|, k requires 0 <= k < |ciphertexts| => DivisorAt(c, dfactors, present, k, width)))
    decreases |dfactors|
  {
    hide Rem, NextDivisors, Coefficient, ProofsVerify;
    if dfactors != [] {
      var n := |dfactors| - 1;
      DivisorsRows(c, ciphertexts, dfactors[..n], verificationKeys[..n], present, proofContext, width);
      var previous := Divisors(c, ciphertexts, dfactors[..n], verificationKeys[..n], present, proofContext, width);
      if previous.Ok? {
        NextDivisorsRows(c, previous.value, dfactors[n], ciphertexts, verificationKeys[n],
                         Coefficient(c.q, dfactors[n][0].source, present), proofContext, width);
      }
      AllProofsVerifyLast(c, ciphertexts, dfactors, verificationKeys, proofContext, width);
    }
  }

  /** With one factor per trustee and ciphertext, combining succeeds exactly when all proofs
    * verify, and divides each ciphertext by the weighted product of its factors. */
  lemma CombinedRows<E(!new)>(c: Context<E>, ciphertexts: seq<Ciphertext<E>>, dfactors: seq<seq<DecryptionFactor<E>>>,
                              verificationKeys: seq<E>, proofContext: ByteString, width: nat)
    requires Typed(c, ciphertexts, dfactors, verificationKeys, width) && SameLengths(ciphertexts, dfactors)
    ensures Combined(c, ciphertexts, dfactors, verificationKeys, proofContext, width).Ok?
       <==> AllProofsVerify(c, ciphertexts, dfactors, verificationKeys, proofContext, width)
    ensures Combined(c, ciphertexts, dfactors, verificationKeys, proofContext, width).Ok?
        ==> (Combined(c, ciphertexts, dfactors, verificationKeys, proofContext, width).value
          == seq(|ciphertexts|, k requires 0 <= k < |ciphertexts| =>
               c.Mul(ciphertexts[k].v, c.Inv(DivisorAt(c, dfactors, Sources(dfactors), k, width)))))
  {
    hide Rem, Divisors, Coefficient, ProofsVerify, DivisorAt;
    DivisorsRows(c, ciphertexts, dfactors, verificationKeys, Sources(dfactors), proofContext, width);
  }

  // The exponent that the weighted product stands for

  /** Every factor is the ciphertext's first half to the power of the trustee's share of f. */
  ghost predicate SharesOf<E(!new)>(c: Context<E>, ciphertexts: seq<Ciphertext<E>>,
                                    dfactors: seq<seq<DecryptionFactor<E>>>, f: Polynomial)
    requires c.q > 0 && SameLengths(ciphertexts, dfactors)
    requires forall i | 0 <= i < |dfactors| :: dfactors[i] != []
  {
    forall i, k | 0 <= i < |dfactors| && 0 <= k < |ciphertexts| ::
      dfactors[i][k].value == c.DistExp(ciphertexts[k].u, Value(f, dfactors[i][0].source))
  }

  lemma {:induction false} LogDivisor<E(!new)>(c: Context<E>, ciphertexts: seq<Ciphertext<E>>,
                                               dfactors: seq<seq<DecryptionFactor<E>>>, present: seq<Position>,
                                               f: Polynomial, k: nat, width: nat, j: nat)
    requires c.Valid() && InRange(c.q, present) && SameLengths(ciphertexts, dfactors)
    requires k < |ciphertexts| && |ciphertexts[k].u| == width && j < width
    requires forall i | 0 <= i < |dfactors| :: dfactors[i] != []
    requires forall i | 0 <= i < |dfactors| :: FactorAt(c.q, dfactors[i], k, width)
    requires SharesOf(c, ciphertexts, dfactors, f)
    ensures InRange(c.q, Sources(dfactors))
    ensures Same(c.q, c.Log(DivisorAt(c, dfactors, present, k, width)[j]),
                      c.Log(ciphertexts[k].u[j]) * Weighted(c.q, Sources(dfactors), present, f))
    decreases |dfactors|
  {
    hide Rem, Coefficient;
    var x := ciphertexts[k].u[j];
    forall i | 0 <= i < |dfactors| ensures 0 <= Sources(dfactors)[i] < c.q {
      assert FactorAt(c.q, dfactors[i], k, width);
    }
    if dfactors == [] {
      LogOne(c);
      assert c.Log(x) * 0 == 0;
    } else {
      var n := |dfactors| - 1;
      var p := dfactors[n][0].source;
      var l, v := Coefficient(c.q, p, present), Value(f, p);
      LogDivisor(c, ciphertexts, dfactors[..n], present, f, k, width, j);
      assert Sources(dfactors)[..n] == Sources(dfactors[..n]);
      assert dfactors[n][k].value[j] == c.Exp(x, v);
      LogFactor(c, x, v, l, DivisorAt(c, dfactors[..n], present, k, width)[j],
                Weighted(c.q, Sources(dfactors[..n]), present, f));
    }
  }

  lemma LogFactor<E(!new)>(c: Context<E>, x: E, v: int, l: int, d: E, w: int)
    requires c.Valid() && Same(c.q, c.Log(d), c.Log(x) * w)
    ensures Same(c.q, c.Log(c.mul(c.Exp(c.Exp(x, v), l), d)), c.Log(x) * (w + l * v))
  {
    hide Rem;
    var y := c.Exp(x, v);
    LogExp(c, x, v);
    SameRem(c.q, c.Log(x) * v);
    LogExp(c, y, l);
    SameRem(c.q, c.Log(y) * l);
    SameMul(c.q, c.Log(y), c.Log(x) * v, l, l);
    LogMul(c, c.Exp(y, l), d);
    SameAdd(c.q, c.Log(c.Exp(y, l)), c.Log(x) * v * l, c.Log(d), c.Log(x) * w);
    SameRem(c.q, c.Log(c.Exp(y, l)) + c.Log(d));
    assert c.Log(x) * v * l + c.Log(x) * w == c.Log(x) * (w + l * v);
  }

  /** Dividing by a power of u is decrypting with its exponent. */
  lemma DivideIsDecrypt<E(!new)>(c: Context<E>, u: seq<E>, v: seq<E>, d: seq<E>, s: int)
    requires c.Valid() && |u| == |v| == |d|
    requires forall j | 0 <= j < |d| :: Same(c.q, c.Log(d[j]), c.Log(u[j]) * s)
    ensures c.Mul(v, c.Inv(d)) == Decrypt(c, u, v, s)
  {
    hide Rem;
    var m := c.Mul(v, c.Inv(d));
    forall j | 0 <= j < |v| ensures Same(c.q, c.Log(m[j]), c.Log(Decrypt(c, u, v, s)[j])) {
      LogDecrypt(c, u, v, s, j);
      LogInv(c, d[j]);
      LogMul(c, v[j], c.inv(d[j]));
      SameAdd(c.q, 0, 0, c.Log(d[j]), c.Log(u[j]) * s);
      SameAdd(c.q, c.Log(v[j]), c.Log(v[j]), c.Log(c.inv(d[j])), -(c.Log(u[j]) * s));
      SameRem(c.q, c.Log(v[j]) + c.Log(c.inv(d[j])));
    }
    RowsEqual(c, m, Decrypt(c, u, v, s));
  }

  function CentralDecryptions<E(==,!new)>(c: Context<E>, ciphertexts: seq<Ciphertext<E>>, sk: int,
                                          width: nat): (ms: seq<seq<E>>)
    requires c.q > 0 && AllWide(ciphertexts, width)
    ensures |ms| == |ciphertexts|
  {
    seq(|ciphertexts|, k requires 0 <= k < |ciphertexts| => Decrypt(c, ciphertexts[k].u, ciphertexts[k].v, sk))
  }

  /** Whoever is present, combining shares of f decrypts under the weighted sum of the shares,
    * repeated participants counted as often as they occur. */
  lemma CombineWeighted<E(!new)>(c: Context<E>, ciphertexts: seq<Ciphertext<E>>,
                                 dfactors: seq<seq<DecryptionFactor<E>>>,
                                 verificationKeys: seq<E>, proofContext: ByteString, width: nat, f: Polynomial)
    requires c.Valid() && Typed(c, ciphertexts, dfactors, verificationKeys, width) && SameLengths(ciphertexts, dfactors)
    requires AllProofsVerify(c, ciphertexts, dfactors, verificationKeys, proofContext, width)
    requires SharesOf(c, ciphertexts, dfactors, f)
    ensures InRange(c.q, Sources(dfactors))
    ensures Combined(c, ciphertexts, dfactors, verificationKeys, proofContext, width)
         == Ok(CentralDecryptions(c, ciphertexts, Weighted(c.q, Sources(dfactors), Sources(dfactors), f), width))
  {
    hide Rem, Coefficient, Combined, ProofsVerify, DivisorAt, Decrypt;
    var present := Sources(dfactors);
    CombinedRows(c, ciphertexts, dfactors, verificationKeys, proofContext, width);
    forall k | 0 <= k < |ciphertexts|
      ensures c.Mul(ciphertexts[k].v, c.Inv(DivisorAt(c, dfactors, present, k, width)))
           == Decrypt(c, ciphertexts[k].u, ciphertexts[k].v, Weighted(c.q, present, present, f))
    {
      var d := DivisorAt(c, dfactors, present, k, width);
      forall j | 0 <= j < width
        ensures Same(c.q, c.Log(d[j]), c.Log(ciphertexts[k].u[j]) * Weighted(c.q, present, present, f))
      {
        LogDivisor(c, ciphertexts, dfactors, present, f, k, width, j);
      }
      DivideIsDecrypt(c, ciphertexts[k].u, ciphertexts[k].v, d, Weighted(c.q, present, present, f));
    }
    assert Combined(c, ciphertexts, dfactors, verificationKeys, proofContext, width).value
        == CentralDecryptions(c, ciphertexts, Weighted(c.q, present, present, f), width);
  }

  lemma DecryptSame<E(!new)>(c: Context<E>, ciphertexts: seq<Ciphertext<E>>, s: int, s': int, width: nat)
    requires c.Valid() && Same(c.q, s, s') && AllWide(ciphertexts, width)
    ensures CentralDecryptions(c, ciphertexts, s, width) == CentralDecryptions(c, ciphertexts, s', width)
  {
    hide Rem;
    SameAdd(c.q, 0, 0, s, s');
    forall k | 0 <= k < |ciphertexts|
      ensures Decrypt(c, ciphertexts[k].u, ciphertexts[k].v, s) == Decrypt(c, ciphertexts[k].u, ciphertexts[k].v, s')
    {
      assert c.DistExp(ciphertexts[k].u, -s) == c.DistExp(ciphertexts[k].u, -s');
    }
  }

  // The whole pipeline

  /** The recipient's keys are its shares of f, as key generation leaves them. */
  ghost predicate KeyOf<E(!new)>(c: Context<E>, key: RecipientKey<E>, f: Polynomial)
    requires c.q > 0
  {
    && 0 <= key.position < c.q
    && key.verificationKey == c.Exp(c.generator, Value(f, key.position))
    && Same(c.q, key.sk, Value(f, key.position))
  }

  ghost predicate KeysOf<E(!new)>(c: Context<E>, keys: seq<RecipientKey<E>>, f: Polynomial)
    requires c.q > 0
  {
    && (forall i | 0 <= i < |keys| :: KeyOf(c, keys[i], f))
  }

  function Positions<E>(keys: seq<RecipientKey<E>>): (ps: seq<Position>)
    ensures |ps| == |keys|
    ensures forall i | 0 <= i < |keys| :: ps[i] == keys[i].position
  {
    seq(|keys|, i requires 0 <= i < |keys| => keys[i].position)
  }

  function VerificationKeys<E>(keys: seq<RecipientKey<E>>): (vks: seq<E>)
    ensures |vks| == |keys|
    ensures forall i | 0 <= i < |keys| :: vks[i] == keys[i].verificationKey
  {
    seq(|keys|, i requires 0 <= i < |keys| => keys[i].verificationKey)
  }

  /** The factors are what the recipients with these keys compute, with some random scalars. */
  ghost predicate FactorsOf<E(!new)>(c: Context<E>, ciphertexts: seq<Ciphertext<E>>, keys: seq<RecipientKey<E>>,
                                     dfactors: seq<seq<DecryptionFactor<E>>>, proofContext: ByteString)
    requires c.q > 0
  {
    && |dfactors| == |keys|
    && (forall i | 0 <= i < |keys| :: FactorOf(c, ciphertexts, keys[i], dfactors[i], proofContext))
  }

  ghost predicate FactorOf<E(!new)>(c: Context<E>, ciphertexts: seq<Ciphertext<E>>, key: RecipientKey<E>,
                                    factors: seq<DecryptionFactor<E>>, proofContext: ByteString)
    requires c.q > 0
  {
    exists nonces: seq<int> | |nonces| == |ciphertexts| ::
      DecryptionFactors(c, key, ciphertexts, proofContext, nonces) == Ok(factors)
  }

  /** One factor is a share of the decryption of one ciphertext, and its proof verifies. */
  ghost predicate HonestAt<E(!new)>(c: Context<E>, ciphertext: Ciphertext<E>, factor: DecryptionFactor<E>,
                                    key: RecipientKey<E>, f: Polynomial, proofContext: ByteString, width: nat)
    requires c.q > 0
  {
    && |ciphertext.u| == |factor.value| == |factor.proof.bigA1| == width
    && factor.source == key.position
    && factor.value == c.DistExp(ciphertext.u, Value(f, key.position))
    && Verify(c, factor.proof, c.generator, key.verificationKey, ciphertext.u, factor.value, proofContext) == Ok(true)
  }

  /** Honest factors are shares of the decryption, and their proofs verify. */
  lemma {:induction false} HonestFactors<E(!new)>(c: Context<E>, ciphertexts: seq<Ciphertext<E>>, key: RecipientKey<E>,
                                                  f: Polynomial, proofContext: ByteString, nonces: seq<int>, width: nat)
    requires c.Valid() && KeyOf(c, key, f) && |nonces| == |ciphertexts| && AllWide(ciphertexts, width)
    requires DecryptionFactors(c, key, ciphertexts, proofContext, nonces).Ok?
    ensures forall k | 0 <= k < |ciphertexts| ::
              HonestAt(c, ciphertexts[k], DecryptionFactors(c, key, ciphertexts, proofContext, nonces).value[k],
                       key, f, proofContext, width)
    decreases |ciphertexts|
  {
    hide Rem, Prove, Verify, HonestAt, KeyOf;
    if ciphertexts != [] {
      var n := |ciphertexts| - 1;
      var factors := DecryptionFactors(c, key, ciphertexts, proofContext, nonces).value;
      HonestFactors(c, ciphertexts[..n], key, f, proofContext, nonces[..n], width);
      HonestFactor(c, ciphertexts[n], key, f, proofContext, nonces[n], factors[n], width);
    }
  }

  lemma HonestFactor<E(!new)>(c: Context<E>, ciphertext: Ciphertext<E>, key: RecipientKey<E>, f: Polynomial,
                              proofContext: ByteString, nonce: int, factor: DecryptionFactor<E>, width: nat)
    requires c.Valid() && KeyOf(c, key, f) && |ciphertext.u| == width
    requires factor.value == c.DistExp(ciphertext.u, key.sk) && factor.source == key.position
    requires Prove(c, key.sk, c.generator, key.verificationKey, ciphertext.u, factor.value, proofContext, nonce)
          == Ok(factor.proof)
    ensures HonestAt(c, ciphertext, factor, key, f, proofContext, width)
  {
    hide Rem, Prove, Verify;
    Completeness(c, key.sk, c.generator, key.verificationKey, ciphertext.u, factor.value, proofContext, nonce);
  }

  lemma HonestRow<E(!new)>(c: Context<E>, ciphertexts: seq<Ciphertext<E>>, factors: seq<DecryptionFactor<E>>,
                           key: RecipientKey<E>, f: Polynomial, proofContext: ByteString, width: nat)
    requires c.q > 0 && AllWide(ciphertexts, width) && |factors| == |ciphertexts|
    requires forall k | 0 <= k < |ciphertexts| :: HonestAt(c, ciphertexts[k], factors[k], key, f, proofContext, width)
    ensures FactorsWide(factors, width)
         && ProofsVerify(c, ciphertexts, factors, key.verificationKey, proofContext, width)
    ensures forall k | 0 <= k < |ciphertexts| ::
              && factors[k].source == key.position
              && factors[k].value == c.DistExp(ciphertexts[k].u, Value(f, key.position))
  {
    hide Rem, Verify;
    forall k | 0 <= k < |ciphertexts|
      ensures |factors[k].value| == |factors[k].proof.bigA1| == width && factors[k].source == key.position
      ensures factors[k].value == c.DistExp(ciphertexts[k].u, Value(f, key.position))
      ensures Verify(c, factors[k].proof, c.generator, key.verificationKey, ciphertexts[k].u, factors[k].value,
                     proofContext)
           == Ok(true)
    {
      assert HonestAt(c, ciphertexts[k], factors[k], key, f, proofContext, width);
    }
  }

  /** The factors of recipients with shares of f are well typed, verify, and are shares of f. */
  lemma PipelineFactors<E(!new)>(c: Context<E>, ciphertexts: seq<Ciphertext<E>>, keys: seq<RecipientKey<E>>,
                                 dfactors: seq<seq<DecryptionFactor<E>>>, f: Polynomial, proofContext: ByteString,
                                 width: nat)
    requires c.Valid() && AllWide(ciphertexts, width) && ciphertexts != []
    requires KeysOf(c, keys, f) && FactorsOf(c, ciphertexts, keys, dfactors, proofContext)
    ensures Typed(c, ciphertexts, dfactors, VerificationKeys(keys), width) && SameLengths(ciphertexts, dfactors)
    ensures AllProofsVerify(c, ciphertexts, dfactors, VerificationKeys(keys), proofContext, width)
    ensures SharesOf(c, ciphertexts, dfactors, f)
    ensures Sources(dfactors) == Positions(keys) && InRange(c.q, Positions(keys))
  {
    hide Rem, Prove, Verify, ProofsVerify, DecryptionFactors, HonestAt;
    forall i | 0 <= i < |keys|
      ensures |dfactors[i]| == |ciphertexts| && FactorsWide(dfactors[i], width)
      ensures ProofsVerify(c, ciphertexts, dfactors[i], keys[i].verificationKey, proofContext, width)
      ensures forall k | 0 <= k < |ciphertexts| ::
                && dfactors[i][k].source == keys[i].position
                && dfactors[i][k].value == c.DistExp(ciphertexts[k].u, Value(f, keys[i].position))
    {
      assert KeyOf(c, keys[i], f) && FactorOf(c, ciphertexts, keys[i], dfactors[i], proofContext);
      var nonces: seq<int> :| |nonces| == |ciphertexts|
        && DecryptionFactors(c, keys[i], ciphertexts, proofContext, nonces) == Ok(dfactors[i]);
      HonestFactors(c, ciphertexts, keys[i], f, proofContext, nonces, width);
      HonestRow(c, ciphertexts, dfactors[i], keys[i], f, proofContext, width);
    }
    forall i | 0 <= i < |keys| ensures 0 <= dfactors[i][0].source < c.q {
      assert KeyOf(c, keys[i], f);
    }
  }

  /** Threshold decryption: any recipients at distinct positions, at least as many as the joint
    * polynomial has coefficients and in any order, decrypt every ciphertext, honest or not, to
    * exactly what the joint secret key decrypts it to. */
  lemma ThresholdRefinesCentral<E(!new)>(c: Context<E>, ciphertexts: seq<Ciphertext<E>>, keys: seq<RecipientKey<E>>,
                                         dfactors: seq<seq<DecryptionFactor<E>>>, f: Polynomial,
                                         proofContext: ByteString,
                                         width: nat)
    requires c.Valid() && AllWide(ciphertexts, width) && ciphertexts != []
    requires KeysOf(c, keys, f) && FactorsOf(c, ciphertexts, keys, dfactors, proofContext)
    requires Distinct(Positions(keys)) && |f| <= |keys|
    ensures Typed(c, ciphertexts, dfactors, VerificationKeys(keys), width)
    ensures Combined(c, ciphertexts, dfactors, VerificationKeys(keys), proofContext, width)
         == Ok(CentralDecryptions(c, ciphertexts, Value(f, 0), width))
  {
    hide Rem, Combined, Coefficient, ProofsVerify, CentralDecryptions, DecryptionFactors;
    PipelineFactors(c, ciphertexts, keys, dfactors, f, proofContext, width);
    CombineWeighted(c, ciphertexts, dfactors, VerificationKeys(keys), proofContext, width, f);
    InterpolationAtZero(c.q, Positions(keys), f);
    DecryptSame(c, ciphertexts, Weighted(c.q, Positions(keys), Positions(keys), f), Value(f, 0), width);
  }
}
