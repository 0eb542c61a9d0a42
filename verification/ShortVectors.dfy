/** The order of the trustees can decide whether combining succeeds, if one of them gives too few factors. */
module ShortVectors {
  import opened Bytes
  import opened CombineLengths
  import opened CombineOrder
  import opened Decryption
  import opened Dlogeq
  import opened Elgamal
  import opened Groups
  import opened Lagrange
  import opened Modular
  import opened Polynomials
  import opened Protocol
  import opened Results
  import opened ThresholdDecryption

  /** The same proof with another response does not verify. */
  lemma ChangedResponse<E(!new)>(c: Context<E>, ciphertext: Ciphertext<E>, factor: DecryptionFactor<E>, vk: E,
                                 proofContext: ByteString)
    returns (bad: DecryptionFactor<E>)
    requires c.Valid() && |ciphertext.u| == |factor.value| == |factor.proof.bigA1|
    requires Verify(c, factor.proof, c.generator, vk, ciphertext.u, factor.value, proofContext) == Ok(true)
    ensures bad.value == factor.value && bad.source == factor.source && |bad.proof.bigA1| == |factor.proof.bigA1|
    ensures Verify(c, bad.proof, c.generator, vk, ciphertext.u, bad.value, proofContext) == Ok(false)
  {
    hide Rem, Check;
    var k' := factor.proof.k + 1;
    bad := factor.(proof := factor.proof.(k := k'));
    var v := Challenge(c, c.generator, ciphertext.u, vk, factor.value, factor.proof.bigA0, factor.proof.bigA1,
                       proofContext).value;
    if Check(c, bad.proof, c.generator, vk, ciphertext.u, bad.value, v) {
      LogGenerator(c);
      LogOne(c);
      ResponseUnique(c, factor.proof, k', c.generator, vk, ciphertext.u, factor.value, v);
      SameAdd(c.q, k', factor.proof.k, factor.proof.k, factor.proof.k);
      OneIsNotZero(c.q);
    }
  }

  // Which orders succeed

  /** The same trustees, each with its verification key, in some order. */
  ghost predicate Reordered<E(!new)>(dfactors: seq<seq<DecryptionFactor<E>>>, verificationKeys: seq<E>,
                                     dfactors': seq<seq<DecryptionFactor<E>>>, verificationKeys': seq<E>)
  {
    && |dfactors| == |verificationKeys| && |dfactors'| == |verificationKeys'|
    && multiset(Trustees(dfactors, verificationKeys)) == multiset(Trustees(dfactors', verificationKeys'))
  }

  ghost predicate OrderSucceeds<E(!new)>(c: Context<E>, ciphertexts: seq<Ciphertext<E>>,
                                         dfactors: seq<seq<DecryptionFactor<E>>>, verificationKeys: seq<E>,
                                         proofContext: ByteString, width: nat)
  {
    && Typed(c, ciphertexts, dfactors, verificationKeys, width)
    && Combined(c, ciphertexts, dfactors, verificationKeys, proofContext, width).Ok?
  }

  ghost predicate SomeOrderSucceeds<E(!new)>(c: Context<E>, ciphertexts: seq<Ciphertext<E>>,
                                             dfactors: seq<seq<DecryptionFactor<E>>>, verificationKeys: seq<E>,
                                             proofContext: ByteString, width: nat)
  {
    exists dfactors', verificationKeys' ::
      && Reordered(dfactors, verificationKeys, dfactors', verificationKeys')
      && OrderSucceeds(c, ciphertexts, dfactors', verificationKeys', proofContext, width)
  }

  ghost predicate SomeOrderFails<E(!new)>(c: Context<E>, ciphertexts: seq<Ciphertext<E>>,
                                          dfactors: seq<seq<DecryptionFactor<E>>>, verificationKeys: seq<E>,
                                          proofContext: ByteString, width: nat)
  {
    exists dfactors', verificationKeys' ::
      && Reordered(dfactors, verificationKeys, dfactors', verificationKeys')
      && !OrderSucceeds(c, ciphertexts, dfactors', verificationKeys', proofContext, width)
  }

  /** The first n proofs of trustee i verify. */
  ghost predicate FirstProofsVerify<E(!new)>(c: Context<E>, ciphertexts: seq<Ciphertext<E>>,
                                             factors: seq<DecryptionFactor<E>>, verificationKey: E,
                                             proofContext: ByteString, width: nat, n: nat)
    requires c.q > 0 && AllWide(ciphertexts, width) && FactorsWide(factors, width)
    requires n <= |ciphertexts| && n <= |factors|
  {
    ProofsVerify(c, ciphertexts[..n], factors[..n], verificationKey, proofContext, width)
  }

  lemma FewerProofs<E(!new)>(c: Context<E>, ciphertexts: seq<Ciphertext<E>>, factors: seq<DecryptionFactor<E>>,
                             verificationKey: E, proofContext: ByteString, width: nat, n: nat, m: nat)
    requires c.q > 0 && AllWide(ciphertexts, width) && FactorsWide(factors, width)
    requires n <= m <= |ciphertexts| && m <= |factors|
    requires FirstProofsVerify(c, ciphertexts, factors, verificationKey, proofContext, width, m)
    ensures FirstProofsVerify(c, ciphertexts, factors, verificationKey, proofContext, width, n)
  {
    hide Rem, Verify;
    forall k | 0 <= k < n
      ensures Verify(c, factors[..n][k].proof, c.generator, verificationKey, ciphertexts[..n][k].u,
                     factors[..n][k].value,
                     proofContext) == Ok(true)
    {
      assert ciphertexts[..m][k] == ciphertexts[k] && factors[..m][k] == factors[k];
    }
  }

  /** All proofs for the ciphertexts that every trustee has a factor for. */
  ghost predicate CommonProofsVerify<E(!new)>(c: Context<E>, ciphertexts: seq<Ciphertext<E>>,
                                              dfactors: seq<seq<DecryptionFactor<E>>>, verificationKeys: seq<E>,
                                              proofContext: ByteString, width: nat)
    requires Typed(c, ciphertexts, dfactors, verificationKeys, width)
  {
    forall i | 0 <= i < |dfactors| ::
      FirstProofsVerify(c, ciphertexts, dfactors[i], verificationKeys[i], proofContext, width,
                        Left(|ciphertexts|, dfactors))
  }

  /** All proofs for a ciphertext at the same index. */
  ghost predicate PairedProofsVerify<E(!new)>(c: Context<E>, ciphertexts: seq<Ciphertext<E>>,
                                              dfactors: seq<seq<DecryptionFactor<E>>>, verificationKeys: seq<E>,
                                              proofContext: ByteString, width: nat)
    requires Typed(c, ciphertexts, dfactors, verificationKeys, width)
  {
    forall i | 0 <= i < |dfactors| ::
      FirstProofsVerify(c, ciphertexts, dfactors[i], verificationKeys[i], proofContext, width,
                        Shorter(|ciphertexts|, |dfactors[i]|))
  }

  /** Move one trustee to the front. */
  function MovedFirst<T>(xs: seq<T>, i: nat): (ys: seq<T>)
    requires i < |xs|
    ensures |ys| == |xs| && ys[0] == xs[i]
  {
    seq(|xs|, j requires 0 <= j < |xs| => xs[if j == 0 then i else if j <= i then j - 1 else j])
  }

  lemma MovedFirstReordered<E(!new)>(c: Context<E>, ciphertexts: seq<Ciphertext<E>>,
                                     dfactors: seq<seq<DecryptionFactor<E>>>, verificationKeys: seq<E>, width: nat,
                                     i: nat)
    requires Typed(c, ciphertexts, dfactors, verificationKeys, width) && i < |dfactors|
    ensures Reordered(dfactors, verificationKeys, MovedFirst(dfactors, i), MovedFirst(verificationKeys, i))
    ensures Typed(c, ciphertexts, MovedFirst(dfactors, i), MovedFirst(verificationKeys, i), width)
  {
    hide Rem, FactorsWide, AllWide;
    var ts := Trustees(dfactors, verificationKeys);
    var ts' := Trustees(MovedFirst(dfactors, i), MovedFirst(verificationKeys, i));
    var dfactors', verificationKeys' := MovedFirst(dfactors, i), MovedFirst(verificationKeys, i);
    assert ts' == MovedFirst(ts, i);
    MovedFirstPermutes(ts, i);
    TypedReordered(c, ciphertexts, dfactors, verificationKeys, dfactors', verificationKeys', width);
  }

  lemma MovedFirstPermutes<T>(xs: seq<T>, i: nat)
    requires i < |xs|
    ensures multiset(MovedFirst(xs, i)) == multiset(xs)
  {
    assert xs == xs[..i] + [xs[i]] + xs[i + 1..];
    assert MovedFirst(xs, i) == [xs[i]] + xs[..i] + xs[i + 1..];
  }

  lemma TypedReordered<E(!new)>(c: Context<E>, ciphertexts: seq<Ciphertext<E>>, dfactors: seq<seq<DecryptionFactor<E>>>,
                                verificationKeys: seq<E>, dfactors': seq<seq<DecryptionFactor<E>>>,
                                verificationKeys': seq<E>, width: nat)
    requires Typed(c, ciphertexts, dfactors, verificationKeys, width)
    requires Reordered(dfactors, verificationKeys, dfactors', verificationKeys')
    ensures Typed(c, ciphertexts, dfactors', verificationKeys', width)
    ensures Left(|ciphertexts|, dfactors') == Left(|ciphertexts|, dfactors)
  {
    hide Rem, FactorsWide, AllWide, Left;
    forall i | 0 <= i < |dfactors'|
      ensures dfactors'[i] != [] && FactorsWide(dfactors'[i], width) && 0 <= dfactors'[i][0].source < c.q
    {
      var m := TrusteeAt(dfactors', verificationKeys', dfactors, verificationKeys, i);
    }
    LeftPermuted(|ciphertexts|, dfactors, verificationKeys, dfactors', verificationKeys');
    LeftPermuted(|ciphertexts|, dfactors', verificationKeys', dfactors, verificationKeys);
  }

  lemma LeftIsFirst<E(!new)>(c: Context<E>, ciphertexts: seq<Ciphertext<E>>, dfactors: seq<seq<DecryptionFactor<E>>>,
                             verificationKeys: seq<E>, proofContext: ByteString, width: nat, i: nat)
    requires Typed(c, ciphertexts, dfactors, verificationKeys, width) && i < |dfactors|
    ensures Left(|ciphertexts|, dfactors) <= Left(|ciphertexts|, dfactors[..i + 1])
                                          <= Shorter(|ciphertexts|, |dfactors[i]|)
    ensures LeftProofsVerify(c, ciphertexts, dfactors, verificationKeys, proofContext, width, i)
         == FirstProofsVerify(c, ciphertexts, dfactors[i], verificationKeys[i], proofContext, width,
                              Left(|ciphertexts|, dfactors[..i + 1]))
  {
    hide Rem, ProofsVerify, Left, AllWide, FactorsWide;
    LeftDecreases(|ciphertexts|, dfactors, i + 1);
    assert dfactors[..i + 1][i] == dfactors[i];
  }

  /** With a shortest trustee first, only the common proofs are looked at. */
  lemma ShortestFirst<E(!new)>(count: nat, dfactors: seq<seq<DecryptionFactor<E>>>, i: nat)
    requires i < |dfactors| && |dfactors[0]| == Left(count, dfactors)
    ensures Left(count, dfactors[..i + 1]) == Left(count, dfactors)
  {
    hide Left;
    LeftDecreases(count, dfactors, i + 1);
    assert dfactors[..i + 1][0] == dfactors[0];
  }

  /** Some order succeeds exactly when the common proofs verify. */
  lemma SuccessExactly<E(!new)>(c: Context<E>, ciphertexts: seq<Ciphertext<E>>, dfactors: seq<seq<DecryptionFactor<E>>>,
                                verificationKeys: seq<E>, proofContext: ByteString, width: nat)
    requires c.Valid() && Typed(c, ciphertexts, dfactors, verificationKeys, width)
    ensures SomeOrderSucceeds(c, ciphertexts, dfactors, verificationKeys, proofContext, width)
       <==> CommonProofsVerify(c, ciphertexts, dfactors, verificationKeys, proofContext, width)
  {
    hide Rem, Typed, Reordered, OrderSucceeds, CommonProofsVerify;
    if SomeOrderSucceeds(c, ciphertexts, dfactors, verificationKeys, proofContext, width) {
      var dfactors', verificationKeys' :|
        && Reordered(dfactors, verificationKeys, dfactors', verificationKeys')
        && OrderSucceeds(c, ciphertexts, dfactors', verificationKeys', proofContext, width);
      SuccessNeedsCommon(c, ciphertexts, dfactors, verificationKeys, dfactors', verificationKeys', proofContext, width);
    }
    if CommonProofsVerify(c, ciphertexts, dfactors, verificationKeys, proofContext, width) {
      CommonSuffice(c, ciphertexts, dfactors, verificationKeys, proofContext, width);
    }
  }

  lemma SuccessNeedsCommon<E(!new)>(c: Context<E>, ciphertexts: seq<Ciphertext<E>>,
                                    dfactors: seq<seq<DecryptionFactor<E>>>, verificationKeys: seq<E>,
                                    dfactors': seq<seq<DecryptionFactor<E>>>, verificationKeys': seq<E>,
                                    proofContext: ByteString, width: nat)
    requires c.Valid() && Typed(c, ciphertexts, dfactors, verificationKeys, width)
    requires Reordered(dfactors, verificationKeys, dfactors', verificationKeys')
    requires OrderSucceeds(c, ciphertexts, dfactors', verificationKeys', proofContext, width)
    ensures CommonProofsVerify(c, ciphertexts, dfactors, verificationKeys, proofContext, width)
  {
    hide Rem, Combined, LeftProofsVerify, FirstProofsVerify, PlaintextsAre, Left, AllWide, FactorsWide;
    TypedReordered(c, ciphertexts, dfactors, verificationKeys, dfactors', verificationKeys', width);
    CombinedLeft(c, ciphertexts, dfactors', verificationKeys', proofContext, width);
    forall i | 0 <= i < |dfactors|
      ensures FirstProofsVerify(c, ciphertexts, dfactors[i], verificationKeys[i], proofContext, width,
                                Left(|ciphertexts|, dfactors))
    {
      var m := TrusteeAt(dfactors, verificationKeys, dfactors', verificationKeys', i);
      assert LeftProofsVerify(c, ciphertexts, dfactors', verificationKeys', proofContext, width, m);
      LeftIsFirst(c, ciphertexts, dfactors', verificationKeys', proofContext, width, m);
      FewerProofs(c, ciphertexts, dfactors[i], verificationKeys[i], proofContext, width, Left(|ciphertexts|, dfactors),
                  Left(|ciphertexts|, dfactors'[..m + 1]));
    }
  }

  lemma CommonSuffice<E(!new)>(c: Context<E>, ciphertexts: seq<Ciphertext<E>>, dfactors: seq<seq<DecryptionFactor<E>>>,
                               verificationKeys: seq<E>, proofContext: ByteString, width: nat)
    requires c.Valid() && Typed(c, ciphertexts, dfactors, verificationKeys, width)
    requires CommonProofsVerify(c, ciphertexts, dfactors, verificationKeys, proofContext, width)
    ensures SomeOrderSucceeds(c, ciphertexts, dfactors, verificationKeys, proofContext, width)
  {
    hide Rem, Combined, CommonProofsVerify, AllLeftProofsVerify, PlaintextsAre, Left, AllWide, FactorsWide;
    var n := Left(|ciphertexts|, dfactors);
    assert Reordered(dfactors, verificationKeys, dfactors, verificationKeys);
    if n == |ciphertexts| {
      AlreadyShortest(c, ciphertexts, dfactors, verificationKeys, dfactors, verificationKeys, proofContext, width);
      CombinedLeft(c, ciphertexts, dfactors, verificationKeys, proofContext, width);
      assert OrderSucceeds(c, ciphertexts, dfactors, verificationKeys, proofContext, width);
    } else {
      var i :| 0 <= i < |dfactors| && n == |dfactors[i]|;
      var dfactors', verificationKeys' := MovedFirst(dfactors, i), MovedFirst(verificationKeys, i);
      MovedFirstReordered(c, ciphertexts, dfactors, verificationKeys, width, i);
      AlreadyShortest(c, ciphertexts, dfactors, verificationKeys, dfactors', verificationKeys', proofContext, width);
      CombinedLeft(c, ciphertexts, dfactors', verificationKeys', proofContext, width);
      assert OrderSucceeds(c, ciphertexts, dfactors', verificationKeys', proofContext, width);
    }
  }

  lemma AlreadyShortest<E(!new)>(c: Context<E>, ciphertexts: seq<Ciphertext<E>>,
                                 dfactors: seq<seq<DecryptionFactor<E>>>,
                                 verificationKeys: seq<E>, dfactors': seq<seq<DecryptionFactor<E>>>,
                                 verificationKeys': seq<E>, proofContext: ByteString, width: nat)
    requires c.Valid() && Typed(c, ciphertexts, dfactors, verificationKeys, width)
    requires CommonProofsVerify(c, ciphertexts, dfactors, verificationKeys, proofContext, width)
    requires Reordered(dfactors, verificationKeys, dfactors', verificationKeys')
    requires var n := Left(|ciphertexts|, dfactors); n == |ciphertexts| || (dfactors' != [] && |dfactors'[0]| == n)
    ensures Typed(c, ciphertexts, dfactors', verificationKeys', width)
    ensures AllLeftProofsVerify(c, ciphertexts, dfactors', verificationKeys', proofContext, width)
  {
    hide Rem, LeftProofsVerify, FirstProofsVerify, Left, AllWide, FactorsWide;
    TypedReordered(c, ciphertexts, dfactors, verificationKeys, dfactors', verificationKeys', width);
    forall i | 0 <= i < |dfactors'|
      ensures LeftProofsVerify(c, ciphertexts, dfactors', verificationKeys', proofContext, width, i)
    {
      var m := TrusteeAt(dfactors', verificationKeys', dfactors, verificationKeys, i);
      LeftIsFirst(c, ciphertexts, dfactors', verificationKeys', proofContext, width, i);
      if Left(|ciphertexts|, dfactors) < |ciphertexts| {
        ShortestFirst(|ciphertexts|, dfactors', i);
      }
    }
  }

  /** Some order fails exactly when some proof for a ciphertext at its index does not verify. */
  lemma FailureExactly<E(!new)>(c: Context<E>, ciphertexts: seq<Ciphertext<E>>, dfactors: seq<seq<DecryptionFactor<E>>>,
                                verificationKeys: seq<E>, proofContext: ByteString, width: nat)
    requires c.Valid() && Typed(c, ciphertexts, dfactors, verificationKeys, width)
    ensures SomeOrderFails(c, ciphertexts, dfactors, verificationKeys, proofContext, width)
       <==> !PairedProofsVerify(c, ciphertexts, dfactors, verificationKeys, proofContext, width)
  {
    hide Rem, Typed, Reordered, OrderSucceeds, PairedProofsVerify;
    if PairedProofsVerify(c, ciphertexts, dfactors, verificationKeys, proofContext, width) {
      forall dfactors', verificationKeys' | Reordered(dfactors, verificationKeys, dfactors', verificationKeys')
        ensures OrderSucceeds(c, ciphertexts, dfactors', verificationKeys', proofContext, width)
      {
        PairedSuffice(c, ciphertexts, dfactors, verificationKeys, dfactors', verificationKeys', proofContext, width);
      }
    } else {
      BadFirst(c, ciphertexts, dfactors, verificationKeys, proofContext, width);
    }
  }

  lemma PairedSuffice<E(!new)>(c: Context<E>, ciphertexts: seq<Ciphertext<E>>, dfactors: seq<seq<DecryptionFactor<E>>>,
                               verificationKeys: seq<E>, dfactors': seq<seq<DecryptionFactor<E>>>,
                               verificationKeys': seq<E>, proofContext: ByteString, width: nat)
    requires c.Valid() && Typed(c, ciphertexts, dfactors, verificationKeys, width)
    requires PairedProofsVerify(c, ciphertexts, dfactors, verificationKeys, proofContext, width)
    requires Reordered(dfactors, verificationKeys, dfactors', verificationKeys')
    ensures OrderSucceeds(c, ciphertexts, dfactors', verificationKeys', proofContext, width)
  {
    hide Rem, Combined, LeftProofsVerify, FirstProofsVerify, PlaintextsAre, Left, AllWide, FactorsWide;
    TypedReordered(c, ciphertexts, dfactors, verificationKeys, dfactors', verificationKeys', width);
    forall i | 0 <= i < |dfactors'|
      ensures LeftProofsVerify(c, ciphertexts, dfactors', verificationKeys', proofContext, width, i)
    {
      var m := TrusteeAt(dfactors', verificationKeys', dfactors, verificationKeys, i);
      LeftIsFirst(c, ciphertexts, dfactors', verificationKeys', proofContext, width, i);
      FewerProofs(c, ciphertexts, dfactors'[i], verificationKeys'[i], proofContext, width,
                  Left(|ciphertexts|, dfactors'[..i + 1]), Shorter(|ciphertexts|, |dfactors'[i]|));
    }
    CombinedLeft(c, ciphertexts, dfactors', verificationKeys', proofContext, width);
  }

  lemma BadFirst<E(!new)>(c: Context<E>, ciphertexts: seq<Ciphertext<E>>, dfactors: seq<seq<DecryptionFactor<E>>>,
                          verificationKeys: seq<E>, proofContext: ByteString, width: nat)
    requires c.Valid() && Typed(c, ciphertexts, dfactors, verificationKeys, width)
    requires !PairedProofsVerify(c, ciphertexts, dfactors, verificationKeys, proofContext, width)
    ensures SomeOrderFails(c, ciphertexts, dfactors, verificationKeys, proofContext, width)
  {
    hide Rem, Combined, LeftProofsVerify, FirstProofsVerify, PlaintextsAre, AllWide, FactorsWide, Left;
    var i :| 0 <= i < |dfactors|
      && !FirstProofsVerify(c, ciphertexts, dfactors[i], verificationKeys[i], proofContext, width,
                            Shorter(|ciphertexts|, |dfactors[i]|));
    var dfactors', verificationKeys' := MovedFirst(dfactors, i), MovedFirst(verificationKeys, i);
    MovedFirstReordered(c, ciphertexts, dfactors, verificationKeys, width, i);
    LeftIsFirst(c, ciphertexts, dfactors', verificationKeys', proofContext, width, 0);
    FirstLeft(|ciphertexts|, dfactors');
    CombinedLeft(c, ciphertexts, dfactors', verificationKeys', proofContext, width);
    assert !LeftProofsVerify(c, ciphertexts, dfactors', verificationKeys', proofContext, width, 0);
    assert !OrderSucceeds(c, ciphertexts, dfactors', verificationKeys', proofContext, width);
  }

  lemma FirstLeft<E>(count: nat, dfactors: seq<seq<DecryptionFactor<E>>>)
    requires dfactors != []
    ensures Left(count, dfactors[..1]) == Shorter(count, |dfactors[0]|)
  {
    assert dfactors[..1][..0] == [];
  }

  /** The order of the trustees decides success exactly when the common proofs verify and some
    * paired proof, behind the shortest list, does not. */
  lemma OrderMattersExactly<E(!new)>(c: Context<E>, ciphertexts: seq<Ciphertext<E>>,
                                     dfactors: seq<seq<DecryptionFactor<E>>>, verificationKeys: seq<E>,
                                     proofContext: ByteString, width: nat)
    requires c.Valid() && Typed(c, ciphertexts, dfactors, verificationKeys, width)
    ensures && SomeOrderSucceeds(c, ciphertexts, dfactors, verificationKeys, proofContext, width)
            && SomeOrderFails(c, ciphertexts, dfactors, verificationKeys, proofContext, width)
            <==>
            && CommonProofsVerify(c, ciphertexts, dfactors, verificationKeys, proofContext, width)
            && !PairedProofsVerify(c, ciphertexts, dfactors, verificationKeys, proofContext, width)
  {
    hide Rem, Typed, CommonProofsVerify, PairedProofsVerify, SomeOrderSucceeds, SomeOrderFails;
    SuccessExactly(c, ciphertexts, dfactors, verificationKeys, proofContext, width);
    FailureExactly(c, ciphertexts, dfactors, verificationKeys, proofContext, width);
  }

  // A concrete failure

  /** One factor for the first of two ciphertexts, with a proof that verifies. */
  ghost predicate Short<E(!new)>(c: Context<E>, ciphertexts: seq<Ciphertext<E>>, factors: seq<DecryptionFactor<E>>,
                                 vk: E,
                                 proofContext: ByteString, width: nat)
    requires c.q > 0 && |ciphertexts| == 2 && AllWide(ciphertexts, width)
  {
    && |factors| == 1 && FactorsWide(factors, width) && 0 <= factors[0].source < c.q
    && ProofsVerify(c, ciphertexts[..1], factors, vk, proofContext, width)
  }

  /** Two factors, of which only the first has a proof that verifies. */
  ghost predicate BadSecond<E(!new)>(c: Context<E>, ciphertexts: seq<Ciphertext<E>>, factors: seq<DecryptionFactor<E>>,
                                     vk: E, proofContext: ByteString, width: nat)
    requires c.q > 0 && |ciphertexts| == 2 && AllWide(ciphertexts, width)
  {
    && |factors| == 2 && FactorsWide(factors, width) && 0 <= factors[0].source < c.q
    && ProofsVerify(c, ciphertexts[..1], factors[..1], vk, proofContext, width)
    && !ProofsVerify(c, ciphertexts, factors, vk, proofContext, width)
  }

  /** With the short vector first the bad proof is not looked at, and combining succeeds; with
    * the short vector last, combining the same factors fails. */
  lemma ShortVectorHidesProof<E(!new)>(c: Context<E>, ciphertexts: seq<Ciphertext<E>>, short: seq<DecryptionFactor<E>>,
                                       long: seq<DecryptionFactor<E>>, vk: E, vk': E, proofContext: ByteString,
                                       width: nat)
    requires c.Valid() && |ciphertexts| == 2 && AllWide(ciphertexts, width)
    requires Short(c, ciphertexts, short, vk, proofContext, width)
    requires BadSecond(c, ciphertexts, long, vk', proofContext, width)
    ensures Typed(c, ciphertexts, [short, long], [vk, vk'], width)
    ensures Typed(c, ciphertexts, [long, short], [vk', vk], width)
    ensures multiset(Trustees([short, long], [vk, vk'])) == multiset(Trustees([long, short], [vk', vk]))
    ensures Combined(c, ciphertexts, [short, long], [vk, vk'], proofContext, width).Ok?
    ensures Combined(c, ciphertexts, [long, short], [vk', vk], proofContext, width).Err?
  {
    hide Rem, Combined, ProofsVerify, DivisorAt, Coefficient, PlaintextsAre, LeftProofsVerify;
    assert Trustees([short, long], [vk, vk']) == [(short, vk), (long, vk')];
    assert Trustees([long, short], [vk', vk]) == [(long, vk'), (short, vk)];
    CombinedLeft(c, ciphertexts, [short, long], [vk, vk'], proofContext, width);
    CombinedLeft(c, ciphertexts, [long, short], [vk', vk], proofContext, width);
    ShortFirst(c, ciphertexts, short, long, vk, vk', proofContext, width);
    ShortLast(c, ciphertexts, short, long, vk, vk', proofContext, width);
  }

  lemma ShortFirst<E(!new)>(c: Context<E>, ciphertexts: seq<Ciphertext<E>>, short: seq<DecryptionFactor<E>>,
                            long: seq<DecryptionFactor<E>>, vk: E, vk': E, proofContext: ByteString, width: nat)
    requires c.q > 0 && |ciphertexts| == 2 && AllWide(ciphertexts, width)
    requires Typed(c, ciphertexts, [short, long], [vk, vk'], width)
    requires Short(c, ciphertexts, short, vk, proofContext, width)
    requires BadSecond(c, ciphertexts, long, vk', proofContext, width)
    ensures LeftProofsVerify(c, ciphertexts, [short, long], [vk, vk'], proofContext, width, 0)
    ensures LeftProofsVerify(c, ciphertexts, [short, long], [vk, vk'], proofContext, width, 1)
  {
    hide Rem, ProofsVerify;
    assert [short, long][..1] == [short] && [short, long][..2] == [short, long];
    assert short[..1] == short;
  }

  lemma ShortLast<E(!new)>(c: Context<E>, ciphertexts: seq<Ciphertext<E>>, short: seq<DecryptionFactor<E>>,
                           long: seq<DecryptionFactor<E>>, vk: E, vk': E, proofContext: ByteString, width: nat)
    requires c.q > 0 && |ciphertexts| == 2 && AllWide(ciphertexts, width)
    requires Typed(c, ciphertexts, [long, short], [vk', vk], width)
    requires BadSecond(c, ciphertexts, long, vk', proofContext, width)
    ensures !LeftProofsVerify(c, ciphertexts, [long, short], [vk', vk], proofContext, width, 0)
  {
    hide Rem, ProofsVerify;
    assert [long, short][..1] == [long];
    assert long[..2] == long && ciphertexts[..2] == ciphertexts;
  }

  /** Such factors exist, for any two ciphertexts and any two recipients. */
  lemma OrderDecidesSuccess<E(!new)>(c: Context<E>, ciphertexts: seq<Ciphertext<E>>, f: Polynomial, p: Position,
                                     p': Position, proofContext: ByteString, width: nat)
    returns (short: seq<DecryptionFactor<E>>, long: seq<DecryptionFactor<E>>, vk: E, vk': E)
    requires c.Valid() && HashTotal(c) && |ciphertexts| == 2 && AllWide(ciphertexts, width)
    requires 0 <= p < c.q && 0 <= p' < c.q
    ensures Typed(c, ciphertexts, [short, long], [vk, vk'], width)
    ensures Typed(c, ciphertexts, [long, short], [vk', vk], width)
    ensures multiset(Trustees([short, long], [vk, vk'])) == multiset(Trustees([long, short], [vk', vk]))
    ensures Combined(c, ciphertexts, [short, long], [vk, vk'], proofContext, width).Ok?
    ensures Combined(c, ciphertexts, [long, short], [vk', vk], proofContext, width).Err?
  {
    hide *;
    var honest: seq<DecryptionFactor<E>>;
    honest, vk := HonestVector(c, ciphertexts, f, p, proofContext, width);
    long, vk' := HonestVector(c, ciphertexts, f, p', proofContext, width);
    short := honest[..1];
    ShortFromHonest(c, ciphertexts, honest, vk, proofContext, width);
    long := BadFromHonest(c, ciphertexts, long, vk', proofContext, width);
    ShortVectorHidesProof(c, ciphertexts, short, long, vk, vk', proofContext, width);
  }

  ghost predicate Honest<E(!new)>(c: Context<E>, ciphertexts: seq<Ciphertext<E>>, factors: seq<DecryptionFactor<E>>,
                                  vk: E, proofContext: ByteString, width: nat)
    requires c.q > 0 && |ciphertexts| == 2 && AllWide(ciphertexts, width)
  {
    && |factors| == 2 && FactorsWide(factors, width) && 0 <= factors[0].source < c.q
    && ProofsVerify(c, ciphertexts, factors, vk, proofContext, width)
  }

  lemma HonestVector<E(!new)>(c: Context<E>, ciphertexts: seq<Ciphertext<E>>, f: Polynomial, p: Position,
                              proofContext: ByteString, width: nat)
    returns (factors: seq<DecryptionFactor<E>>, vk: E)
    requires c.Valid() && HashTotal(c) && |ciphertexts| == 2 && AllWide(ciphertexts, width) && 0 <= p < c.q
    ensures |factors| == 2 && c.q > 0 && Honest(c, ciphertexts, factors, vk, proofContext, width)
  {
    hide Rem, DecryptionFactors, Verify, ProofsVerify, Value, HashTotal;
    var key := KeysAt(c, f, [p])[0];
    KeysAtAreShares(c, f, [p]);
    FactorsSucceed(c, key, ciphertexts, proofContext, [0, 0]);
    factors, vk := DecryptionFactors(c, key, ciphertexts, proofContext, [0, 0]).value, key.verificationKey;
    HonestFactors(c, ciphertexts, key, f, proofContext, [0, 0], width);
    HonestRow(c, ciphertexts, factors, key, f, proofContext, width);
  }

  lemma ShortFromHonest<E(!new)>(c: Context<E>, ciphertexts: seq<Ciphertext<E>>, factors: seq<DecryptionFactor<E>>,
                                 vk: E, proofContext: ByteString, width: nat)
    requires c.q > 0 && |ciphertexts| == 2 && AllWide(ciphertexts, width)
    requires Honest(c, ciphertexts, factors, vk, proofContext, width)
    ensures Short(c, ciphertexts, factors[..1], vk, proofContext, width)
  {
    hide Rem, Verify;
  }

  lemma BadFromHonest<E(!new)>(c: Context<E>, ciphertexts: seq<Ciphertext<E>>, factors: seq<DecryptionFactor<E>>,
                               vk: E, proofContext: ByteString, width: nat)
    returns (bad: seq<DecryptionFactor<E>>)
    requires c.Valid() && |ciphertexts| == 2 && AllWide(ciphertexts, width)
    requires Honest(c, ciphertexts, factors, vk, proofContext, width)
    ensures c.q > 0 && BadSecond(c, ciphertexts, bad, vk, proofContext, width)
  {
    hide Rem, Verify;
    var second := ChangedResponse(c, ciphertexts[1], factors[1], vk, proofContext);
    bad := [factors[0], second];
    assert bad[..1] == [factors[0]] == factors[..1];
    assert bad[1] == second;
  }
}
