/** The order in which the trustees' factors are combined makes no difference. */
module CombineOrder {
  import opened Bytes
  import opened CombineLengths
  import opened Decryption
  import opened Elgamal
  import opened Groups
  import opened Lagrange
  import opened Modular
  import opened Permutations
  import opened Recipient
  import opened Results
  import opened ThresholdDecryption

  /** A trustee's factors with its verification key. */
  type Trustee<E> = (seq<DecryptionFactor<E>>, E)

  function Trustees<E>(dfactors: seq<seq<DecryptionFactor<E>>>, verificationKeys: seq<E>): (ts: seq<Trustee<E>>)
    requires |dfactors| == |verificationKeys|
    ensures |ts| == |dfactors|
    ensures forall i | 0 <= i < |ts| :: ts[i] == (dfactors[i], verificationKeys[i])
  {
    seq(|dfactors|, i requires 0 <= i < |dfactors| => (dfactors[i], verificationKeys[i]))
  }

  function Source<E>(t: Trustee<E>): Position {
    if t.0 == [] then 0 else t.0[0].source
  }

  lemma {:induction false} MapMultiset<X, Y>(f: X -> Y, xs: seq<X>, ys: seq<X>)
    requires multiset(xs) == multiset(ys)
    ensures multiset(Map(f, xs)) == multiset(Map(f, ys))
    decreases |xs|
  {
    if xs == [] {
      assert |multiset(ys)| == 0;
      assert ys == [];
    } else {
      var n := |xs| - 1;
      var j := RemoveLast(xs, ys);
      var rest := ys[..j] + ys[j + 1..];
      MapMultiset(f, xs[..n], rest);
      assert Map(f, xs) == Map(f, xs[..n]) + [f(xs[n])];
      assert Map(f, ys) == Map(f, ys[..j]) + [f(ys[j])] + Map(f, ys[j + 1..]);
      assert Map(f, rest) == Map(f, ys[..j]) + Map(f, ys[j + 1..]);
    }
  }

  /** One component of a trustee's factor for ciphertext k, to the power of its coefficient. */
  ghost function Component<E(!new)>(c: Context<E>, t: Trustee<E>, present: seq<Position>, k: nat, width: nat,
                                    j: nat): E {
    if c.Valid() && InRange(c.q, present) && FactorAt(c.q, t.0, k, width) && j < width then
      c.Exp(t.0[k].value[j], Coefficient(c.q, t.0[0].source, present))
    else
      c.one
  }

  lemma MulCommutes<E(!new)>(c: Context<E>, x: E, y: E)
    requires c.Valid()
    ensures c.mul(x, y) == c.mul(y, x)
  {
    hide Rem;
    LogMul(c, x, y);
    LogMul(c, y, x);
    LogInjective(c, c.mul(x, y), c.mul(y, x));
  }

  /** A component of the divisor is the product of the trustees' components. */
  lemma {:induction false} DivisorIsProduct<E(!new)>(c: Context<E>, dfactors: seq<seq<DecryptionFactor<E>>>,
                                                     verificationKeys: seq<E>, present: seq<Position>, k: nat,
                                                     width: nat,
                                                     j: nat)
    requires c.Valid() && InRange(c.q, present) && |dfactors| == |verificationKeys| && j < width
    requires forall i | 0 <= i < |dfactors| :: FactorAt(c.q, dfactors[i], k, width)
    ensures DivisorAt(c, dfactors, present, k, width)[j]
         == Product(c, Map(t => Component(c, t, present, k, width, j), Trustees(dfactors, verificationKeys)))
    decreases |dfactors|
  {
    hide Rem, Coefficient;
    var f := t => Component(c, t, present, k, width, j);
    var ts := Trustees(dfactors, verificationKeys);
    if dfactors != [] {
      hide Component, DivisorAt;
      var n := |dfactors| - 1;
      DivisorIsProduct(c, dfactors[..n], verificationKeys[..n], present, k, width, j);
      assert Map(f, ts)[..n] == Map(f, Trustees(dfactors[..n], verificationKeys[..n]));
      DivisorComponent(c, dfactors, verificationKeys, present, k, width, j);
    }
  }

  lemma DivisorComponent<E(!new)>(c: Context<E>, dfactors: seq<seq<DecryptionFactor<E>>>, verificationKeys: seq<E>,
                                  present: seq<Position>, k: nat, width: nat, j: nat)
    requires c.Valid() && InRange(c.q, present) && 0 < |dfactors| == |verificationKeys| && j < width
    requires forall i | 0 <= i < |dfactors| :: FactorAt(c.q, dfactors[i], k, width)
    ensures DivisorAt(c, dfactors, present, k, width)[j]
         == c.mul(DivisorAt(c, dfactors[..|dfactors| - 1], present, k, width)[j],
                  Component(c, Trustees(dfactors, verificationKeys)[|dfactors| - 1], present, k, width, j))
  {
    hide Rem, Coefficient;
    var n := |dfactors| - 1;
    assert FactorAt(c.q, dfactors[n], k, width);
    MulCommutes(c, Component(c, Trustees(dfactors, verificationKeys)[n], present, k, width, j),
                DivisorAt(c, dfactors[..n], present, k, width)[j]);
  }

  lemma DivisorPermuted<E(!new)>(c: Context<E>, dfactors: seq<seq<DecryptionFactor<E>>>, verificationKeys: seq<E>,
                                 dfactors': seq<seq<DecryptionFactor<E>>>, verificationKeys': seq<E>,
                                 present: seq<Position>, present': seq<Position>, k: nat, width: nat)
    requires c.Valid() && InRange(c.q, present) && InRange(c.q, present') && multiset(present) == multiset(present')
    requires |dfactors| == |verificationKeys| && |dfactors'| == |verificationKeys'|
    requires forall i | 0 <= i < |dfactors| :: FactorAt(c.q, dfactors[i], k, width)
    requires forall i | 0 <= i < |dfactors'| :: FactorAt(c.q, dfactors'[i], k, width)
    requires multiset(Trustees(dfactors, verificationKeys)) == multiset(Trustees(dfactors', verificationKeys'))
    ensures DivisorAt(c, dfactors, present, k, width) == DivisorAt(c, dfactors', present', k, width)
  {
    hide Rem, Coefficient, DivisorAt;
    var ts, ts' := Trustees(dfactors, verificationKeys), Trustees(dfactors', verificationKeys');
    forall j | 0 <= j < width
      ensures DivisorAt(c, dfactors, present, k, width)[j] == DivisorAt(c, dfactors', present', k, width)[j]
    {
      DivisorIsProduct(c, dfactors, verificationKeys, present, k, width, j);
      DivisorIsProduct(c, dfactors', verificationKeys', present', k, width, j);
      var f, f' := t => Component(c, t, present, k, width, j), t => Component(c, t, present', k, width, j);
      ProductPermuted(c, f, ts, ts');
      forall i | 0 <= i < |ts'| ensures Map(f, ts')[i] == Map(f', ts')[i] {
        assert FactorAt(c.q, dfactors'[i], k, width);
        CoefficientPermuted(c.q, Source(ts'[i]), present, present');
      }
      assert Map(f, ts') == Map(f', ts');
    }
  }

  /** No trustee gives fewer factors than there are ciphertexts. */
  ghost predicate NoneShort<E(!new)>(ciphertexts: seq<Ciphertext<E>>, dfactors: seq<seq<DecryptionFactor<E>>>) {
    forall i | 0 <= i < |dfactors| :: |ciphertexts| <= |dfactors[i]|
  }

  lemma LeftPermuted<E(!new)>(count: nat, dfactors: seq<seq<DecryptionFactor<E>>>, verificationKeys: seq<E>,
                              dfactors': seq<seq<DecryptionFactor<E>>>, verificationKeys': seq<E>)
    requires |dfactors| == |verificationKeys| && |dfactors'| == |verificationKeys'|
    requires multiset(Trustees(dfactors, verificationKeys)) == multiset(Trustees(dfactors', verificationKeys'))
    ensures Left(count, dfactors) <= Left(count, dfactors')
  {
    hide Left;
    if Left(count, dfactors') != count {
      var i :| 0 <= i < |dfactors'| && Left(count, dfactors') == |dfactors'[i]|;
      var m := TrusteeAt(dfactors', verificationKeys', dfactors, verificationKeys, i);
    }
  }

  /** Where a trustee is in another order. */
  lemma TrusteeAt<E(!new)>(dfactors: seq<seq<DecryptionFactor<E>>>, verificationKeys: seq<E>,
                           dfactors': seq<seq<DecryptionFactor<E>>>, verificationKeys': seq<E>, i: nat)
    returns (m: nat)
    requires |dfactors| == |verificationKeys| && |dfactors'| == |verificationKeys'| && i < |dfactors|
    requires multiset(Trustees(dfactors, verificationKeys)) == multiset(Trustees(dfactors', verificationKeys'))
    ensures m < |dfactors'| && dfactors'[m] == dfactors[i] && verificationKeys'[m] == verificationKeys[i]
  {
    var ts, ts' := Trustees(dfactors, verificationKeys), Trustees(dfactors', verificationKeys');
    assert ts[i] in multiset(ts');
    m :| 0 <= m < |ts'| && ts'[m] == ts[i];
  }

  lemma LeftProofs<E(!new)>(c: Context<E>, ciphertexts: seq<Ciphertext<E>>, dfactors: seq<seq<DecryptionFactor<E>>>,
                            verificationKeys: seq<E>, proofContext: ByteString, width: nat, i: nat)
    requires Typed(c, ciphertexts, dfactors, verificationKeys, width) && i < |dfactors|
         && NoneShort(ciphertexts, dfactors)
    ensures LeftProofsVerify(c, ciphertexts, dfactors, verificationKeys, proofContext, width, i)
         == ProofsVerify(c, ciphertexts, dfactors[i][..|ciphertexts|], verificationKeys[i], proofContext, width)
  {
    hide Rem, ProofsVerify, Left;
    var n := Left(|ciphertexts|, dfactors[..i + 1]);
    assert n == |ciphertexts|;
    assert ciphertexts[..n] == ciphertexts;
  }

  lemma ProofsPermuted<E(!new)>(c: Context<E>, ciphertexts: seq<Ciphertext<E>>, dfactors: seq<seq<DecryptionFactor<E>>>,
                                verificationKeys: seq<E>, dfactors': seq<seq<DecryptionFactor<E>>>,
                                verificationKeys': seq<E>, proofContext: ByteString, width: nat)
    requires Typed(c, ciphertexts, dfactors, verificationKeys, width)
    requires Typed(c, ciphertexts, dfactors', verificationKeys', width)
    requires multiset(Trustees(dfactors, verificationKeys)) == multiset(Trustees(dfactors', verificationKeys'))
    requires NoneShort(ciphertexts, dfactors)
    requires AllLeftProofsVerify(c, ciphertexts, dfactors, verificationKeys, proofContext, width)
    ensures NoneShort(ciphertexts, dfactors')
    ensures AllLeftProofsVerify(c, ciphertexts, dfactors', verificationKeys', proofContext, width)
  {
    hide Rem, ProofsVerify, LeftProofsVerify, FactorsWide;
    forall i | 0 <= i < |dfactors'| ensures |ciphertexts| <= |dfactors'[i]| {
      var m := TrusteeAt(dfactors', verificationKeys', dfactors, verificationKeys, i);
    }
    forall i | 0 <= i < |dfactors'|
      ensures LeftProofsVerify(c, ciphertexts, dfactors', verificationKeys', proofContext, width, i)
    {
      var m := TrusteeAt(dfactors', verificationKeys', dfactors, verificationKeys, i);
      LeftProofs(c, ciphertexts, dfactors', verificationKeys', proofContext, width, i);
      LeftProofs(c, ciphertexts, dfactors, verificationKeys, proofContext, width, m);
    }
  }

  lemma SourcesPermuted<E(!new)>(dfactors: seq<seq<DecryptionFactor<E>>>, verificationKeys: seq<E>,
                                 dfactors': seq<seq<DecryptionFactor<E>>>, verificationKeys': seq<E>)
    requires |dfactors| == |verificationKeys| && |dfactors'| == |verificationKeys'|
    requires forall i | 0 <= i < |dfactors| :: dfactors[i] != []
    requires forall i | 0 <= i < |dfactors'| :: dfactors'[i] != []
    requires multiset(Trustees(dfactors, verificationKeys)) == multiset(Trustees(dfactors', verificationKeys'))
    ensures multiset(Sources(dfactors)) == multiset(Sources(dfactors'))
  {
    var ts, ts' := Trustees(dfactors, verificationKeys), Trustees(dfactors', verificationKeys');
    var source := (t: Trustee<E>) => Source(t);
    MapMultiset(source, ts, ts');
    assert Sources(dfactors) == Map(source, ts) && Sources(dfactors') == Map(source, ts');
  }

  /** For any factors, honest or not and of any lengths, permuting the trustees together with
    * their verification keys does not change the plaintexts; nor does it change success, unless
    * a trustee's vector is short. */
  lemma CombineOrderIrrelevant<E(!new)>(c: Context<E>, ciphertexts: seq<Ciphertext<E>>,
                                        dfactors: seq<seq<DecryptionFactor<E>>>, verificationKeys: seq<E>,
                                        dfactors': seq<seq<DecryptionFactor<E>>>, verificationKeys': seq<E>,
                                        proofContext: ByteString, width: nat)
    requires c.Valid()
    requires Typed(c, ciphertexts, dfactors, verificationKeys, width)
    requires Typed(c, ciphertexts, dfactors', verificationKeys', width)
    requires multiset(Trustees(dfactors, verificationKeys)) == multiset(Trustees(dfactors', verificationKeys'))
    ensures var r, r' := Combined(c, ciphertexts, dfactors, verificationKeys, proofContext, width),
                         Combined(c, ciphertexts, dfactors', verificationKeys', proofContext, width);
            && (r.Ok? && r'.Ok? ==> r == r')
            && (NoneShort(ciphertexts, dfactors) ==> (r.Ok? <==> r'.Ok?))
  {
    hide Rem, Combined, ProofsVerify, DivisorAt, Coefficient, AllLeftProofsVerify, PlaintextsAre, Left, FactorsWide;
    CombinedLeft(c, ciphertexts, dfactors, verificationKeys, proofContext, width);
    CombinedLeft(c, ciphertexts, dfactors', verificationKeys', proofContext, width);
    var r, r' := Combined(c, ciphertexts, dfactors, verificationKeys, proofContext, width),
                 Combined(c, ciphertexts, dfactors', verificationKeys', proofContext, width);
    if r.Ok? && r'.Ok? {
      LeftPermuted(|ciphertexts|, dfactors, verificationKeys, dfactors', verificationKeys');
      LeftPermuted(|ciphertexts|, dfactors', verificationKeys', dfactors, verificationKeys);
      PlaintextsPermuted(c, r.value, r'.value, ciphertexts, dfactors, verificationKeys, dfactors', verificationKeys',
                         width);
    }
    if NoneShort(ciphertexts, dfactors) {
      if r.Ok? {
        ProofsPermuted(c, ciphertexts, dfactors, verificationKeys, dfactors', verificationKeys', proofContext, width);
      }
      if r'.Ok? {
        NoneShortPermuted(ciphertexts, dfactors, verificationKeys, dfactors', verificationKeys');
        ProofsPermuted(c, ciphertexts, dfactors', verificationKeys', dfactors, verificationKeys, proofContext, width);
      }
    }
  }

  lemma NoneShortPermuted<E(!new)>(ciphertexts: seq<Ciphertext<E>>, dfactors: seq<seq<DecryptionFactor<E>>>,
                                   verificationKeys: seq<E>, dfactors': seq<seq<DecryptionFactor<E>>>,
                                   verificationKeys': seq<E>)
    requires |dfactors| == |verificationKeys| && |dfactors'| == |verificationKeys'| && NoneShort(ciphertexts, dfactors)
    requires multiset(Trustees(dfactors, verificationKeys)) == multiset(Trustees(dfactors', verificationKeys'))
    ensures NoneShort(ciphertexts, dfactors')
  {
    forall i | 0 <= i < |dfactors'| ensures |ciphertexts| <= |dfactors'[i]| {
      var m := TrusteeAt(dfactors', verificationKeys', dfactors, verificationKeys, i);
    }
  }

  lemma PlaintextsPermuted<E(!new)>(c: Context<E>, ms: seq<seq<E>>, ms': seq<seq<E>>, ciphertexts: seq<Ciphertext<E>>,
                                    dfactors: seq<seq<DecryptionFactor<E>>>, verificationKeys: seq<E>,
                                    dfactors': seq<seq<DecryptionFactor<E>>>, verificationKeys': seq<E>, width: nat)
    requires c.Valid() && AllWide(ciphertexts, width) && |ms| == |ms'| <= |ciphertexts|
    requires |dfactors| == |verificationKeys| && |dfactors'| == |verificationKeys'|
    requires forall i | 0 <= i < |dfactors| :: dfactors[i] != []
    requires forall i | 0 <= i < |dfactors'| :: dfactors'[i] != []
    requires InRange(c.q, Sources(dfactors)) && InRange(c.q, Sources(dfactors'))
    requires multiset(Trustees(dfactors, verificationKeys)) == multiset(Trustees(dfactors', verificationKeys'))
    requires PlaintextsAre(c, ms, ciphertexts, dfactors, width) && PlaintextsAre(c, ms', ciphertexts, dfactors', width)
    ensures ms == ms'
  {
    hide Rem, DivisorAt, Coefficient, FactorAt;
    SourcesPermuted(dfactors, verificationKeys, dfactors', verificationKeys');
    forall k | 0 <= k < |ms| ensures ms[k] == ms'[k] {
      assert ms[k] == c.Mul(ciphertexts[k].v, c.Inv(DivisorAt(c, dfactors, Sources(dfactors), k, width)));
      assert ms'[k] == c.Mul(ciphertexts[k].v, c.Inv(DivisorAt(c, dfactors', Sources(dfactors'), k, width)));
      DivisorPermuted(c, dfactors, verificationKeys, dfactors', verificationKeys', Sources(dfactors),
                      Sources(dfactors'),
                      k, width);
    }
  }
}
