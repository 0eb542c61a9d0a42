/** What the participants hold after distributed key generation. */
module KeyGeneration {
  import opened Dealer
  import opened Groups
  import opened Lagrange
  import opened Modular
  import opened Permutations
  import opened Polynomials
  import opened Recipient
  import opened Results

  /** The sum of the dealers' polynomials. */
  function Joint(fs: seq<Polynomial>): Polynomial {
    if fs == [] then [] else Linear(1, Joint(fs[..|fs| - 1]), 1, fs[|fs| - 1])
  }

  ghost predicate AllLength<T>(xs: seq<seq<T>>, t: nat) {
    forall i | 0 <= i < |xs| :: |xs[i]| == t
  }

  lemma {:induction false} JointLength(fs: seq<Polynomial>, t: nat)
    requires AllLength(fs, t)
    ensures |Joint(fs)| <= t
  {
    if fs != [] {
      JointLength(fs[..|fs| - 1], t);
    }
  }

  /** The polynomials that the dealers' checking values commit to. */
  ghost function AllCommitted<E(!new)>(c: Context<E>, checkingValues: seq<seq<E>>): (fs: seq<Polynomial>)
    requires c.Valid()
    ensures |fs| == |checkingValues|
    ensures forall i | 0 <= i < |fs| :: fs[i] == Committed(c, checkingValues[i])
  {
    seq(|checkingValues|, i requires 0 <= i < |checkingValues| => Committed(c, checkingValues[i]))
  }

  /** The values g(i) add up, up to q, to the value of the joint polynomial. */
  lemma {:induction false} SumOfValues(q: nat, fs: seq<Polynomial>, xs: seq<int>, x: int)
    requires q > 0 && |xs| == |fs|
    requires forall i | 0 <= i < |fs| :: Same(q, xs[i], Value(fs[i], x))
    ensures Same(q, Sum(xs), Value(Joint(fs), x))
  {
    hide Rem;
    if fs != [] {
      var n := |fs| - 1;
      SumOfValues(q, fs[..n], xs[..n], x);
      ValueLinear(1, Joint(fs[..n]), 1, fs[n], x);
      SameAdd(q, Sum(xs[..n]), Value(Joint(fs[..n]), x), xs[n], Value(fs[n], x));
    }
  }

  /** The first checking values multiply to the joint secret in the exponent. */
  lemma JointKey<E(!new)>(c: Context<E>, checkingValues: seq<seq<E>>)
    requires c.Valid() && forall i | 0 <= i < |checkingValues| :: |checkingValues[i]| > 0
    ensures Product(c, FirstValues(checkingValues))
         == c.Exp(c.generator, Value(Joint(AllCommitted(c, checkingValues)), 0))
  {
    hide Rem;
    var fs := AllCommitted(c, checkingValues);
    forall i | 0 <= i < |fs|
      ensures Same(c.q, Logs(c, FirstValues(checkingValues))[i], Value(fs[i], 0))
    {
      ValueAtZero(fs[i]);
    }
    SumOfValues(c.q, fs, Logs(c, FirstValues(checkingValues)), 0);
    LogProduct(c, FirstValues(checkingValues));
    PowerOfLog(c, Product(c, FirstValues(checkingValues)), Value(Joint(fs), 0));
  }

  /** The verification key factors multiply to the joint share in the exponent. */
  lemma JointVerificationKey<E(!new)>(c: Context<E>, checkingValues: seq<seq<E>>, position: Position, t: nat)
    requires c.Valid() && AllLength(checkingValues, t) && PowersAgree(c.q, position, t)
    ensures Product(c, VkFactors(c, checkingValues, position))
         == c.Exp(c.generator, Value(Joint(AllCommitted(c, checkingValues)), position))
  {
    hide Rem, VkFactor;
    var fs := AllCommitted(c, checkingValues);
    var vks := VkFactors(c, checkingValues, position);
    forall i | 0 <= i < |fs|
      ensures Same(c.q, Logs(c, vks)[i], Value(fs[i], position))
    {
      LogVkFactor(c, checkingValues[i], position);
      WrappedIsValue(c.q, fs[i], position);
    }
    SumOfValues(c.q, fs, Logs(c, vks), position);
    LogProduct(c, vks);
    PowerOfLog(c, Product(c, vks), Value(Joint(fs), position));
  }

  lemma PowerOfLog<E(!new)>(c: Context<E>, x: E, s: int)
    requires c.Valid() && Same(c.q, c.Log(x), s)
    ensures x == c.Exp(c.generator, s)
  {
    hide Rem;
    LogOfPower(c, s);
    SameRem(c.q, s);
    LogInjective(c, x, c.Exp(c.generator, s));
  }

  /** After key generation: whatever shares passed the check, the keys of a recipient are those
    * of the polynomial that all checking values together commit to. The joint public key and the
    * verification key are what anyone computes from the checking values alone, so all recipients
    * with the same checking values agree on them. */
  lemma PartiesAgree<E(!new)>(c: Context<E>, shares: seq<VerifiableShare<E>>, position: Position, t: nat,
                              keys: (E, E, int))
    requires c.Valid() && t > 0 && forall i | 0 <= i < |shares| :: |shares[i].checkingValues| == t
    requires PowersAgree(c.q, position, t)
    requires AllVerify(c, shares, position) && Accumulated(c, shares, position, keys)
    ensures var f := Joint(AllCommitted(c, CheckingValuesOf(shares)));
            && keys.0 == c.Exp(c.generator, Value(f, 0))
            && keys.1 == c.Exp(c.generator, Value(f, position))
            && Same(c.q, keys.2, Value(f, position))
            && keys.0 == Product(c, FirstValues(CheckingValuesOf(shares)))
            && keys.1 == Product(c, VkFactors(c, CheckingValuesOf(shares), position))
  {
    hide Rem, VkFactor;
    var checkingValues := CheckingValuesOf(shares);
    JointKey(c, checkingValues);
    JointVerificationKey(c, checkingValues, position, t);
    forall i | 0 <= i < |shares|
      ensures Same(c.q, ValuesOf(shares)[i], Value(AllCommitted(c, checkingValues)[i], position))
    {
      ShareCheckExact(c, shares[i], position);
    }
    SumOfValues(c.q, AllCommitted(c, checkingValues), ValuesOf(shares), position);
  }

  /** The shares of honest dealers for one recipient. */
  function HonestShares<E(==,!new)>(c: Context<E>, fs: seq<Polynomial>, count: nat, position: Position)
    : (shares: seq<VerifiableShare<E>>)
    requires c.q > 0 && 1 <= position <= count
    ensures |shares| == |fs|
  {
    seq(|fs|, i requires 0 <= i < |fs| => ForRecipient(GetVerifiableShares(c, fs[i], count), position))
  }

  /** With honest dealers nothing is rejected, and the keys are those of their joint polynomial. */
  lemma HonestKeyGeneration<E(!new)>(c: Context<E>, fs: seq<Polynomial>, count: nat, position: Position, t: nat,
                                     keys: (E, E, int))
    requires c.Valid() && t > 0 && AllLength(fs, t) && 1 <= position <= count
    requires PowersAgree(c.q, position, t)
    ensures var shares := HonestShares(c, fs, count, position);
            && AllVerify(c, shares, position)
            && (Accumulated(c, shares, position, keys) ==>
                  && keys.0 == c.Exp(c.generator, Value(Joint(fs), 0))
                  && keys.1 == c.Exp(c.generator, Value(Joint(fs), position))
                  && Same(c.q, keys.2, Value(Joint(fs), position)))
  {
    hide Rem, VkFactor;
    var shares := HonestShares(c, fs, count, position);
    forall i | 0 <= i < |shares| ensures VerifyShare(c, shares[i], position).Ok? {
      HonestShare(c, fs[i], count, position);
      ShareCheckExact(c, shares[i], position);
    }
    if Accumulated(c, shares, position, keys) {
      PartiesAgree(c, shares, position, t, keys);
      HonestJoint(c, fs, count, position, 0);
      HonestJoint(c, fs, count, position, position);
      ExpSame(c, Value(Joint(AllCommitted(c, CheckingValuesOf(shares))), 0), Value(Joint(fs), 0));
      ExpSame(c, Value(Joint(AllCommitted(c, CheckingValuesOf(shares))), position), Value(Joint(fs), position));
    }
  }

  lemma ExpSame<E(!new)>(c: Context<E>, s: int, t: int)
    requires c.q > 0 && Same(c.q, s, t)
    ensures c.Exp(c.generator, s) == c.Exp(c.generator, t)
  {
  }

  lemma HonestJoint<E(!new)>(c: Context<E>, fs: seq<Polynomial>, count: nat, position: Position, x: int)
    requires c.Valid() && 1 <= position <= count
    ensures Same(c.q, Value(Joint(AllCommitted(c, CheckingValuesOf(HonestShares(c, fs, count, position)))), x),
                      Value(Joint(fs), x))
  {
    hide Rem;
    var committed := AllCommitted(c, CheckingValuesOf(HonestShares(c, fs, count, position)));
    var xs := seq(|fs|, i requires 0 <= i < |fs| => Value(fs[i], x));
    forall i | 0 <= i < |fs| ensures Same(c.q, xs[i], Value(committed[i], x)) {
      CommittedHonest(c, fs[i], x);
    }
    SumOfValues(c.q, committed, xs, x);
    SumOfValues(c.q, fs, xs, x);
  }

  /** The order in which the dealers' shares arrive makes no difference. */
  lemma DealerOrderIrrelevant<E(!new)>(c: Context<E>, shares: seq<VerifiableShare<E>>, shares': seq<VerifiableShare<E>>,
                                       position: Position, keys: (E, E, int), keys': (E, E, int))
    requires c.Valid() && multiset(shares) == multiset(shares')
    requires forall i | 0 <= i < |shares| :: |shares[i].checkingValues| > 0
    requires forall i | 0 <= i < |shares'| :: |shares'[i].checkingValues| > 0
    ensures AllVerify(c, shares, position) <==> AllVerify(c, shares', position)
    ensures Accumulated(c, shares, position, keys) && Accumulated(c, shares', position, keys')
        ==> keys.0 == keys'.0 && keys.1 == keys'.1 && Same(c.q, keys.2, keys'.2)
  {
    hide Rem, VkFactor;
    SameMembers(c, shares, shares', position);
    SameMembers(c, shares', shares, position);
    var first := (s: VerifiableShare<E>) => if |s.checkingValues| > 0 then s.checkingValues[0] else c.one;
    var vk := (s: VerifiableShare<E>) => if c.q > 0 then VkFactor(c, s.checkingValues, position) else c.one;
    var value := (s: VerifiableShare<E>) => s.value;
    ProductPermuted(c, first, shares, shares');
    ProductPermuted(c, vk, shares, shares');
    SumPermuted(value, shares, shares');
    assert FirstValues(CheckingValuesOf(shares)) == Map(first, shares);
    assert FirstValues(CheckingValuesOf(shares')) == Map(first, shares');
    assert VkFactors(c, CheckingValuesOf(shares), position) == Map(vk, shares);
    assert VkFactors(c, CheckingValuesOf(shares'), position) == Map(vk, shares');
    assert ValuesOf(shares) == Map(value, shares);
    assert ValuesOf(shares') == Map(value, shares');
  }

  lemma SameMembers<E(!new)>(c: Context<E>, shares: seq<VerifiableShare<E>>, shares': seq<VerifiableShare<E>>,
                             position: Position)
    requires c.Valid() && multiset(shares) == multiset(shares')
    requires forall i | 0 <= i < |shares| :: |shares[i].checkingValues| > 0
    requires forall i | 0 <= i < |shares'| :: |shares'[i].checkingValues| > 0
    ensures AllVerify(c, shares, position) ==> AllVerify(c, shares', position)
  {
    forall i | 0 <= i < |shares'| && AllVerify(c, shares, position)
      ensures VerifyShare(c, shares'[i], position).Ok?
    {
      assert shares'[i] in multiset(shares);
      var j :| 0 <= j < |shares| && shares[j] == shares'[i];
    }
  }
}
