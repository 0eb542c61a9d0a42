/** A recipient: checking the shares it is dealt and adding them up. */
module Recipient {
  import opened Dealer
  import opened Groups
  import opened Lagrange
  import opened Modular
  import opened Polynomials
  import opened Results

  const U32_SIZE: nat := 0x1_0000_0000

  /** An integer power in 32-bit arithmetic, wrapping around on overflow. */
  function WrappingPow(base: Position, e: nat): int {
    Rem(U32_SIZE, Power(base, e))
  }

  function Product<E(==,!new)>(c: Context<E>, xs: seq<E>): E {
    if xs == [] then c.one else c.mul(Product(c, xs[..|xs| - 1]), xs[|xs| - 1])
  }

  function Sum(xs: seq<int>): int {
    if xs == [] then 0 else Sum(xs[..|xs| - 1]) + xs[|xs| - 1]
  }

  /** The value at a position of the polynomial behind the checking values, in the exponent. */
  function VkFactor<E(==,!new)>(c: Context<E>, checkingValues: seq<E>, position: Position): E
    requires c.q > 0
  {
    Product(c, seq(|checkingValues|, i requires 0 <= i < |checkingValues| =>
      c.Exp(checkingValues[i], WrappingPow(position, i))))
  }

  /** The public key factor, verification key factor and secret summand of a correct share. */
  function VerifyShare<E(==,!new)>(c: Context<E>, share: VerifiableShare<E>, position: Position): Result<(E, E, int)>
    requires c.q > 0 && |share.checkingValues| > 0
  {
    var vkFactor := VkFactor(c, share.checkingValues, position);
    if c.Exp(c.generator, share.value) != vkFactor then
      Err(ShareVerificationFailed)
    else
      Ok((share.checkingValues[0], vkFactor, share.value))
  }

  predicate AllVerify<E(==,!new)>(c: Context<E>, shares: seq<VerifiableShare<E>>, position: Position)
    requires c.q > 0 && forall i | 0 <= i < |shares| :: |shares[i].checkingValues| > 0
  {
    forall i | 0 <= i < |shares| :: VerifyShare(c, shares[i], position).Ok?
  }

  /** The product of the first checking values of all dealers. */
  function FirstValues<E(==)>(checkingValues: seq<seq<E>>): (r: seq<E>)
    requires forall i | 0 <= i < |checkingValues| :: |checkingValues[i]| > 0
    ensures |r| == |checkingValues|
  {
    seq(|checkingValues|, i requires 0 <= i < |checkingValues| => checkingValues[i][0])
  }

  function VkFactors<E(==,!new)>(c: Context<E>, checkingValues: seq<seq<E>>, position: Position): (r: seq<E>)
    requires c.q > 0
    ensures |r| == |checkingValues|
  {
    seq(|checkingValues|, i requires 0 <= i < |checkingValues| => VkFactor(c, checkingValues[i], position))
  }

  function CheckingValuesOf<E>(shares: seq<VerifiableShare<E>>): (r: seq<seq<E>>)
    ensures |r| == |shares|
    ensures forall i | 0 <= i < |shares| :: r[i] == shares[i].checkingValues
  {
    seq(|shares|, i requires 0 <= i < |shares| => shares[i].checkingValues)
  }

  function ValuesOf<E>(shares: seq<VerifiableShare<E>>): (r: seq<int>)
    ensures |r| == |shares|
    ensures forall i | 0 <= i < |shares| :: r[i] == shares[i].value
  {
    seq(|shares|, i requires 0 <= i < |shares| => shares[i].value)
  }

  /** The joint public key and the verification key are the products of the dealers' factors,
    * and the secret key is the sum of the shares. */
  ghost predicate Accumulated<E(!new)>(c: Context<E>, shares: seq<VerifiableShare<E>>, position: Position,
                                       keys: (E, E, int))
    requires c.q > 0 && forall i | 0 <= i < |shares| :: |shares[i].checkingValues| > 0
  {
    && keys.0 == Product(c, FirstValues(CheckingValuesOf(shares)))
    && keys.1 == Product(c, VkFactors(c, CheckingValuesOf(shares), position))
    && Same(c.q, keys.2, Sum(ValuesOf(shares)))
  }

  /** Verify all shares, accumulating the joint public key, the verification key and the
    * secret key; the first share that fails ends the loop. */
  method VerifyShares<E(==,!new)>(c: Context<E>, position: Position, shares: seq<VerifiableShare<E>>)
    returns (r: Result<(E, E, int)>)
    requires c.q > 0 && forall i | 0 <= i < |shares| :: |shares[i].checkingValues| > 0
    ensures r.Ok? <==> AllVerify(c, shares, position)
    ensures r.Err? ==> r.error == ShareVerificationFailed
    ensures r.Ok? ==> Accumulated(c, shares, position, r.value)
  {
    var jointPk, verificationKey, sk := c.one, c.one, 0;
    hide Rem, VkFactor, Accumulated;
    AccumulatedNone(c, position);
    for i := 0 to |shares|
      invariant forall k | 0 <= k < i :: VerifyShare(c, shares[k], position).Ok?
      invariant Accumulated(c, shares[..i], position, (jointPk, verificationKey, sk))
    {
      var factors :- VerifyShare(c, shares[i], position);
      assert shares[..i + 1] == shares[..i] + [shares[i]];
      AccumulatedStep(c, shares[..i], shares[i], position, (jointPk, verificationKey, sk));
      jointPk := c.mul(jointPk, factors.0);
      verificationKey := c.mul(verificationKey, factors.1);
      sk := Rem(c.q, sk + factors.2);
    }
    assert shares[..|shares|] == shares;
    r := Ok((jointPk, verificationKey, sk));
  }

  lemma AccumulatedNone<E(!new)>(c: Context<E>, position: Position)
    requires c.q > 0
    ensures Accumulated(c, [], position, (c.one, c.one, 0))
  {
  }

  lemma AccumulatedStep<E(!new)>(c: Context<E>, shares: seq<VerifiableShare<E>>, share: VerifiableShare<E>,
                                 position: Position, keys: (E, E, int))
    requires c.q > 0 && forall i | 0 <= i < |shares| :: |shares[i].checkingValues| > 0
    requires |share.checkingValues| > 0
    requires Accumulated(c, shares, position, keys) && VerifyShare(c, share, position).Ok?
    ensures var factors := VerifyShare(c, share, position).value;
            Accumulated(c, shares + [share], position,
                        (c.mul(keys.0, factors.0), c.mul(keys.1, factors.1), Rem(c.q, keys.2 + factors.2)))
  {
    hide Rem, VkFactor;
    var n, all := |shares|, shares + [share];
    var before, after := CheckingValuesOf(shares), CheckingValuesOf(all);
    assert FirstValues(after)[..n] == FirstValues(before);
    assert VkFactors(c, after, position)[..n] == VkFactors(c, before, position);
    assert ValuesOf(all)[..n] == ValuesOf(shares);
    SameAdd(c.q, keys.2, Sum(ValuesOf(shares)), share.value, share.value);
    SameRem(c.q, keys.2 + share.value);
  }

  lemma ProductStep<E(!new)>(c: Context<E>, xs: seq<E>, i: nat)
    requires i < |xs|
    ensures Product(c, xs[..i + 1]) == c.mul(Product(c, xs[..i]), xs[i])
  {
    assert xs[..i + 1][..i] == xs[..i];
  }

  /** A verification key from public data alone. */
  method VerificationKey<E(==,!new)>(c: Context<E>, position: Position, allCheckingValues: seq<seq<E>>) returns (vk: E)
    requires c.q > 0
    ensures vk == Product(c, VkFactors(c, allCheckingValues, position))
  {
    vk := c.one;
    for i := 0 to |allCheckingValues|
      invariant vk == Product(c, VkFactors(c, allCheckingValues, position)[..i])
    {
      ProductStep(c, VkFactors(c, allCheckingValues, position), i);
      vk := c.mul(vk, VkFactor(c, allCheckingValues[i], position));
    }
    assert VkFactors(c, allCheckingValues, position)[..|allCheckingValues|]
        == VkFactors(c, allCheckingValues, position);
  }

  /** The joint public key from public data alone. */
  method JointPublicKey<E(==,!new)>(c: Context<E>, allCheckingValues: seq<seq<E>>) returns (pk: E)
    requires forall i | 0 <= i < |allCheckingValues| :: |allCheckingValues[i]| > 0
    ensures pk == Product(c, FirstValues(allCheckingValues))
  {
    pk := c.one;
    for i := 0 to |allCheckingValues|
      invariant pk == Product(c, FirstValues(allCheckingValues)[..i])
    {
      ProductStep(c, FirstValues(allCheckingValues), i);
      pk := c.mul(pk, allCheckingValues[i][0]);
    }
    assert FirstValues(allCheckingValues)[..|allCheckingValues|] == FirstValues(allCheckingValues);
  }

  // The share check

  /** The exponents that the share check uses are the powers of the position. */
  ghost predicate PowersAgree(q: nat, position: Position, t: nat)
    requires q > 0
  {
    forall i: nat | i < t :: PowerAgrees(q, position, i)
  }

  ghost predicate PowerAgrees(q: nat, position: Position, i: nat)
    requires q > 0
  {
    Same(q, WrappingPow(position, i), Power(position, i))
  }

  /** The sum of f[i] times the 32-bit power of the position, over the first n coefficients. */
  ghost function WrappedValue(f: Polynomial, position: Position): int {
    if f == [] then
      0
    else
      var n := |f| - 1;
      WrappedValue(f[..n], position) + f[n] * WrappingPow(position, n)
  }

  lemma VkFactorSnoc<E(!new)>(c: Context<E>, checkingValues: seq<E>, position: Position)
    requires c.q > 0 && checkingValues != []
    ensures VkFactor(c, checkingValues, position)
         == c.mul(VkFactor(c, checkingValues[..|checkingValues| - 1], position),
                  c.Exp(checkingValues[|checkingValues| - 1], WrappingPow(position, |checkingValues| - 1)))
  {
    hide Rem;
    var n := |checkingValues| - 1;
    var init := checkingValues[..n];
    var powers := seq(n + 1, i requires 0 <= i < n + 1 => c.Exp(checkingValues[i], WrappingPow(position, i)));
    assert powers[..n] == seq(n, i requires 0 <= i < n => c.Exp(init[i], WrappingPow(position, i)));
    assert VkFactor(c, checkingValues, position) == Product(c, powers);
  }

  lemma {:induction false} LogVkFactor<E(!new)>(c: Context<E>, checkingValues: seq<E>, position: Position)
    requires c.Valid()
    ensures Same(c.q, c.Log(VkFactor(c, checkingValues, position)),
                      WrappedValue(Committed(c, checkingValues), position))
  {
    if checkingValues == [] {
      LogOne(c);
    } else {
      hide Rem, VkFactor;
      var n := |checkingValues| - 1;
      var init, x := checkingValues[..n], checkingValues[n];
      var e := WrappingPow(position, n);
      LogVkFactor(c, init, position);
      VkFactorSnoc(c, checkingValues, position);
      assert Committed(c, checkingValues)[..n] == Committed(c, init);
      LogMul(c, VkFactor(c, init, position), c.Exp(x, e));
      LogExp(c, x, e);
      SameRem(c.q, c.Log(x) * e);
      SameAdd(c.q, c.Log(VkFactor(c, init, position)), WrappedValue(Committed(c, init), position),
              c.Log(c.Exp(x, e)), c.Log(x) * e);
      SameRem(c.q, c.Log(VkFactor(c, init, position)) + c.Log(c.Exp(x, e)));
    }
  }

  lemma {:induction false} WrappedIsValue(q: nat, f: Polynomial, position: Position)
    requires q > 0 && PowersAgree(q, position, |f|)
    ensures Same(q, WrappedValue(f, position), Value(f, position))
  {
    hide Rem;
    if f != [] {
      var n := |f| - 1;
      WrappedIsValue(q, f[..n], position);
      assert PowerAgrees(q, position, n);
      assert f == f[..n] + [f[n]];
      ValueSnoc(f[..n], f[n], position);
      SameMul(q, f[n], f[n], WrappingPow(position, n), Power(position, n));
      SameAdd(q, WrappedValue(f[..n], position), Value(f[..n], position),
              f[n] * WrappingPow(position, n), f[n] * Power(position, n));
    }
  }

  /** For any checking values, the one scalar accepted at a position is the value there of the
    * polynomial they commit to. */
  lemma ShareCheckExact<E(!new)>(c: Context<E>, share: VerifiableShare<E>, position: Position)
    requires c.Valid() && |share.checkingValues| > 0
    requires PowersAgree(c.q, position, |share.checkingValues|)
    ensures VerifyShare(c, share, position).Ok?
       <==> Same(c.q, share.value, Value(Committed(c, share.checkingValues), position))
  {
    hide Rem;
    ShareCheckLog(c, share, position);
    WrappedIsValue(c.q, Committed(c, share.checkingValues), position);
  }

  lemma ShareCheckLog<E(!new)>(c: Context<E>, share: VerifiableShare<E>, position: Position)
    requires c.Valid() && |share.checkingValues| > 0
    ensures VerifyShare(c, share, position).Ok?
       <==> Same(c.q, share.value, WrappedValue(Committed(c, share.checkingValues), position))
  {
    hide Rem;
    var vk := VkFactor(c, share.checkingValues, position);
    LogVkFactor(c, share.checkingValues, position);
    LogOfPower(c, share.value);
    SameRem(c.q, share.value);
    if Same(c.q, share.value, c.Log(vk)) {
      LogInjective(c, c.Exp(c.generator, share.value), vk);
    }
  }

  /** Wrapping around takes a power modulo 2^32, as multiplying step by step does. */
  lemma {:induction false} WrappingPowExactly(base: Position, e: nat)
    ensures 0 <= WrappingPow(base, e) < U32_SIZE && Same(U32_SIZE, WrappingPow(base, e), Power(base, e))
    ensures WrappingPow(base, 0) == 1
    ensures Same(U32_SIZE, WrappingPow(base, e + 1), base * WrappingPow(base, e))
  {
    hide Rem;
    SameRem(U32_SIZE, Power(base, e));
    SameRem(U32_SIZE, Power(base, e + 1));
    RemSmall(U32_SIZE, 1);
    SameMul(U32_SIZE, base, base, Power(base, e), WrappingPow(base, e));
  }

  ghost predicate HonestShareAccepted<E(!new)>(c: Context<E>, f: Polynomial, count: nat, position: Position)
    requires c.Valid() && |f| > 0 && 1 <= position <= count
  {
    VerifyShare(c, ForRecipient(GetVerifiableShares(c, f, count), position), position).Ok?
  }

  /** Recipients accept every honest dealer exactly when their 32-bit powers are right. */
  lemma HonestDealersAccepted<E(!new)>(c: Context<E>, t: nat, count: nat, position: Position)
    requires c.Valid() && t > 0 && 1 <= position <= count
    ensures (forall f: Polynomial | |f| == t :: HonestShareAccepted(c, f, count, position))
       <==> PowersAgree(c.q, position, t)
  {
    hide Rem;
    if PowersAgree(c.q, position, t) {
      forall f: Polynomial | |f| == t ensures HonestShareAccepted(c, f, count, position) {
        HonestShare(c, f, count, position);
        ShareCheckExact(c, ForRecipient(GetVerifiableShares(c, f, count), position), position);
      }
    } else {
      var i: nat :| i < t && !PowerAgrees(c.q, position, i);
      MonomialRejected(c, t, i, count, position);
    }
  }

  lemma HonestShare<E(!new)>(c: Context<E>, f: Polynomial, count: nat, position: Position)
    requires c.Valid() && 1 <= position <= count
    ensures var share := ForRecipient(GetVerifiableShares(c, f, count), position);
            && Same(c.q, share.value, Value(f, position))
            && Same(c.q, share.value, Value(Committed(c, share.checkingValues), position))
  {
    hide Rem;
    SameRem(c.q, Value(f, position));
    CommittedHonest(c, f, position);
  }

  function Monomial(t: nat, i: nat): (f: Polynomial)
    ensures |f| == t
  {
    seq(t, k => if k == i then 1 else 0)
  }

  lemma {:induction false} MonomialValue(t: nat, i: nat, x: Position)
    ensures Value(Monomial(t, i), x) == if i < t then Power(x, i) else 0
    ensures WrappedValue(Monomial(t, i), x) == if i < t then WrappingPow(x, i) else 0
  {
    hide Rem;
    if t > 0 {
      MonomialValue(t - 1, i, x);
      var f := Monomial(t, i);
      assert f[..t - 1] == Monomial(t - 1, i);
      assert f == Monomial(t - 1, i) + [f[t - 1]];
      ValueSnoc(Monomial(t - 1, i), f[t - 1], x);
    }
  }

  lemma MonomialRejected<E(!new)>(c: Context<E>, t: nat, i: nat, count: nat, position: Position)
    requires c.Valid() && i < t && 1 <= position <= count
    requires !PowerAgrees(c.q, position, i)
    ensures !HonestShareAccepted(c, Monomial(t, i), count, position)
  {
    hide Rem;
    var f := Monomial(t, i);
    var share := ForRecipient(GetVerifiableShares(c, f, count), position);
    HonestShare(c, f, count, position);
    MonomialValue(t, i, position);
    ShareCheckLog(c, share, position);
    forall k | 0 <= k < t ensures Same(c.q, Committed(c, share.checkingValues)[k], f[k]) {
      LogOfPower(c, f[k]);
      SameRem(c.q, f[k]);
    }
    WrappedSame(c.q, Committed(c, share.checkingValues), f, position);
  }

  lemma {:induction false} WrappedSame(q: nat, f: Polynomial, g: Polynomial, x: Position)
    requires q > 0 && |f| == |g|
    requires forall i | 0 <= i < |f| :: Same(q, f[i], g[i])
    ensures Same(q, WrappedValue(f, x), WrappedValue(g, x))
  {
    hide Rem;
    if f != [] {
      var n := |f| - 1;
      WrappedSame(q, f[..n], g[..n], x);
      SameMul(q, f[n], g[n], WrappingPow(x, n), WrappingPow(x, n));
      SameAdd(q, WrappedValue(f[..n], x), WrappedValue(g[..n], x),
              f[n] * WrappingPow(x, n), g[n] * WrappingPow(x, n));
    }
  }

  // When 32 bits are enough

  lemma {:induction false} PowerMonotone(base: int, base': int, i: nat, j: nat)
    requires 1 <= base <= base' && i <= j
    ensures 1 <= Power(base, i) <= Power(base', j)
    decreases j
  {
    if i < j {
      PowerMonotone(base, base', i, j - 1);
      ProductGrows(Power(base, i), Power(base', j - 1), base');
    } else if j > 0 {
      PowerMonotone(base, base', i - 1, j - 1);
      ProductMonotone(base, base', Power(base, i - 1), Power(base', j - 1));
    }
  }

  lemma ProductGrows(a: int, b: int, k: int)
    requires 1 <= a <= b && 1 <= k
    ensures a <= k * b
  {
    assert k * b == b + (k - 1) * b;
  }

  lemma ProductMonotone(a: int, a': int, b: int, b': int)
    requires 1 <= a <= a' && 1 <= b <= b'
    ensures 1 <= a * b <= a' * b'
  {
    assert a' * b' - a * b == a' * (b' - b) + (a' - a) * b;
    assert a' * (b' - b) >= 0 && (a' - a) * b >= 0;
    assert a * b == b + (a - 1) * b;
  }

  /** The first power that leaves 32 bits leaves them by less than one factor, so it is still
    * below the group order, where the wrapped power is another scalar. */
  lemma {:induction false} FirstOverflow(q: nat, position: Position, n: nat) returns (i: nat)
    requires position >= 1 && Power(position, n) >= U32_SIZE
    requires U32_SIZE * position <= q || Power(position, n) < q
    ensures 0 < i <= n && U32_SIZE <= Power(position, i)
    ensures Power(position, i) < U32_SIZE * position && Power(position, i) <= Power(position, n)
    decreases n
  {
    assert n > 0;
    if Power(position, n - 1) < U32_SIZE {
      i := n;
      ProductBelow(position, Power(position, n - 1), U32_SIZE);
    } else {
      PowerMonotone(position, position, n - 1, n);
      i := FirstOverflow(q, position, n - 1);
    }
  }

  lemma ProductBelow(k: int, a: int, b: int)
    requires k >= 1 && a < b
    ensures k * a < b * k
  {
    assert b * k - k * a == k * (b - a);
    assert k * (b - a) >= b - a;
  }

  /** If the largest power fits 32 bits, the share check is right; and only then, whenever the
    * group order is at least 2^32 times the position or larger than that power. */
  lemma PowersAgreeWhenTheyFit(q: nat, position: Position, t: nat)
    requires q > U32_SIZE && t > 0 && position >= 1
    ensures Power(position, t - 1) < U32_SIZE ==> PowersAgree(q, position, t)
    ensures U32_SIZE * position <= q || Power(position, t - 1) < q
        ==> (PowersAgree(q, position, t) <==> Power(position, t - 1) < U32_SIZE)
  {
    hide Rem;
    if Power(position, t - 1) < U32_SIZE {
      forall i: nat | i < t ensures PowerAgrees(q, position, i) {
        PowerMonotone(position, position, i, t - 1);
        RemSmall(U32_SIZE, Power(position, i));
      }
    } else if U32_SIZE * position <= q || Power(position, t - 1) < q {
      var i := FirstOverflow(q, position, t - 1);
      RemSmall(q, Power(position, i));
      RemSmall(q, WrappingPow(position, i));
      assert !PowerAgrees(q, position, i);
    }
  }

  /** In a group of order at least 2^32 times the position, every honest dealer is accepted
    * exactly when the largest power of the position fits 32 bits. */
  lemma HonestDealersAcceptedWithin32Bits<E(!new)>(c: Context<E>, t: nat, count: nat, position: Position)
    requires c.Valid() && t > 0 && 1 <= position <= count && U32_SIZE * position <= c.q
    ensures (forall f: Polynomial | |f| == t :: HonestShareAccepted(c, f, count, position))
       <==> Power(position, t - 1) < U32_SIZE
  {
    hide Rem;
    PowersAgreeWhenTheyFit(c.q, position, t);
    HonestDealersAccepted(c, t, count, position);
  }

  /** At most ten participants, or a threshold of at most five, are always within 32 bits. */
  lemma SmallElectionsFit(position: Position, t: nat, count: nat)
    requires 1 <= position <= count < 100 && 0 < t <= count
    requires count <= 10 || t <= 5
    ensures Power(position, t - 1) < U32_SIZE
  {
    if count <= 10 {
      PowerMonotone(position, 10, t - 1, 9);
      assert Power(10, 9) == 1_000_000_000;
    } else {
      PowerMonotone(position, 99, t - 1, 4);
      assert Power(99, 4) == 96059601;
    }
  }

  /** Eleven participants with a threshold of eleven are not: the last one rejects some
    * honest dealer, in every group larger than 11 to the tenth. */
  lemma ElevenOfElevenFails<E(!new)>(c: Context<E>)
    requires c.Valid() && c.q > 25937424601
    ensures !(forall f: Polynomial | |f| == 11 :: HonestShareAccepted(c, f, 11, 11))
  {
    hide Rem;
    assert Power(11, 10) == 25937424601;
    PowersAgreeWhenTheyFit(c.q, 11, 11);
    HonestDealersAccepted(c, 11, 11, 11);
  }
}
