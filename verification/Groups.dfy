/** Cryptographic groups of prime order, and the operations lifted to products of groups. */
module Groups {
  import opened Bytes
  import opened Hashing
  import opened Modular

  /** A cryptographic context: a group with a generator, its scalar field of q integers, the
    * serialization of elements, and the map from a finished hash to a scalar. */
  datatype Context<!E(==,!new)> = Context(
    q: nat,
    one: E,
    generator: E,
    mul: (E, E) -> E,
    inv: E -> E,
    exp: (E, nat) -> E,
    ser: E -> ByteString,
    digestToScalar: ByteString -> Option<nat>)
  {
    /** The group is cyclic of prime order q, and 32-bit positions are different scalars. */
    ghost predicate Valid() {
      && IsPrime(q)
      && q > 0x1_0000_0000
      && (forall x: E, y: E, z: E :: Associative(x, y, z))
      && (forall x: E :: HasUnitAndInverse(x))
      && (forall x: E, s: nat :: ExpSteps(x, s))
      && (forall x: E :: Generated(x))
      && (forall s: nat, t: nat :: ExpInjective(s, t))
    }

    ghost predicate Associative(x: E, y: E, z: E) {
      mul(mul(x, y), z) == mul(x, mul(y, z))
    }

    ghost predicate HasUnitAndInverse(x: E) {
      mul(one, x) == x && mul(inv(x), x) == one
    }

    ghost predicate ExpSteps(x: E, s: nat) {
      && exp(x, 0) == one
      && (s < q ==> exp(x, Rem(q, s + 1)) == mul(x, exp(x, s)))
    }

    ghost predicate Generated(x: E) {
      exists s: nat :: s < q && exp(generator, s) == x
    }

    ghost predicate ExpInjective(s: nat, t: nat) {
      s < q && t < q && exp(generator, s) == exp(generator, t) ==> s == t
    }

    /** Exponentiation by a scalar, given by any of its representatives. */
    function Exp(x: E, s: int): E
      requires q > 0
    {
      exp(x, Rem(q, s))
    }

    function HashToScalar(slices: seq<ByteString>, tags: seq<ByteString>): Option<nat> {
      digestToScalar(Stream(slices, tags))
    }

    /** The discrete logarithm, which the laws make a bijection. */
    ghost function Log(x: E): (s: int)
      requires Valid()
      ensures 0 <= s < q && exp(generator, s) == x
    {
      assert Generated(x);
      var s: nat :| s < q && exp(generator, s) == x;
      s
    }

    // Products of groups

    function One(width: nat): (r: seq<E>)
      ensures |r| == width
    {
      seq(width, _ => one)
    }

    function Mul(xs: seq<E>, ys: seq<E>): (r: seq<E>)
      requires |xs| == |ys|
      ensures |r| == |xs|
    {
      seq(|xs|, i requires 0 <= i < |xs| => mul(xs[i], ys[i]))
    }

    function Inv(xs: seq<E>): (r: seq<E>)
      ensures |r| == |xs|
    {
      seq(|xs|, i requires 0 <= i < |xs| => inv(xs[i]))
    }

    /** Every component to the same scalar. */
    function DistExp(xs: seq<E>, s: int): (r: seq<E>)
      requires q > 0
      ensures |r| == |xs|
    {
      seq(|xs|, i requires 0 <= i < |xs| => Exp(xs[i], s))
    }

    /** The same element to every scalar. */
    function ReplExp(x: E, ss: seq<int>): (r: seq<E>)
      requires q > 0
      ensures |r| == |ss|
    {
      seq(|ss|, i requires 0 <= i < |ss| => Exp(x, ss[i]))
    }
  }

  /** Hashing to a scalar always succeeds, as it does for the Ristretto group. */
  ghost predicate HashTotal<E(!new)>(c: Context<E>) {
    forall s: ByteString :: c.digestToScalar(s).Some?
  }

  lemma LogOfPower<E(!new)>(c: Context<E>, s: int)
    requires c.Valid()
    ensures c.Log(c.Exp(c.generator, s)) == Rem(c.q, s)
  {
    assert c.ExpInjective(Rem(c.q, s), c.Log(c.Exp(c.generator, s)));
  }

  lemma LogInjective<E(!new)>(c: Context<E>, x: E, y: E)
    requires c.Valid() && Same(c.q, c.Log(x), c.Log(y))
    ensures x == y
  {
    hide Rem;
    RemSmall(c.q, c.Log(x));
    RemSmall(c.q, c.Log(y));
  }

  /** Adding exponents multiplies powers. */
  lemma {:induction false} ExpAdd<E(!new)>(c: Context<E>, x: E, s: nat, t: nat)
    requires c.Valid() && s < c.q && t < c.q
    ensures c.Exp(x, s + t) == c.mul(c.exp(x, s), c.exp(x, t))
    decreases s
  {
    hide Rem;
    assert c.ExpSteps(x, t);
    if s == 0 {
      RemSmall(c.q, t);
      assert c.HasUnitAndInverse(c.exp(x, t));
    } else {
      ExpAdd(c, x, s - 1, t);
      assert c.ExpSteps(x, s - 1);
      RemSmall(c.q, s);
      var r := Rem(c.q, s - 1 + t);
      assert c.ExpSteps(x, r);
      SameRem(c.q, s - 1 + t);
      SameAdd(c.q, r, s - 1 + t, 1, 1);
      assert c.Associative(x, c.exp(x, s - 1), c.exp(x, t));
    }
  }

  lemma LogMul<E(!new)>(c: Context<E>, x: E, y: E)
    requires c.Valid()
    ensures c.Log(c.mul(x, y)) == Rem(c.q, c.Log(x) + c.Log(y))
  {
    ExpAdd(c, c.generator, c.Log(x), c.Log(y));
    LogOfPower(c, c.Log(x) + c.Log(y));
  }

  lemma LogOne<E(!new)>(c: Context<E>)
    requires c.Valid()
    ensures c.Log(c.one) == 0
  {
    assert c.ExpSteps(c.generator, 0);
    LogOfPower(c, 0);
  }

  lemma {:induction false} LogExpCanonical<E(!new)>(c: Context<E>, x: E, s: nat)
    requires c.Valid() && s < c.q
    ensures c.Log(c.exp(x, s)) == Rem(c.q, c.Log(x) * s)
  {
    hide Rem;
    if s == 0 {
      assert c.ExpSteps(x, 0) && c.Log(x) * 0 == 0;
      LogOne(c);
      RemSmall(c.q, 0);
    } else {
      assert c.ExpSteps(x, s - 1);
      RemSmall(c.q, s);
      LogExpCanonical(c, x, s - 1);
      LogMul(c, x, c.exp(x, s - 1));
      SameRem(c.q, c.Log(x) * (s - 1));
      SameAdd(c.q, c.Log(x), c.Log(x), Rem(c.q, c.Log(x) * (s - 1)), c.Log(x) * (s - 1));
      assert c.Log(x) + c.Log(x) * (s - 1) == c.Log(x) * s;
    }
  }

  lemma LogGenerator<E(!new)>(c: Context<E>)
    requires c.Valid()
    ensures c.Log(c.generator) == 1
  {
    var l := c.Log(c.generator);
    RemSmall(c.q, 1);
    LogOfPower(c, 1);
    LogExpCanonical(c, c.generator, 1);
    RemSmall(c.q, l * 1);
  }

  lemma LogInv<E(!new)>(c: Context<E>, x: E)
    requires c.Valid()
    ensures Same(c.q, c.Log(c.inv(x)), -c.Log(x))
  {
    assert c.HasUnitAndInverse(x);
    LogMul(c, c.inv(x), x);
    LogOne(c);
    SameAdd(c.q, c.Log(c.inv(x)) + c.Log(x), 0, c.Log(x), c.Log(x));
  }

  /** Raising to a scalar multiplies the logarithm. */
  lemma LogExp<E(!new)>(c: Context<E>, x: E, s: int)
    requires c.Valid()
    ensures c.Log(c.Exp(x, s)) == Rem(c.q, c.Log(x) * s)
  {
    LogExpCanonical(c, x, Rem(c.q, s));
    SameRem(c.q, s);
    SameMul(c.q, c.Log(x), c.Log(x), Rem(c.q, s), s);
  }
}
