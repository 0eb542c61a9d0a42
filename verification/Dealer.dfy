/** A dealer: the shares of its polynomial and the values that let others check them. */
module Dealer {
  import opened Groups
  import opened Lagrange
  import opened Modular
  import opened Polynomials

  datatype DealerShares<E> = DealerShares(shares: seq<int>, checkingValues: seq<E>)

  datatype VerifiableShare<E> = VerifiableShare(value: int, checkingValues: seq<E>)

  /** Evaluate a polynomial, keeping a running power of the argument. */
  method Eval(q: nat, f: Polynomial, x: int) returns (sum: int)
    requires q > 0 && |f| > 0
    ensures Same(q, sum, Value(f, x))
  {
    hide Rem;
    sum := f[0];
    var power := 1;
    assert f[..1] == [] + [f[0]];
    ValueSnoc([], f[0], x);
    assert Power(x, 0) == 1 && Value([], x) == 0;
    for i := 1 to |f|
      invariant Same(q, power, Power(x, i - 1))
      invariant Same(q, sum, Value(f[..i], x))
    {
      assert f[..i + 1] == f[..i] + [f[i]];
      ValueSnoc(f[..i], f[i], x);
      EvalStep(q, sum, Value(f[..i], x), power, Power(x, i - 1), x, f[i]);
      power := Rem(q, power * x);
      sum := Rem(q, sum + Rem(q, f[i] * power));
    }
    assert f[..|f|] == f;
  }

  lemma EvalStep(q: nat, sum: int, s: int, power: int, p: int, x: int, v: int)
    requires q > 0 && Same(q, sum, s) && Same(q, power, p)
    ensures Same(q, Rem(q, power * x), x * p)
    ensures Same(q, Rem(q, sum + Rem(q, v * Rem(q, power * x))), s + v * (x * p))
  {
    hide Rem;
    SameMul(q, power, p, x, x);
    SameRem(q, power * x);
    assert p * x == x * p;
    var power' := Rem(q, power * x);
    SameMul(q, v, v, power', x * p);
    SameRem(q, v * power');
    SameAdd(q, sum, s, Rem(q, v * power'), v * (x * p));
    SameRem(q, sum + Rem(q, v * power'));
  }

  /** The shares for participants 1 to count. */
  function GetShares(q: nat, f: Polynomial, count: nat): (shares: seq<int>)
    requires q > 0
    ensures |shares| == count
  {
    seq(count, p => Rem(q, Value(f, p + 1)))
  }

  function GetCheckingValues<E(==,!new)>(c: Context<E>, f: Polynomial): (values: seq<E>)
    requires c.q > 0
    ensures |values| == |f|
  {
    seq(|f|, i requires 0 <= i < |f| => c.Exp(c.generator, f[i]))
  }

  function GetVerifiableShares<E(==,!new)>(c: Context<E>, f: Polynomial, count: nat): DealerShares<E>
    requires c.q > 0
  {
    DealerShares(GetShares(c.q, f, count), GetCheckingValues(c, f))
  }

  /** The share of one participant; positions start at 1. */
  function ForRecipient<E>(shares: DealerShares<E>, position: Position): VerifiableShare<E>
    requires 1 <= position <= |shares.shares|
  {
    VerifiableShare(shares.shares[position - 1], shares.checkingValues)
  }

  /** The polynomial that checking values commit to. */
  ghost function Committed<E(!new)>(c: Context<E>, checkingValues: seq<E>): (f: Polynomial)
    requires c.Valid()
    ensures |f| == |checkingValues|
  {
    seq(|checkingValues|, i requires 0 <= i < |checkingValues| => c.Log(checkingValues[i]))
  }

  lemma {:induction false} ValueSame(q: nat, f: Polynomial, g: Polynomial, x: int)
    requires q > 0 && |f| == |g|
    requires forall i | 0 <= i < |f| :: Same(q, f[i], g[i])
    ensures Same(q, Value(f, x), Value(g, x))
  {
    hide Rem;
    if f != [] {
      ValueSame(q, f[1..], g[1..], x);
      SameMul(q, x, x, Value(f[1..], x), Value(g[1..], x));
      SameAdd(q, f[0], g[0], x * Value(f[1..], x), x * Value(g[1..], x));
    }
  }

  /** The checking values of a dealer commit to its own polynomial. */
  lemma CommittedHonest<E(!new)>(c: Context<E>, f: Polynomial, x: int)
    requires c.Valid()
    ensures Same(c.q, Value(Committed(c, GetCheckingValues(c, f)), x), Value(f, x))
  {
    hide Rem;
    forall i | 0 <= i < |f| ensures Same(c.q, Committed(c, GetCheckingValues(c, f))[i], f[i]) {
      LogOfPower(c, f[i]);
      SameRem(c.q, f[i]);
    }
    ValueSame(c.q, Committed(c, GetCheckingValues(c, f)), f, x);
  }
}
