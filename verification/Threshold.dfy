/** What a number of shares says about the secret of a polynomial. */
module Threshold {
  import opened Lagrange
  import opened Modular
  import opened Polynomials

  /** The two polynomials have the same shares at all the given positions. */
  ghost predicate SameShares(q: nat, f: Polynomial, g: Polynomial, ps: seq<Position>)
    requires q > 0
  {
    forall i | 0 <= i < |ps| :: Same(q, Value(f, ps[i]), Value(g, ps[i]))
  }

  ghost predicate SameSecret(q: nat, f: Polynomial, g: Polynomial)
    requires q > 0
  {
    Same(q, Value(f, 0), Value(g, 0))
  }

  /** The weighted shares at the given positions add up to the secret. */
  ghost predicate Recovers(q: nat, ps: seq<Position>, f: Polynomial)
    requires IsPrime(q) && InRange(q, ps)
  {
    Same(q, Weighted(q, ps, ps, f), Value(f, 0))
  }

  /** How often the position zero occurs. */
  function ZeroCount(ps: seq<Position>): nat {
    if ps == [] then 0 else ZeroCount(ps[..|ps| - 1]) + if ps[|ps| - 1] == 0 then 1 else 0
  }

  /** The positions allow recovery. At position zero the share is the secret itself, and then it
    * has all the weight, as often as it occurs. */
  ghost predicate Recoverable(q: nat, ps: seq<Position>)
    requires q > 0
  {
    if 0 in ps then Same(q, ZeroCount(ps), 1) else Distinct(ps)
  }

  /** Every polynomial with threshold many coefficients is recovered from as many positions
    * exactly when no position is repeated or, if the secret itself is among the shares, it is
    * there once. */
  lemma RecoveryExact(q: nat, ps: seq<Position>)
    requires IsPrime(q) && InRange(q, ps)
    ensures (forall f: Polynomial | |f| == |ps| :: Recovers(q, ps, f)) <==> Recoverable(q, ps)
  {
    hide Rem;
    if 0 in ps {
      RecoveryAtZero(q, ps);
    } else if Distinct(ps) {
      forall f: Polynomial | |f| == |ps| ensures Recovers(q, ps, f) {
        InterpolationAtZero(q, ps, f);
      }
    } else {
      var i, j :| 0 <= i < j < |ps| && ps[i] == ps[j];
      RepeatedNotRecovered(q, ps, i, j);
    }
  }

  lemma RecoveryAtZero(q: nat, ps: seq<Position>)
    requires IsPrime(q) && InRange(q, ps) && 0 in ps
    ensures (forall f: Polynomial | |f| == |ps| :: Recovers(q, ps, f)) <==> Same(q, ZeroCount(ps), 1)
  {
    hide Rem;
    var k := ZeroCount(ps);
    forall f: Polynomial | |f| == |ps| ensures Recovers(q, ps, f) <==> Same(q, k * Value(f, 0), Value(f, 0)) {
      WeightedAtZero(q, ps, ps, f);
    }
    if Same(q, k, 1) {
      forall f: Polynomial | |f| == |ps| ensures Recovers(q, ps, f) {
        SameMul(q, k, 1, Value(f, 0), Value(f, 0));
      }
    } else {
      var f := seq(|ps|, i => if i == 0 then 1 else 0);
      ValueAtZero(f);
      assert !Recovers(q, ps, f);
    }
  }

  lemma {:induction false} NumeratorAtZero(position: Position, present: seq<Position>)
    ensures position == 0 ==> Numerator(position, present) == Denominator(position, present)
    ensures position != 0 && 0 in present ==> Numerator(position, present) == 0
  {
    if present != [] {
      var n := |present| - 1;
      NumeratorAtZero(position, present[..n]);
      assert present == present[..n] + [present[n]];
    }
  }

  /** When position zero is present, its coefficient is one and all others are zero. */
  lemma CoefficientAtZero(q: nat, position: Position, present: seq<Position>)
    requires IsPrime(q) && 0 <= position < q && InRange(q, present) && 0 in present
    ensures Same(q, Coefficient(q, position, present), if position == 0 then 1 else 0)
  {
    hide Rem;
    NumeratorAtZero(position, present);
    DenominatorNotZero(q, position, present);
    var d := Denominator(position, present);
    var l := Coefficient(q, position, present);
    assert l * d == d * l;
    Cancel(q, d, l, if position == 0 then 1 else 0);
  }

  lemma {:induction false} WeightedAtZero(q: nat, ps: seq<Position>, present: seq<Position>, f: Polynomial)
    requires IsPrime(q) && InRange(q, ps) && InRange(q, present) && 0 in present
    ensures Same(q, Weighted(q, ps, present, f), ZeroCount(ps) * Value(f, 0))
  {
    hide Rem, Coefficient, Value, Same;
    if ps == [] {
      assert Weighted(q, ps, present, f) == ZeroCount(ps) * Value(f, 0) == 0;
      SameByMultiple(q, 0, 0, 0);
    } else {
      var n := |ps| - 1;
      WeightedAtZero(q, ps[..n], present, f);
      var one := if ps[n] == 0 then 1 else 0;
      CoefficientAtZero(q, ps[n], present);
      WeightAdded(q, Weighted(q, ps[..n], present, f), ZeroCount(ps[..n]), Coefficient(q, ps[n], present), one,
                  Value(f, 0), Value(f, ps[n]));
    }
  }

  lemma WeightAdded(q: nat, w: int, k: nat, l: int, one: nat, v: int, v': int)
    requires q > 0 && Same(q, w, k * v) && Same(q, l, one) && (one == 0 || v == v')
    ensures Same(q, w + l * v', (k + one) * v)
  {
    hide Rem;
    SameMul(q, l, one, v', v');
    SameAdd(q, w, k * v, l * v', one * v');
    assert k * v + one * v == (k + one) * v;
    assert one == 0 ==> one * v' == 0 == one * v;
  }

  /** A polynomial that vanishes at all positions but not at zero. */
  lemma RepeatedNotRecovered(q: nat, ps: seq<Position>, i: nat, j: nat)
    requires IsPrime(q) && InRange(q, ps)
    requires 0 !in ps && i < j < |ps| && ps[i] == ps[j]
    ensures |Vanishing(ps[..j] + ps[j + 1..])| == |ps| && !Recovers(q, ps, Vanishing(ps[..j] + ps[j + 1..]))
  {
    hide Rem;
    var rest := ps[..j] + ps[j + 1..];
    forall k | 0 <= k < |ps| ensures Value(Vanishing(rest), ps[k]) == 0 {
      assert ps[k] in rest by {
        assert rest[if k < j then k else if k == j then i else k - 1] == ps[k];
      }
      ValueVanishing(rest, ps[k]);
      DifferencesZero(q, rest, ps[k]);
    }
    WeightedZero(q, ps, ps, Vanishing(rest));
    assert InRange(q, rest) && 0 !in rest by {
      forall k | 0 <= k < |rest| ensures 0 < rest[k] < q {
        assert rest[k] == ps[if k < j then k else k + 1];
      }
    }
    VanishingSecret(q, rest);
  }

  lemma VanishingSecret(q: nat, ps: seq<Position>)
    requires IsPrime(q) && InRange(q, ps) && 0 !in ps
    ensures !Same(q, Value(Vanishing(ps), 0), 0)
  {
    hide Rem;
    ValueVanishing(ps, 0);
    DifferencesZero(q, ps, 0);
    RemSmall(q, 0);
    forall i | 0 <= i < |ps| ensures !Same(q, ps[i], 0) {
      RemSmall(q, ps[i]);
    }
  }

  /** A polynomial with the shares of f at the given positions and another secret. */
  function Disguised(q: nat, f: Polynomial, ps: seq<Position>, secret: int): (g: Polynomial)
    requires IsPrime(q) && InRange(q, ps) && 0 !in ps
    ensures |g| == if |f| <= |ps| then |ps| + 1 else |f|
  {
    VanishingSecret(q, ps);
    Linear(1, f, (secret - Value(f, 0)) * Inverse(q, Value(Vanishing(ps), 0)).value, Vanishing(ps))
  }

  /** Fewer positions than coefficients, none of them zero, fix nothing: any secret is consistent with any shares. */
  lemma FewSharesFixNothing(q: nat, f: Polynomial, ps: seq<Position>, secret: int)
    requires IsPrime(q) && InRange(q, ps) && 0 !in ps && |ps| < |f|
    ensures |Disguised(q, f, ps, secret)| == |f|
    ensures SameShares(q, Disguised(q, f, ps, secret), f, ps)
    ensures Same(q, Value(Disguised(q, f, ps, secret), 0), secret)
  {
    hide Rem;
    VanishingSecret(q, ps);
    var n := Value(Vanishing(ps), 0);
    var d := secret - Value(f, 0);
    var e := Inverse(q, n).value;
    ValueLinear(1, f, d * e, Vanishing(ps), 0);
    SameMul(q, d, d, n * e, 1);
    assert d * e * n == d * (n * e);
    SameAdd(q, Value(f, 0), Value(f, 0), d * e * n, d);
    forall i | 0 <= i < |ps|
      ensures Same(q, Value(Disguised(q, f, ps, secret), ps[i]), Value(f, ps[i]))
    {
      ValueLinear(1, f, d * e, Vanishing(ps), ps[i]);
      ValueVanishing(ps, ps[i]);
      DifferencesZero(q, ps, ps[i]);
    }
  }

  lemma {:induction false} WeightedSame(q: nat, ps: seq<Position>, present: seq<Position>, f: Polynomial, g: Polynomial)
    requires IsPrime(q) && InRange(q, ps) && InRange(q, present)
    requires SameShares(q, f, g, ps)
    ensures Same(q, Weighted(q, ps, present, f), Weighted(q, ps, present, g))
  {
    hide Rem;
    if ps != [] {
      var n := |ps| - 1;
      WeightedSame(q, ps[..n], present, f, g);
      var l := Coefficient(q, ps[n], present);
      SameMul(q, l, l, Value(f, ps[n]), Value(g, ps[n]));
      SameAdd(q, Weighted(q, ps[..n], present, f), Weighted(q, ps[..n], present, g),
              l * Value(f, ps[n]), l * Value(g, ps[n]));
    }
  }

  /** The shares at these positions decide the secret of every polynomial with t coefficients. */
  ghost predicate SharesDecide(q: nat, t: nat, ps: seq<Position>)
    requires q > 0
  {
    forall f: Polynomial, g: Polynomial | |f| == |g| == t && SameShares(q, f, g, ps) :: SameSecret(q, f, g)
  }

  /** The threshold is tight: distinct positions decide the secret exactly when there are at
    * least as many as the polynomial has coefficients, or the secret itself is among the shares. */
  lemma ThresholdTight(q: nat, t: nat, ps: seq<Position>)
    requires IsPrime(q) && InRange(q, ps) && Distinct(ps)
    ensures SharesDecide(q, t, ps) <==> t <= |ps| || 0 in ps
  {
    hide Rem;
    if 0 in ps {
      var i :| 0 <= i < |ps| && ps[i] == 0;
      forall f: Polynomial, g: Polynomial | |f| == |g| == t && SameShares(q, f, g, ps) ensures SameSecret(q, f, g) {
        assert Same(q, Value(f, ps[i]), Value(g, ps[i]));
      }
    } else if t <= |ps| {
      forall f: Polynomial, g: Polynomial | |f| == |g| == t && SameShares(q, f, g, ps) ensures SameSecret(q, f, g) {
        InterpolationAtZero(q, ps, f);
        InterpolationAtZero(q, ps, g);
        WeightedSame(q, ps, ps, f, g);
      }
    } else {
      UndecidedSecret(q, t, ps);
    }
  }

  lemma UndecidedSecret(q: nat, t: nat, ps: seq<Position>)
    requires IsPrime(q) && InRange(q, ps) && 0 !in ps && |ps| < t
    ensures !SharesDecide(q, t, ps)
  {
    hide Rem;
    var f := seq(t, _ => 0);
    FewSharesFixNothing(q, f, ps, 1);
    OneIsNotZero(q);
    var g := Disguised(q, f, ps, 1);
    assert SameShares(q, g, f, ps) && !SameSecret(q, g, f) by {
      ValueAtZero(f);
    }
  }
}
