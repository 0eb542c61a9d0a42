/** Lagrange interpolation at zero over the positions of the participants present. */
module Lagrange {
  import opened Modular
  import opened Polynomials

  type Position = int

  /** Positions are 32-bit numbers, so below the group order. Participants are numbered from 1, but
    * nothing keeps a position from being zero. */
  ghost predicate InRange(q: nat, ps: seq<Position>) {
    forall i | 0 <= i < |ps| :: 0 <= ps[i] < q
  }

  ghost predicate Distinct(ps: seq<Position>) {
    forall i, j | 0 <= i < j < |ps| :: ps[i] != ps[j]
  }

  function Numerator(position: Position, present: seq<Position>): int {
    if present == [] then
      1
    else
      var n := |present| - 1;
      if present[n] == position then
        Numerator(position, present[..n])
      else
        Numerator(position, present[..n]) * present[n]
  }

  function Denominator(position: Position, present: seq<Position>): int {
    if present == [] then
      1
    else
      var n := |present| - 1;
      if present[n] == position then
        Denominator(position, present[..n])
      else
        Denominator(position, present[..n]) * (present[n] - position)
  }

  /** The Lagrange coefficient of a position at zero. */
  function Coefficient(q: nat, position: Position, present: seq<Position>): (l: nat)
    requires IsPrime(q) && 0 <= position < q && InRange(q, present)
    ensures Same(q, l * Denominator(position, present), Numerator(position, present))
  {
    DenominatorNotZero(q, position, present);
    var n, d := Numerator(position, present), Denominator(position, present);
    CoefficientCancels(q, n, d);
    Rem(q, n * Inverse(q, d).value)
  }

  lemma CoefficientCancels(q: nat, n: int, d: int)
    requires IsPrime(q) && !Same(q, d, 0)
    ensures Same(q, Rem(q, n * Inverse(q, d).value) * d, n)
  {
    hide Rem;
    var e := Inverse(q, d).value;
    SameRem(q, n * e);
    SameMul(q, Rem(q, n * e), n * e, d, d);
    SameMul(q, n, n, d * e, 1);
    assert n * e * d == n * (d * e);
  }

  lemma DifferenceNotZero(q: nat, a: Position, b: Position)
    requires 0 <= a < q && 0 <= b < q && a != b
    ensures !Same(q, a - b, 0)
  {
    hide Rem;
    RemSmall(q, a);
    RemSmall(q, b);
    if Same(q, a - b, 0) {
      SameAdd(q, a - b, 0, b, b);
    }
  }

  /** Only equal positions are skipped, so the product of differences has an inverse. */
  lemma {:induction false} DenominatorNotZero(q: nat, position: Position, present: seq<Position>)
    requires IsPrime(q) && 0 <= position < q && InRange(q, present)
    ensures !Same(q, Denominator(position, present), 0)
  {
    if present == [] {
      OneIsNotZero(q);
    } else {
      var n := |present| - 1;
      DenominatorNotZero(q, position, present[..n]);
      if present[n] != position {
        DifferenceNotZero(q, present[n], position);
        NoZeroDivisors(q, Denominator(position, present[..n]), present[n] - position);
      }
    }
  }

  /** The loop that computes the coefficient. The inverse it asks for always exists,
    * whatever positions are present. */
  method Lagrange(q: nat, position: Position, present: seq<Position>) returns (l: nat)
    requires IsPrime(q) && 0 <= position < q && InRange(q, present)
    ensures l == Coefficient(q, position, present)
  {
    hide Rem;
    var numerator, denominator := 1, 1;
    for i := 0 to |present|
      invariant Same(q, numerator, Numerator(position, present[..i]))
      invariant Same(q, denominator, Denominator(position, present[..i]))
    {
      assert present[..i + 1] == present[..i] + [present[i]];
      if present[i] == position {
        ProductsSkip(position, present[..i]);
        continue;
      }
      ProductsStep(q, position, present[..i], present[i], numerator, denominator);
      numerator := Rem(q, numerator * present[i]);
      denominator := Rem(q, denominator * Rem(q, present[i] - position));
    }
    assert present[..|present|] == present;
    CoefficientFromProducts(q, position, present, numerator, denominator);
    l := Rem(q, numerator * Inverse(q, denominator).value);
  }

  lemma ProductsSkip(position: Position, present: seq<Position>)
    ensures Numerator(position, present + [position]) == Numerator(position, present)
    ensures Denominator(position, present + [position]) == Denominator(position, present)
  {
    assert (present + [position])[..|present|] == present;
  }

  lemma ProductsStep(q: nat, position: Position, present: seq<Position>, p: Position, n: int, d: int)
    requires q > 0 && p != position
    requires Same(q, n, Numerator(position, present)) && Same(q, d, Denominator(position, present))
    ensures Same(q, Rem(q, n * p), Numerator(position, present + [p]))
    ensures Same(q, Rem(q, d * Rem(q, p - position)), Denominator(position, present + [p]))
  {
    hide Rem;
    assert (present + [p])[..|present|] == present;
    SameMul(q, n, Numerator(position, present), p, p);
    SameRem(q, n * p);
    SameRem(q, p - position);
    SameMul(q, d, Denominator(position, present), Rem(q, p - position), p - position);
    SameRem(q, d * Rem(q, p - position));
  }

  lemma CoefficientFromProducts(q: nat, position: Position, present: seq<Position>, n: int, d: int)
    requires IsPrime(q) && 0 <= position < q && InRange(q, present)
    requires Same(q, n, Numerator(position, present)) && Same(q, d, Denominator(position, present))
    ensures Inverse(q, d).Some?
    ensures Rem(q, n * Inverse(q, d).value) == Coefficient(q, position, present)
  {
    DenominatorNotZero(q, position, present);
    InverseOfSame(q, d, Denominator(position, present));
    SameMul(q, n, Numerator(position, present), Inverse(q, d).value, Inverse(q, d).value);
  }

  lemma InverseOfSame(q: nat, a: int, b: int)
    requires IsPrime(q) && Same(q, a, b)
    ensures Inverse(q, a) == Inverse(q, b)
  {
  }

  /** The values of f at the given positions, weighted by their coefficients. */
  function Weighted(q: nat, ps: seq<Position>, present: seq<Position>, f: Polynomial): int
    requires IsPrime(q) && InRange(q, ps) && InRange(q, present)
  {
    if ps == [] then
      0
    else
      var n := |ps| - 1;
      Weighted(q, ps[..n], present, f) + Coefficient(q, ps[n], present) * Value(f, ps[n])
  }

  lemma {:induction false} WeightedLinear(q: nat, ps: seq<Position>, present: seq<Position>,
                                           k: int, f: Polynomial, m: int, g: Polynomial)
    requires IsPrime(q) && InRange(q, ps) && InRange(q, present)
    ensures Weighted(q, ps, present, Linear(k, f, m, g))
         == k * Weighted(q, ps, present, f) + m * Weighted(q, ps, present, g)
  {
    if ps != [] {
      var n := |ps| - 1;
      WeightedLinear(q, ps[..n], present, k, f, m, g);
      ValueLinear(k, f, m, g, ps[n]);
      WeightedStep(k, m, Weighted(q, ps[..n], present, f), Weighted(q, ps[..n], present, g),
                   Coefficient(q, ps[n], present), Value(f, ps[n]), Value(g, ps[n]));
    }
  }

  lemma WeightedStep(k: int, m: int, a: int, b: int, l: int, v: int, w: int)
    ensures k * a + m * b + l * (k * v + m * w) == k * (a + l * v) + m * (b + l * w)
  {
    assert l * (k * v + m * w) == k * (l * v) + m * (l * w);
  }

  /** A polynomial that vanishes at every position has no weight. */
  lemma {:induction false} WeightedZero(q: nat, ps: seq<Position>, present: seq<Position>, f: Polynomial)
    requires IsPrime(q) && InRange(q, ps) && InRange(q, present)
    requires forall i | 0 <= i < |ps| :: Value(f, ps[i]) == 0
    ensures Weighted(q, ps, present, f) == 0
  {
    if ps != [] {
      WeightedZero(q, ps[..|ps| - 1], present, f);
    }
  }

  /** What one more participant does to the coefficient of another. */
  lemma CoefficientExtend(q: nat, position: Position, present: seq<Position>, a: Position)
    requires IsPrime(q) && 0 <= position < q && InRange(q, present + [a]) && InRange(q, present)
    requires position != a
    ensures Same(q, Coefficient(q, position, present + [a]) * (a - position),
                    Coefficient(q, position, present) * a)
  {
    hide Rem;
    var n, d := Numerator(position, present), Denominator(position, present);
    var l, l' := Coefficient(q, position, present), Coefficient(q, position, present + [a]);
    assert (present + [a])[..|present|] == present;
    DenominatorNotZero(q, position, present);
    ExtendStep(q, n, d, a, a - position, l, l');
  }

  lemma ExtendStep(q: nat, n: int, d: int, a: int, e: int, l: int, l': int)
    requires IsPrime(q) && !Same(q, d, 0)
    requires Same(q, l * d, n) && Same(q, l' * (d * e), n * a)
    ensures Same(q, l' * e, l * a)
  {
    hide Rem;
    SameMul(q, l * d, n, a, a);
    assert l' * (d * e) == d * (l' * e);
    assert l * d * a == d * (l * a);
    Cancel(q, d, l' * e, l * a);
  }

  /** The coefficient of a position that was not there before. */
  lemma {:induction false} FreshPosition(a: Position, ps: seq<Position>)
    requires a !in ps
    ensures Denominator(a, ps) == Differences(ps, a)
    ensures Numerator(a, ps) == Differences(ps, 0)
  {
    if ps != [] {
      FreshPosition(a, ps[..|ps| - 1]);
    }
  }

  /** Multiplying by x - a removes the position a from the coefficients of the others. */
  lemma {:induction false} WeightedDivide(q: nat, ps: seq<Position>, present: seq<Position>, a: Position,
                                          f: Polynomial)
    requires IsPrime(q) && InRange(q, ps) && InRange(q, present) && InRange(q, present + [a])
    requires a !in ps && Value(f, a) == 0
    ensures Same(q, Weighted(q, ps, present + [a], f), -a * Weighted(q, ps, present, Divide(f, a)))
  {
    hide Rem;
    if ps == [] {
      assert -a * 0 == 0;
    } else {
      var n := |ps| - 1;
      var p, h := ps[n], Divide(f, a);
      var l, l' := Coefficient(q, p, present), Coefficient(q, p, present + [a]);
      WeightedDivide(q, ps[..n], present, a, f);
      CoefficientExtend(q, p, present, a);
      ValueDivide(f, a, p);
      DivideWeight(q, l, l', a, p, Value(h, p));
      AddWeight(q, Weighted(q, ps[..n], present + [a], f), l' * Value(f, p),
                -a, Weighted(q, ps[..n], present, h), l * Value(h, p));
    }
  }

  lemma AddWeight(q: nat, x: int, x': int, k: int, y: int, y': int)
    requires q > 0 && Same(q, x, k * y) && Same(q, x', k * y')
    ensures Same(q, x + x', k * (y + y'))
  {
    hide Rem;
    SameAdd(q, x, k * y, x', k * y');
    assert k * y + k * y' == k * (y + y');
  }

  lemma DivideWeight(q: nat, l: int, l': int, a: int, p: int, v: int)
    requires q > 0 && Same(q, l' * (a - p), l * a)
    ensures Same(q, l' * ((p - a) * v), -a * (l * v))
  {
    hide Rem;
    SameMul(q, l' * (a - p), l * a, -v, -v);
    assert l' * (a - p) * -v == l' * ((p - a) * v);
    assert l * a * -v == -a * (l * v);
  }

  /** Any polynomial with at most as many coefficients as there are positions is recovered at
    * zero from its values at distinct positions. */
  lemma {:induction false} InterpolationAtZero(q: nat, ps: seq<Position>, f: Polynomial)
    requires IsPrime(q) && InRange(q, ps) && Distinct(ps)
    requires |f| <= |ps|
    ensures Same(q, Weighted(q, ps, ps, f), Value(f, 0))
    decreases |ps|
  {
    hide Rem;
    if ps != [] {
      var s, a := ps[..|ps| - 1], ps[|ps| - 1];
      assert ps == s + [a];
      EliminatedValue(s, a, f, a);
      var p := Eliminated(s, a, f);
      InterpolationAtZero(q, s, Divide(p, a));
      WeightedRemainder(q, s, a, p);
      RestoreEliminated(q, s, a, f);
    }
  }

  /** A multiple of f, with a multiple of the polynomial vanishing on s subtracted so that the
    * result is zero at a. */
  function Eliminated(s: seq<Position>, a: Position, f: Polynomial): (p: Polynomial)
    ensures |p| == if |f| <= |s| then |s| + 1 else |f|
  {
    Linear(Differences(s, a), f, -Value(f, a), Vanishing(s))
  }

  lemma EliminatedValue(s: seq<Position>, a: Position, f: Polynomial, x: int)
    ensures Value(Eliminated(s, a, f), x) == Differences(s, a) * Value(f, x) + -Value(f, a) * Differences(s, x)
    ensures x == a ==> Value(Eliminated(s, a, f), x) == 0
  {
    ValueLinear(Differences(s, a), f, -Value(f, a), Vanishing(s), x);
    ValueVanishing(s, x);
  }

  lemma RestoreEliminated(q: nat, s: seq<Position>, a: Position, f: Polynomial)
    requires IsPrime(q) && InRange(q, s + [a]) && InRange(q, s) && Distinct(s + [a])
    requires Same(q, Weighted(q, s + [a], s + [a], Eliminated(s, a, f)), Value(Eliminated(s, a, f), 0))
    ensures Same(q, Weighted(q, s + [a], s + [a], f), Value(f, 0))
  {
    hide Rem;
    WeightedVanishing(q, s, a);
    WeightedLinear(q, s + [a], s + [a], Differences(s, a), f, -Value(f, a), Vanishing(s));
    EliminatedValue(s, a, f, 0);
    LastStep(q, Differences(s, a), Value(f, a), Weighted(q, s + [a], s + [a], f), Value(f, 0),
             Weighted(q, s + [a], s + [a], Vanishing(s)), Differences(s, 0));
  }

  /** A polynomial that vanishes at a is recovered when its quotient by x - a is. */
  lemma WeightedRemainder(q: nat, s: seq<Position>, a: Position, p: Polynomial)
    requires IsPrime(q) && InRange(q, s + [a]) && InRange(q, s) && Distinct(s + [a])
    requires Value(p, a) == 0
    requires Same(q, Weighted(q, s, s, Divide(p, a)), Value(Divide(p, a), 0))
    ensures Same(q, Weighted(q, s + [a], s + [a], p), Value(p, 0))
  {
    hide Rem;
    NotAmongOthers(s, a);
    WeightedDivide(q, s, s, a, p);
    SameMul(q, -a, -a, Weighted(q, s, s, Divide(p, a)), Value(Divide(p, a), 0));
    ValueDivide(p, a, 0);
    assert (s + [a])[..|s|] == s && (s + [a])[|s|] == a;
    assert Coefficient(q, a, s + [a]) * Value(p, a) == 0;
  }

  lemma NotAmongOthers(s: seq<Position>, a: Position)
    requires Distinct(s + [a])
    ensures a !in s && Distinct(s)
  {
    var ps := s + [a];
    assert ps[|s|] == a;
    forall i | 0 <= i < |s| ensures s[i] != a { assert ps[i] == s[i]; }
    forall i, j | 0 <= i < j < |s| ensures s[i] != s[j] { assert ps[i] == s[i] && ps[j] == s[j]; }
  }

  lemma LastStep(q: nat, d: int, v: int, w: int, f0: int, wn: int, n0: int)
    requires IsPrime(q) && !Same(q, d, 0)
    requires Same(q, d * w + -v * wn, d * f0 + -v * n0) && Same(q, wn, n0)
    ensures Same(q, w, f0)
  {
    hide Rem;
    SameMul(q, v, v, wn, n0);
    SameAdd(q, d * w + -v * wn, d * f0 + -v * n0, v * wn, v * n0);
    assert -v * wn == -(v * wn) && -v * n0 == -(v * n0);
    Cancel(q, d, w, f0);
  }

  /** The polynomial vanishing at all positions but the last is recovered at zero. */
  lemma WeightedVanishing(q: nat, s: seq<Position>, a: Position)
    requires IsPrime(q) && InRange(q, s + [a]) && InRange(q, s) && Distinct(s + [a])
    ensures Same(q, Weighted(q, s + [a], s + [a], Vanishing(s)), Differences(s, 0))
    ensures !Same(q, Differences(s, a), 0)
  {
    hide Rem;
    var ps := s + [a];
    assert ps[..|s|] == s && ps[|s|] == a;
    NotAmongOthers(s, a);
    forall i | 0 <= i < |s| ensures Value(Vanishing(s), s[i]) == 0 {
      ValueVanishing(s, s[i]);
      DifferencesZero(q, s, s[i]);
    }
    WeightedZero(q, s, ps, Vanishing(s));
    ValueVanishing(s, a);
    FreshPosition(a, s);
    DenominatorNotZero(q, a, s);
    assert Denominator(a, ps) == Denominator(a, s) && Numerator(a, ps) == Numerator(a, s);
  }
}
