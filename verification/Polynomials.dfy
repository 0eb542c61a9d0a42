/** Polynomials with integer coefficients, lowest degree first, read modulo a prime. */
module Polynomials {
  import opened Modular

  type Polynomial = seq<int>

  /** The value f(x). */
  function Value(f: Polynomial, x: int): int {
    if f == [] then 0 else f[0] + x * Value(f[1..], x)
  }

  function CoefficientAt(f: Polynomial, i: nat): int {
    if i < |f| then f[i] else 0
  }

  /** The polynomial k * f + m * g. */
  function Linear(k: int, f: Polynomial, m: int, g: Polynomial): (r: Polynomial)
    ensures |r| == if |f| < |g| then |g| else |f|
  {
    seq(if |f| < |g| then |g| else |f|, i requires i >= 0 => k * CoefficientAt(f, i) + m * CoefficientAt(g, i))
  }

  /** The polynomial (p - x) * g. */
  function TimesRoot(p: int, g: Polynomial): (r: Polynomial)
    ensures |r| == |g| + 1
  {
    Linear(p, g, -1, [0] + g)
  }

  /** The product of (p - x) over all given p. */
  function Vanishing(ps: seq<int>): (r: Polynomial)
    ensures |r| == |ps| + 1
  {
    if ps == [] then [1] else TimesRoot(ps[|ps| - 1], Vanishing(ps[..|ps| - 1]))
  }

  /** The quotient of f - f(a) by x - a. */
  function Divide(f: Polynomial, a: int): (r: Polynomial)
    ensures |r| == if f == [] then 0 else |f| - 1
  {
    if |f| <= 1 then [] else [Value(f[1..], a)] + Divide(f[1..], a)
  }

  /** The product of (p - x) over all given p, at a point. */
  function Differences(ps: seq<int>, x: int): int {
    if ps == [] then 1 else Differences(ps[..|ps| - 1], x) * (ps[|ps| - 1] - x)
  }

  lemma {:induction false} ValueSnoc(f: Polynomial, v: int, x: int)
    ensures Value(f + [v], x) == Value(f, x) + v * Power(x, |f|)
  {
    if f == [] {
      assert (f + [v])[1..] == [];
      assert Value([], x) == 0;
    } else {
      assert (f + [v])[1..] == f[1..] + [v];
      ValueSnoc(f[1..], v, x);
      var rest := Value(f[1..], x);
      var p := Power(x, |f| - 1);
      assert x * (rest + v * p) == x * rest + v * (x * p);
    }
  }

  lemma {:induction false} ValueLinear(k: int, f: Polynomial, m: int, g: Polynomial, x: int)
    ensures Value(Linear(k, f, m, g), x) == k * Value(f, x) + m * Value(g, x)
  {
    var r := Linear(k, f, m, g);
    if f != [] || g != [] {
      var f' := if f == [] then [] else f[1..];
      var g' := if g == [] then [] else g[1..];
      assert r[1..] == Linear(k, f', m, g');
      ValueLinear(k, f', m, g', x);
      LinearStep(k, m, x, CoefficientAt(f, 0), CoefficientAt(g, 0), Value(f', x), Value(g', x));
    }
  }

  lemma LinearStep(k: int, m: int, x: int, c: int, d: int, v: int, w: int)
    ensures k * c + m * d + x * (k * v + m * w) == k * (c + x * v) + m * (d + x * w)
  {
    assert x * (k * v + m * w) == k * (x * v) + m * (x * w);
  }

  lemma ValueAtZero(f: Polynomial)
    ensures Value(f, 0) == CoefficientAt(f, 0)
  {
  }

  lemma ValueTimesRoot(p: int, g: Polynomial, x: int)
    ensures Value(TimesRoot(p, g), x) == (p - x) * Value(g, x)
  {
    ValueLinear(p, g, -1, [0] + g, x);
    assert ([0] + g)[1..] == g;
  }

  lemma {:induction false} ValueVanishing(ps: seq<int>, x: int)
    ensures Value(Vanishing(ps), x) == Differences(ps, x)
  {
    if ps == [] {
      assert Value([1][1..], x) == 0;
    } else {
      ValueTimesRoot(ps[|ps| - 1], Vanishing(ps[..|ps| - 1]), x);
      ValueVanishing(ps[..|ps| - 1], x);
    }
  }

  /** Dividing by x - a leaves the value at a. */
  lemma {:induction false} ValueDivide(f: Polynomial, a: int, x: int)
    ensures Value(f, x) == Value(f, a) + (x - a) * Value(Divide(f, a), x)
  {
    if |f| == 1 {
      assert Value(f[1..], x) == 0 == Value(f[1..], a);
    } else if |f| > 1 {
      ValueDivide(f[1..], a, x);
      var d, v := Value(Divide(f[1..], a), x), Value(f[1..], a);
      assert Divide(f, a)[1..] == Divide(f[1..], a);
      DivideStep(x, a, v, d);
    }
  }

  lemma DivideStep(x: int, a: int, v: int, d: int)
    ensures x * (v + (x - a) * d) == a * v + (x - a) * (v + x * d)
  {
    assert x * ((x - a) * d) == (x - a) * (x * d);
  }

  /** The product of differences is zero exactly when the point is one of the given numbers. */
  lemma {:induction false} DifferencesZero(q: nat, ps: seq<int>, x: int)
    requires IsPrime(q)
    ensures Same(q, Differences(ps, x), 0) <==> exists i :: 0 <= i < |ps| && Same(q, ps[i], x)
    ensures x in ps ==> Differences(ps, x) == 0
  {
    hide Rem;
    if ps == [] {
      OneIsNotZero(q);
    } else {
      var n := |ps| - 1;
      var d, e := Differences(ps[..n], x), ps[n] - x;
      DifferencesZero(q, ps[..n], x);
      if Same(q, e, 0) {
        SameAdd(q, e, 0, x, x);
        SameMul(q, d, d, e, 0);
      } else {
        if Same(q, ps[n], x) {
          SameAdd(q, ps[n], x, x, x);
        }
        if Same(q, d, 0) {
          SameMul(q, d, 0, e, e);
        } else {
          NoZeroDivisors(q, d, e);
        }
      }
      assert forall i | 0 <= i < n :: ps[i] == ps[..n][i];
    }
  }

  lemma OneIsNotZero(q: nat)
    requires IsPrime(q)
    ensures !Same(q, 1, 0)
  {
  }
}
