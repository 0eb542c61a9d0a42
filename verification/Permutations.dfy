/** Sums and products that do not depend on the order of their terms. */
module Permutations {
  import opened Groups
  import opened Lagrange
  import opened Modular
  import opened Recipient

  function Map<X, Y>(f: X -> Y, xs: seq<X>): (ys: seq<Y>)
    ensures |ys| == |xs|
    ensures forall i | 0 <= i < |xs| :: ys[i] == f(xs[i])
  {
    seq(|xs|, i requires 0 <= i < |xs| => f(xs[i]))
  }

  function Fold<Y>(op: (Y, Y) -> Y, unit: Y, ys: seq<Y>): Y {
    if ys == [] then unit else op(Fold(op, unit, ys[..|ys| - 1]), ys[|ys| - 1])
  }

  ghost predicate Exchange<Y>(op: (Y, Y) -> Y, a: Y, b: Y, c: Y) {
    op(op(a, b), c) == op(op(a, c), b)
  }

  /** Two operands can be taken in either order. */
  ghost predicate OrderFree<Y(!new)>(op: (Y, Y) -> Y) {
    forall a: Y, b: Y, c: Y :: Exchange(op, a, b, c)
  }

  /** Taking out any one element leaves a permutation of the rest. */
  lemma RemoveLast<X>(xs: seq<X>, ys: seq<X>) returns (j: nat)
    requires xs != [] && multiset(xs) == multiset(ys)
    ensures j < |ys| && ys[j] == xs[|xs| - 1]
    ensures multiset(xs[..|xs| - 1]) == multiset(ys[..j] + ys[j + 1..])
  {
    var n := |xs| - 1;
    assert xs == xs[..n] + [xs[n]];
    assert xs[n] in multiset(ys);
    j :| 0 <= j < |ys| && ys[j] == xs[n];
    var rest := ys[..j] + ys[j + 1..];
    assert ys == ys[..j] + [ys[j]] + ys[j + 1..];
    assert multiset(xs[..n]) == multiset(xs) - multiset{xs[n]};
    assert multiset(rest) == multiset(ys) - multiset{xs[n]};
  }

  lemma {:induction false} FoldMoveLast<Y(!new)>(op: (Y, Y) -> Y, unit: Y, xs: seq<Y>, ys: seq<Y>)
    requires OrderFree(op) && ys != []
    ensures Fold(op, unit, xs + ys) == op(Fold(op, unit, xs + ys[1..]), ys[0])
    decreases |ys|
  {
    var n := |ys| - 1;
    assert (xs + ys)[..|xs| + n] == xs + ys[..n];
    if n > 0 {
      FoldMoveLast(op, unit, xs, ys[..n]);
      assert (xs + ys[1..])[..|xs| + n - 1] == xs + ys[..n][1..];
      assert Exchange(op, Fold(op, unit, xs + ys[..n][1..]), ys[0], ys[n]);
    } else {
      assert xs + ys[1..] == xs;
    }
  }

  lemma FoldRemove<Y(!new)>(op: (Y, Y) -> Y, unit: Y, ys: seq<Y>, j: nat)
    requires OrderFree(op) && j < |ys|
    ensures Fold(op, unit, ys) == op(Fold(op, unit, ys[..j] + ys[j + 1..]), ys[j])
  {
    FoldMoveLast(op, unit, ys[..j], ys[j..]);
    assert ys == ys[..j] + ys[j..];
    assert ys[j..][1..] == ys[j + 1..];
  }

  lemma {:induction false} FoldPermuted<X, Y(!new)>(op: (Y, Y) -> Y, unit: Y, f: X -> Y, xs: seq<X>, ys: seq<X>)
    requires OrderFree(op) && multiset(xs) == multiset(ys)
    ensures Fold(op, unit, Map(f, xs)) == Fold(op, unit, Map(f, ys))
    decreases |xs|
  {
    if xs == [] {
      assert |multiset(ys)| == 0;
      assert ys == [];
    } else {
      var n := |xs| - 1;
      var j := RemoveLast(xs, ys);
      FoldPermuted(op, unit, f, xs[..n], ys[..j] + ys[j + 1..]);
      assert Map(f, xs)[..n] == Map(f, xs[..n]);
      FoldRemove(op, unit, Map(f, ys), j);
      assert Map(f, ys)[..j] + Map(f, ys)[j + 1..] == Map(f, ys[..j] + ys[j + 1..]);
    }
  }

  // Sums of integers

  lemma {:induction false} SumIsFold(xs: seq<int>, op: (int, int) -> int)
    requires forall a, b :: op(a, b) == a + b
    ensures Sum(xs) == Fold(op, 0, xs)
  {
    if xs != [] {
      SumIsFold(xs[..|xs| - 1], op);
    }
  }

  lemma SumPermuted<X>(f: X -> int, xs: seq<X>, ys: seq<X>)
    requires multiset(xs) == multiset(ys)
    ensures Sum(Map(f, xs)) == Sum(Map(f, ys))
  {
    var op := (a: int, b: int) => a + b;
    SumIsFold(Map(f, xs), op);
    SumIsFold(Map(f, ys), op);
    FoldPermuted(op, 0, f, xs, ys);
  }

  // Products of group elements

  lemma {:induction false} ProductIsFold<E(!new)>(c: Context<E>, xs: seq<E>)
    ensures Product(c, xs) == Fold(c.mul, c.one, xs)
  {
    if xs != [] {
      ProductIsFold(c, xs[..|xs| - 1]);
    }
  }

  lemma ProductPermuted<X(!new), E(!new)>(c: Context<E>, f: X -> E, xs: seq<X>, ys: seq<X>)
    requires c.Valid() && multiset(xs) == multiset(ys)
    ensures Product(c, Map(f, xs)) == Product(c, Map(f, ys))
  {
    ProductIsFold(c, Map(f, xs));
    ProductIsFold(c, Map(f, ys));
    forall x: E, y: E, z: E ensures Exchange(c.mul, x, y, z) {
      MulExchange(c, x, y, z);
    }
    FoldPermuted(c.mul, c.one, f, xs, ys);
  }

  lemma MulExchange<E(!new)>(c: Context<E>, x: E, y: E, z: E)
    requires c.Valid()
    ensures c.mul(c.mul(x, y), z) == c.mul(c.mul(x, z), y)
  {
    hide Rem;
    LogMul(c, x, y);
    LogMul(c, x, z);
    LogMul(c, c.mul(x, y), z);
    LogMul(c, c.mul(x, z), y);
    SameRem(c.q, c.Log(x) + c.Log(y));
    SameRem(c.q, c.Log(x) + c.Log(z));
    SameAdd(c.q, Rem(c.q, c.Log(x) + c.Log(y)), c.Log(x) + c.Log(y), c.Log(z), c.Log(z));
    SameAdd(c.q, Rem(c.q, c.Log(x) + c.Log(z)), c.Log(x) + c.Log(z), c.Log(y), c.Log(y));
    LogInjective(c, c.mul(c.mul(x, y), z), c.mul(c.mul(x, z), y));
  }

  /** The logarithm of a product is the sum of the logarithms. */
  ghost function Logs<E(!new)>(c: Context<E>, xs: seq<E>): (ls: seq<int>)
    requires c.Valid()
    ensures |ls| == |xs|
    ensures forall i | 0 <= i < |xs| :: ls[i] == c.Log(xs[i])
  {
    seq(|xs|, i requires 0 <= i < |xs| => c.Log(xs[i]))
  }

  lemma {:induction false} LogProduct<E(!new)>(c: Context<E>, xs: seq<E>)
    requires c.Valid()
    ensures Same(c.q, c.Log(Product(c, xs)), Sum(Logs(c, xs)))
  {
    hide Rem;
    LogOne(c);
    if xs != [] {
      var n := |xs| - 1;
      LogProduct(c, xs[..n]);
      assert Logs(c, xs)[..n] == Logs(c, xs[..n]);
      LogMul(c, Product(c, xs[..n]), xs[n]);
      SameAdd(c.q, c.Log(Product(c, xs[..n])), Sum(Logs(c, xs[..n])), c.Log(xs[n]), c.Log(xs[n]));
      SameRem(c.q, c.Log(Product(c, xs[..n])) + c.Log(xs[n]));
    }
  }

  // Lagrange coefficients

  function Factor(position: Position, p: Position): int {
    if p == position then 1 else p
  }

  function Difference(position: Position, p: Position): int {
    if p == position then 1 else p - position
  }

  lemma {:induction false} ProductsAreFolds(position: Position, ps: seq<Position>, op: (int, int) -> int)
    requires forall a, b :: op(a, b) == a * b
    ensures Numerator(position, ps) == Fold(op, 1, Map(p => Factor(position, p), ps))
    ensures Denominator(position, ps) == Fold(op, 1, Map(p => Difference(position, p), ps))
  {
    if ps != [] {
      var n := |ps| - 1;
      ProductsAreFolds(position, ps[..n], op);
      assert Map(p => Factor(position, p), ps)[..n] == Map(p => Factor(position, p), ps[..n]);
      assert Map(p => Difference(position, p), ps)[..n] == Map(p => Difference(position, p), ps[..n]);
    }
  }

  /** The coefficient of a position depends on who is present, not on their order. */
  lemma CoefficientPermuted(q: nat, position: Position, ps: seq<Position>, ps': seq<Position>)
    requires IsPrime(q) && 0 <= position < q && InRange(q, ps) && InRange(q, ps')
    requires multiset(ps) == multiset(ps')
    ensures Coefficient(q, position, ps) == Coefficient(q, position, ps')
  {
    hide Rem;
    var op := (a: int, b: int) => a * b;
    forall x: int, y: int, z: int ensures Exchange(op, x, y, z) {
      assert x * y * z == x * z * y;
    }
    ProductsAreFolds(position, ps, op);
    ProductsAreFolds(position, ps', op);
    FoldPermuted(op, 1, p => Factor(position, p), ps, ps');
    FoldPermuted(op, 1, p => Difference(position, p), ps, ps');
  }
}
