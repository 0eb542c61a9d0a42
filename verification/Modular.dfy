/** Arithmetic modulo a prime: the scalar field of a cryptographic group.
  *
  * A scalar is given by any integer that represents it. Rem picks the representative
  * below q, and Same says that two integers represent the same scalar.
  */
module Modular {

  function Power(base: int, e: nat): int
  {
    if e == 0 then 1 else base * Power(base, e - 1)
  }

  lemma {:induction false} PowerPositive(base: int, e: nat)
    requires base > 0
    ensures Power(base, e) > 0
  {
    if e > 0 {
      PowerPositive(base, e - 1);
    }
  }

  function Rem(q: nat, x: int): (r: nat)
    requires q > 0
    ensures r < q
  {
    x % q
  }

  ghost predicate Same(q: nat, a: int, b: int)
    requires q > 0
  {
    Rem(q, a) == Rem(q, b)
  }

  ghost predicate Divides(d: nat, n: int)
    requires d > 0
  {
    Rem(d, n) == 0
  }

  ghost predicate IsPrime(q: nat)
  {
    2 <= q && forall d: nat | 2 <= d < q :: !Divides(d, q)
  }

  /** The remainder is the only number in range that differs from x by a multiple of q. */
  lemma RemUnique(q: nat, x: int, r: nat, k: int)
    requires r < q && x == r + k * q
    ensures Rem(q, x) == r
  {
    var d := x / q;
    assert x == d * q + x % q;
    assert (d - k) * q == r - x % q;
    assert d - k >= 1 ==> (d - k) * q >= q;
    assert d - k <= -1 ==> (d - k) * q <= -(q as int);
  }

  lemma RemSmall(q: nat, x: int)
    requires 0 <= x < q
    ensures Rem(q, x) == x
  {
  }

  /** How far x is from its remainder, in multiples of q. */
  lemma Quotient(q: nat, x: int) returns (k: int)
    requires q > 0
    ensures x == Rem(q, x) + k * q
  {
    k := x / q;
  }

  lemma SameByMultiple(q: nat, a: int, b: int, k: int)
    requires q > 0 && a == b + k * q
    ensures Same(q, a, b)
  {
    var j := Quotient(q, b);
    assert a == Rem(q, b) + (j + k) * q;
    RemUnique(q, a, Rem(q, b), j + k);
  }

  lemma Multiple(q: nat, a: int, b: int) returns (k: int)
    requires q > 0 && Same(q, a, b)
    ensures a == b + k * q
  {
    var i := Quotient(q, a);
    var j := Quotient(q, b);
    k := i - j;
    assert i * q - j * q == k * q;
  }

  lemma SameRem(q: nat, x: int)
    requires q > 0
    ensures Same(q, Rem(q, x), x)
  {
    var k := Quotient(q, x);
    assert Rem(q, x) == x + (-k) * q;
    SameByMultiple(q, Rem(q, x), x, -k);
  }

  lemma SameAdd(q: nat, a: int, a': int, b: int, b': int)
    requires q > 0 && Same(q, a, a') && Same(q, b, b')
    ensures Same(q, a + b, a' + b')
    ensures Same(q, a - b, a' - b')
  {
    var i := Multiple(q, a, a');
    var j := Multiple(q, b, b');
    assert i * q + j * q == (i + j) * q;
    assert i * q - j * q == (i - j) * q;
    SameByMultiple(q, a + b, a' + b', i + j);
    SameByMultiple(q, a - b, a' - b', i - j);
  }

  lemma SameMul(q: nat, a: int, a': int, b: int, b': int)
    requires q > 0 && Same(q, a, a') && Same(q, b, b')
    ensures Same(q, a * b, a' * b')
  {
    var i := Multiple(q, a, a');
    var j := Multiple(q, b, b');
    var k := a' * j + i * b' + i * j * q;
    assert a * b == a' * b' + k * q by {
      assert a * b == (a' + i * q) * (b' + j * q);
      assert (a' + i * q) * (b' + j * q) == a' * b' + a' * (j * q) + (i * q) * b' + (i * q) * (j * q);
      assert a' * (j * q) == (a' * j) * q;
      assert (i * q) * b' == (i * b') * q;
      assert (i * q) * (j * q) == (i * j * q) * q;
    }
    SameByMultiple(q, a * b, a' * b', k);
  }

  /** Coefficients of a combination of a and b that gives their greatest common divisor. */
  function Bezout(a: nat, b: nat): (r: (nat, int, int))
    decreases b
    ensures a * r.1 + b * r.2 == r.0
    ensures a > 0 || b > 0 ==> r.0 > 0
  {
    if b == 0 then
      (a, 1, 0)
    else
      var (d, x, y) := Bezout(b, a % b);
      assert a * y + b * (x - (a / b) * y) == d by {
        assert a == b * (a / b) + a % b;
        assert b * x + (a - b * (a / b)) * y == d;
        assert b * (x - (a / b) * y) == b * x - b * (a / b) * y;
      }
      (d, y, x - (a / b) * y)
  }

  lemma DividesCombination(d: nat, a: int, b: int, k: int)
    requires d > 0 && Divides(d, a) && Divides(d, b)
    ensures Divides(d, a * k + b)
  {
    RemSmall(d, 0);
    SameMul(d, a, 0, k, k);
    SameAdd(d, a * k, 0 * k, b, 0);
  }

  lemma {:induction false} BezoutDivides(a: nat, b: nat)
    requires a > 0 || b > 0
    ensures Divides(Bezout(a, b).0, a) && Divides(Bezout(a, b).0, b)
    decreases b
  {
    var d := Bezout(a, b).0;
    if b == 0 {
      RemUnique(d, a, 0, 1);
      RemUnique(d, b, 0, 0);
    } else {
      BezoutDivides(b, a % b);
      DividesCombination(d, b, a % b, a / b);
      assert b * (a / b) + a % b == a;
    }
  }

  /** The multiplicative inverse; zero has none. */
  function Inverse(q: nat, a: int): (r: Option<nat>)
    requires IsPrime(q)
    ensures r.None? <==> Same(q, a, 0)
    ensures r.Some? ==> r.value < q && Same(q, a * r.value, 1)
  {
    if Rem(q, a) == 0 then
      None
    else
      InverseWorks(q, a);
      Some(Rem(q, Bezout(q, Rem(q, a)).2))
  }

  lemma InverseWorks(q: nat, a: int)
    requires IsPrime(q) && Rem(q, a) != 0
    ensures Same(q, a * Rem(q, Bezout(q, Rem(q, a)).2), 1)
  {
    var b := Rem(q, a);
    var (d, x, y) := Bezout(q, b);
    BezoutDivides(q, b);
    assert d == 1 by {
      var i := Multiple(d, b, 0);
      assert b == i * d;
      assert i <= 0 ==> i * d <= 0;
      assert d <= b < q by { assert i * d >= d; }
    }
    SameByMultiple(q, b * y, 1, -x);
    SameRem(q, a);
    SameRem(q, y);
    SameMul(q, a, b, Rem(q, y), y);
  }

  /** A field has no zero divisors, so a non-zero factor can be cancelled. */
  lemma Cancel(q: nat, d: int, a: int, b: int)
    requires IsPrime(q) && !Same(q, d, 0)
    requires Same(q, d * a, d * b)
    ensures Same(q, a, b)
  {
    var e := Inverse(q, d).value;
    SameMul(q, e, e, d * a, d * b);
    SameMul(q, d * e, 1, a, a);
    SameMul(q, d * e, 1, b, b);
    assert e * (d * a) == d * e * a && e * (d * b) == d * e * b;
  }

  lemma NoZeroDivisors(q: nat, a: int, b: int)
    requires IsPrime(q) && !Same(q, a, 0) && !Same(q, b, 0)
    ensures !Same(q, a * b, 0)
  {
    if Same(q, a * b, a * 0) {
      Cancel(q, a, b, 0);
    }
  }

  datatype Option<+T> = None | Some(value: T)
}
