/** The laws asked of a cryptographic context can be met: the integers modulo a large prime,
  * under addition, are such a group. */
module Consistency {
  import opened Bytes
  import opened Groups
  import opened Modular

  lemma {:induction false} PrimeDivisor(n: nat) returns (p: nat)
    requires n >= 2
    ensures IsPrime(p) && Divides(p, n)
  {
    if IsPrime(n) {
      p := n;
      RemUnique(n, n, 0, 1);
    } else {
      var d: nat :| 2 <= d < n && Divides(d, n);
      p := PrimeDivisor(d);
      RemSmall(p, 0);
      var i := Multiple(d, n, 0);
      DividesCombination(p, d, 0, i);
    }
  }

  function Factorial(n: nat): (f: nat)
    ensures f >= 1
  {
    if n == 0 then 1 else n * Factorial(n - 1)
  }

  lemma {:induction false} DividesFactorial(d: nat, n: nat)
    requires 1 <= d <= n
    ensures Divides(d, Factorial(n))
  {
    RemSmall(d, 0);
    if d == n {
      SameByMultiple(d, Factorial(n), 0, Factorial(n - 1));
    } else {
      DividesFactorial(d, n - 1);
      DividesCombination(d, Factorial(n - 1), 0, n);
    }
  }

  /** There are primes above any bound. */
  lemma LargerPrime(n: nat) returns (p: nat)
    ensures IsPrime(p) && p > n
  {
    hide Rem, Factorial;
    p := PrimeDivisor(Factorial(n) + 1);
    if p <= n {
      DividesFactorial(p, n);
      RemSmall(p, 0);
      RemSmall(p, 1);
      SameAdd(p, Factorial(n) + 1, 0, Factorial(n), 0);
    }
  }

  ghost function ChoosePrime(): (p: nat)
    ensures IsPrime(p) && p > 0x1_0000_0000
  {
    PrimeExists();
    var p: nat :| IsPrime(p) && p > 0x1_0000_0000;
    p
  }

  lemma PrimeExists()
    ensures exists p: nat :: IsPrime(p) && p > 0x1_0000_0000
  {
    var p := LargerPrime(0x1_0000_0000);
  }

  ghost const ORDER: nat := ChoosePrime()

  type Residue = x: nat | x < ORDER witness 0

  ghost function Additive(): Context<Residue> {
    Context(
      ORDER,
      0,
      1,
      (x: Residue, y: Residue) => Rem(ORDER, x + y) as Residue,
      (x: Residue) => Rem(ORDER, -(x as int)) as Residue,
      (x: Residue, s: nat) => Rem(ORDER, x * s) as Residue,
      x => [],
      s => Some(0))
  }

  lemma AdditiveAssociative(x: Residue, y: Residue, z: Residue)
    ensures Additive().Associative(x, y, z)
  {
    hide Rem;
    SameRem(ORDER, x + y);
    SameRem(ORDER, y + z);
    SameAdd(ORDER, Rem(ORDER, x + y), x + y, z, z);
    SameAdd(ORDER, x, x, Rem(ORDER, y + z), y + z);
  }

  lemma AdditiveUnitAndInverse(x: Residue)
    ensures Additive().HasUnitAndInverse(x)
  {
    hide Rem;
    RemSmall(ORDER, x);
    RemSmall(ORDER, 0);
    SameRem(ORDER, -(x as int));
    SameAdd(ORDER, Rem(ORDER, -(x as int)), -(x as int), x, x);
  }

  lemma AdditiveExpSteps(x: Residue, s: nat)
    ensures Additive().ExpSteps(x, s)
  {
    hide Rem;
    RemSmall(ORDER, 0);
    assert x * 0 == 0;
    SameRem(ORDER, s + 1);
    SameMul(ORDER, x, x, Rem(ORDER, s + 1), s + 1);
    SameRem(ORDER, x * s);
    SameAdd(ORDER, x, x, Rem(ORDER, x * s), x * s);
    assert x * (s + 1) == x + x * s;
  }

  lemma AdditiveGenerated(x: Residue, t: Residue)
    ensures Additive().Generated(x) && Additive().ExpInjective(x, t)
  {
    hide Rem;
    RemSmall(ORDER, x);
    RemSmall(ORDER, t);
    assert 1 * x == x && 1 * t == t;
    assert Additive().exp(Additive().generator, x) == x;
  }

  lemma AdditiveValid()
    ensures Additive().Valid()
  {
    hide Rem;
    forall x: Residue, y: Residue, z: Residue ensures Additive().Associative(x, y, z) {
      AdditiveAssociative(x, y, z);
    }
    forall x: Residue ensures Additive().HasUnitAndInverse(x) {
      AdditiveUnitAndInverse(x);
    }
    forall x: Residue, s: nat ensures Additive().ExpSteps(x, s) {
      AdditiveExpSteps(x, s);
    }
    forall x: Residue ensures Additive().Generated(x) {
      AdditiveGenerated(x, 0);
    }
    forall s: nat, t: nat ensures Additive().ExpInjective(s, t) {
      if s < ORDER && t < ORDER {
        AdditiveGenerated(s, t);
      }
    }
  }
}
