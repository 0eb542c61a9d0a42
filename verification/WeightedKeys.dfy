/** The one key that verification keys stand for, weighted by the coefficients of the sources they come with. */
module WeightedKeys {
  import opened Bytes
  import opened Decryption
  import opened Elgamal
  import opened Groups
  import opened KeyGeneration
  import opened Lagrange
  import opened Modular
  import opened Polynomials
  import opened Results
  import opened ThresholdDecryption

  /** The product of the keys, each raised to the coefficient of its source among those present.
    * It is computed from public data alone. */
  function WeightedKey<E(==,!new)>(c: Context<E>, sources: seq<Position>, verificationKeys: seq<E>,
                                   present: seq<Position>): E
    requires IsPrime(c.q) && InRange(c.q, sources) && InRange(c.q, present) && |sources| == |verificationKeys|
  {
    if sources == [] then
      c.one
    else
      var n := |sources| - 1;
      c.mul(c.Exp(verificationKeys[n], Coefficient(c.q, sources[n], present)),
            WeightedKey(c, sources[..n], verificationKeys[..n], present))
  }

  /** One factor is the ciphertext's first half to the logarithm of the trustee's key. */
  ghost predicate KeyPower<E(!new)>(c: Context<E>, ciphertext: Ciphertext<E>, factors: seq<DecryptionFactor<E>>,
                                    verificationKey: E, k: nat, width: nat)
    requires c.Valid()
  {
    && FactorAt(c.q, factors, k, width)
    && factors[k].value == c.DistExp(ciphertext.u, c.Log(verificationKey))
  }

  lemma {:induction false} DivisorOfKeys<E(!new)>(c: Context<E>, ciphertext: Ciphertext<E>,
                                                  dfactors: seq<seq<DecryptionFactor<E>>>, verificationKeys: seq<E>,
                                                  present: seq<Position>, k: nat, width: nat, j: nat)
    requires c.Valid() && InRange(c.q, present) && |dfactors| == |verificationKeys|
    requires |ciphertext.u| == width && j < width
    requires forall i | 0 <= i < |dfactors| :: dfactors[i] != []
    requires forall i | 0 <= i < |dfactors| :: KeyPower(c, ciphertext, dfactors[i], verificationKeys[i], k, width)
    ensures InRange(c.q, Sources(dfactors))
    ensures forall i | 0 <= i < |dfactors| :: FactorAt(c.q, dfactors[i], k, width)
    ensures Same(c.q, c.Log(DivisorAt(c, dfactors, present, k, width)[j]),
                      c.Log(ciphertext.u[j]) * c.Log(WeightedKey(c, Sources(dfactors), verificationKeys, present)))
    decreases |dfactors|
  {
    hide Rem, Coefficient;
    var x := ciphertext.u[j];
    forall i | 0 <= i < |dfactors| ensures FactorAt(c.q, dfactors[i], k, width) && 0 <= dfactors[i][0].source < c.q {
      assert KeyPower(c, ciphertext, dfactors[i], verificationKeys[i], k, width);
    }
    if dfactors == [] {
      LogOne(c);
      assert c.Log(x) * 0 == 0;
    } else {
      var n := |dfactors| - 1;
      var p := dfactors[n][0].source;
      DivisorOfKeys(c, ciphertext, dfactors[..n], verificationKeys[..n], present, k, width, j);
      assert Sources(dfactors)[..n] == Sources(dfactors[..n]);
      assert KeyPower(c, ciphertext, dfactors[n], verificationKeys[n], k, width);
      assert dfactors[n][k].value[j] == c.Exp(x, c.Log(verificationKeys[n]));
      DivisorOfKeysStep(c, x, verificationKeys[n], Coefficient(c.q, p, present),
                        DivisorAt(c, dfactors[..n], present, k, width)[j],
                        WeightedKey(c, Sources(dfactors[..n]), verificationKeys[..n], present));
    }
  }

  lemma DivisorOfKeysStep<E(!new)>(c: Context<E>, x: E, vk: E, l: int, d: E, w: E)
    requires c.Valid() && Same(c.q, c.Log(d), c.Log(x) * c.Log(w))
    ensures Same(c.q, c.Log(c.mul(c.Exp(c.Exp(x, c.Log(vk)), l), d)), c.Log(x) * c.Log(c.mul(c.Exp(vk, l), w)))
  {
    hide Rem;
    LogFactor(c, x, c.Log(vk), l, d, c.Log(w));
    LogMul(c, c.Exp(vk, l), w);
    LogExp(c, vk, l);
    WeightStep(c.q, c.Log(c.mul(c.Exp(vk, l), w)), c.Log(c.Exp(vk, l)), c.Log(vk), l, c.Log(w));
    SameMul(c.q, c.Log(x), c.Log(x), c.Log(c.mul(c.Exp(vk, l), w)), c.Log(w) + l * c.Log(vk));
  }

  lemma WeightStep(q: nat, all: int, power: int, key: int, l: int, w: int)
    requires q > 0 && all == Rem(q, power + w) && power == Rem(q, key * l)
    ensures Same(q, all, w + l * key)
  {
    hide Rem;
    SameRem(q, power + w);
    SameRem(q, key * l);
    SameAdd(q, power, key * l, w, w);
    assert key * l + w == w + l * key;
  }

  /** Dividing by the product of such factors is decrypting with the weighted key's logarithm. */
  lemma RowOfKeys<E(!new)>(c: Context<E>, ciphertext: Ciphertext<E>, dfactors: seq<seq<DecryptionFactor<E>>>,
                           verificationKeys: seq<E>, k: nat, width: nat)
    requires c.Valid() && |dfactors| == |verificationKeys| && |ciphertext.u| == |ciphertext.v| == width
    requires forall i | 0 <= i < |dfactors| :: dfactors[i] != []
    requires InRange(c.q, Sources(dfactors))
    requires forall i | 0 <= i < |dfactors| :: KeyPower(c, ciphertext, dfactors[i], verificationKeys[i], k, width)
    ensures forall i | 0 <= i < |dfactors| :: FactorAt(c.q, dfactors[i], k, width)
    ensures c.Mul(ciphertext.v, c.Inv(DivisorAt(c, dfactors, Sources(dfactors), k, width)))
         == Decrypt(c, ciphertext.u, ciphertext.v,
                    c.Log(WeightedKey(c, Sources(dfactors), verificationKeys, Sources(dfactors))))
  {
    hide Rem, Coefficient, DivisorAt, Decrypt, WeightedKey, KeyPower, FactorAt;
    var present := Sources(dfactors);
    var s := c.Log(WeightedKey(c, present, verificationKeys, present));
    forall i | 0 <= i < |dfactors| ensures FactorAt(c.q, dfactors[i], k, width) {
      KeyPowerAt(c, ciphertext, dfactors[i], verificationKeys[i], k, width);
    }
    var d := DivisorAt(c, dfactors, present, k, width);
    forall j | 0 <= j < width ensures Same(c.q, c.Log(d[j]), c.Log(ciphertext.u[j]) * s) {
      DivisorOfKeys(c, ciphertext, dfactors, verificationKeys, present, k, width, j);
    }
    DivideIsDecrypt(c, ciphertext.u, ciphertext.v, d, s);
  }

  lemma KeyPowerAt<E(!new)>(c: Context<E>, ciphertext: Ciphertext<E>, factors: seq<DecryptionFactor<E>>,
                            verificationKey: E, k: nat, width: nat)
    requires c.Valid() && KeyPower(c, ciphertext, factors, verificationKey, k, width)
    ensures FactorAt(c.q, factors, k, width)
  {
  }

  // When the weighted key is the joint public key

  /** Keys that are shares of f weigh as much as the shares do. */
  lemma {:induction false} WeightedShares<E(!new)>(c: Context<E>, sources: seq<Position>, verificationKeys: seq<E>,
                                                   present: seq<Position>, f: Polynomial)
    requires c.Valid() && InRange(c.q, sources) && InRange(c.q, present) && |sources| == |verificationKeys|
    requires forall i | 0 <= i < |sources| :: verificationKeys[i] == c.Exp(c.generator, Value(f, sources[i]))
    ensures Same(c.q, c.Log(WeightedKey(c, sources, verificationKeys, present)), Weighted(c.q, sources, present, f))
    decreases |sources|
  {
    hide Rem, Coefficient, Value;
    if sources == [] {
      LogOne(c);
    } else {
      var n := |sources| - 1;
      var l, v := Coefficient(c.q, sources[n], present), Value(f, sources[n]);
      var w := WeightedKey(c, sources[..n], verificationKeys[..n], present);
      WeightedShares(c, sources[..n], verificationKeys[..n], present, f);
      ShareStep(c, verificationKeys[n], v, l, w, Weighted(c.q, sources[..n], present, f));
    }
  }

  lemma ShareStep<E(!new)>(c: Context<E>, vk: E, v: int, l: int, w: E, weight: int)
    requires c.Valid() && vk == c.Exp(c.generator, v) && Same(c.q, c.Log(w), weight)
    ensures Same(c.q, c.Log(c.mul(c.Exp(vk, l), w)), weight + l * v)
  {
    hide Rem;
    LogOfPower(c, v);
    SameRem(c.q, v);
    LogMul(c, c.Exp(vk, l), w);
    LogExp(c, vk, l);
    WeightStep(c.q, c.Log(c.mul(c.Exp(vk, l), w)), c.Log(c.Exp(vk, l)), c.Log(vk), l, c.Log(w));
    SameMul(c.q, l, l, c.Log(vk), v);
    SameAdd(c.q, c.Log(w), weight, l * c.Log(vk), l * v);
  }

  /** Keys of different sources, at least as many as the polynomial has coefficients, stand for the
    * joint public key when each belongs to the source it comes with. */
  lemma MatchingKeysWeigh<E(!new)>(c: Context<E>, sources: seq<Position>, verificationKeys: seq<E>, f: Polynomial)
    requires c.Valid() && InRange(c.q, sources) && Distinct(sources) && |f| <= |sources| == |verificationKeys|
    requires forall i | 0 <= i < |sources| :: verificationKeys[i] == c.Exp(c.generator, Value(f, sources[i]))
    ensures WeightedKey(c, sources, verificationKeys, sources) == c.Exp(c.generator, Value(f, 0))
  {
    hide Rem, Coefficient, Value, WeightedKey, Weighted;
    WeightedShares(c, sources, verificationKeys, sources, f);
    InterpolationAtZero(c.q, sources, f);
    PowerOfLog(c, WeightedKey(c, sources, verificationKeys, sources), Value(f, 0));
  }

  /** Multiplying all positions with the same factor changes no coefficient, so that keys can stand
    * for the joint public key under sources that are not theirs. */
  lemma CoefficientScaled(q: nat, position: Position, present: seq<Position>, position': Position,
                          present': seq<Position>, k: int)
    requires IsPrime(q) && 0 <= position < q && 0 <= position' < q && InRange(q, present) && InRange(q, present')
    requires k != 0 && |present'| == |present| && position' == k * position
    requires forall i | 0 <= i < |present| :: present'[i] == k * present[i]
    requires !Same(q, k, 0)
    ensures Coefficient(q, position', present') == Coefficient(q, position, present)
  {
    hide Rem, Coefficient;
    var n := ScaledProducts(position, present, position', present', k);
    var l, l' := Coefficient(q, position, present), Coefficient(q, position', present');
    var d := Denominator(position, present);
    DenominatorNotZero(q, position, present);
    PowerNotZero(q, k, n);
    ScaledCancels(q, l, l', d, Numerator(position, present), Power(k, n));
    CoefficientSmall(q, position, present);
    CoefficientSmall(q, position', present');
    RemSmall(q, l);
    RemSmall(q, l');
  }

  lemma {:induction false} WeightedKeyScaled<E(!new)>(c: Context<E>, sources: seq<Position>, sources': seq<Position>,
                                                      verificationKeys: seq<E>, present: seq<Position>,
                                                      present': seq<Position>, k: int)
    requires c.Valid() && |sources| == |sources'| == |verificationKeys| && |present| == |present'|
    requires InRange(c.q, sources) && InRange(c.q, sources') && InRange(c.q, present) && InRange(c.q, present')
    requires k != 0 && !Same(c.q, k, 0)
    requires forall i | 0 <= i < |sources| :: sources'[i] == k * sources[i]
    requires forall i | 0 <= i < |present| :: present'[i] == k * present[i]
    ensures WeightedKey(c, sources', verificationKeys, present') == WeightedKey(c, sources, verificationKeys, present)
    decreases |sources|
  {
    hide Rem, Coefficient;
    if sources != [] {
      var n := |sources| - 1;
      WeightedKeyScaled(c, sources[..n], sources'[..n], verificationKeys[..n], present, present', k);
      CoefficientScaled(c.q, sources[n], present, sources'[n], present', k);
    }
  }

  lemma {:induction false} ScaledProducts(position: Position, present: seq<Position>, position': Position,
                                          present': seq<Position>, k: int) returns (n: nat)
    requires k != 0 && |present'| == |present| && position' == k * position
    requires forall i | 0 <= i < |present| :: present'[i] == k * present[i]
    ensures Numerator(position', present') == Power(k, n) * Numerator(position, present)
    ensures Denominator(position', present') == Power(k, n) * Denominator(position, present)
    decreases |present|
  {
    n := 0;
    if present != [] {
      var m := |present| - 1;
      n := ScaledProducts(position, present[..m], position', present'[..m], k);
      ScaledDifference(k, present[m], position);
      if present[m] != position {
        ScaledStep(Power(k, n), Numerator(position, present[..m]), k, present[m]);
        ScaledStep(Power(k, n), Denominator(position, present[..m]), k, present[m] - position);
        n := n + 1;
      }
    }
  }

  lemma ScaledDifference(k: int, a: int, b: int)
    requires k != 0
    ensures k * a == k * b <==> a == b
    ensures k * a - k * b == k * (a - b)
  {
    if a != b {
      assert k * (a - b) != 0;
    }
  }

  lemma ScaledStep(p: int, a: int, k: int, b: int)
    ensures p * a * (k * b) == k * p * (a * b)
  {
    assert p * a * (k * b) == (p * a) * k * b;
  }

  lemma {:induction false} PowerNotZero(q: nat, k: int, n: nat)
    requires IsPrime(q) && !Same(q, k, 0)
    ensures !Same(q, Power(k, n), 0)
  {
    if n == 0 {
      OneIsNotZero(q);
    } else {
      PowerNotZero(q, k, n - 1);
      NoZeroDivisors(q, k, Power(k, n - 1));
    }
  }

  lemma ScaledCancels(q: nat, l: int, l': int, d: int, n: int, p: int)
    requires IsPrime(q) && !Same(q, d, 0) && !Same(q, p, 0)
    requires Same(q, l * d, n) && Same(q, l' * (p * d), p * n)
    ensures Same(q, l', l)
  {
    hide Rem;
    assert l' * (p * d) == p * (d * l');
    SameMul(q, p, p, l * d, n);
    assert p * (l * d) == p * (d * l);
    Cancel(q, p, d * l', d * l);
    Cancel(q, d, l', l);
  }

  lemma CoefficientSmall(q: nat, position: Position, present: seq<Position>)
    requires IsPrime(q) && 0 <= position < q && InRange(q, present)
    ensures Coefficient(q, position, present) < q
  {
    DenominatorNotZero(q, position, present);
  }
}
