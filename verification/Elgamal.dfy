/** The ElGamal cryptosystem over products of a group. */
module Elgamal {
  import opened Groups
  import opened Modular
  import opened Results

  datatype Ciphertext<E> = Ciphertext(u: seq<E>, v: seq<E>)

  /** Both halves of a ciphertext have the same width. */
  predicate WellFormed<E>(ct: Ciphertext<E>, width: nat) {
    |ct.u| == |ct.v| == width
  }

  function EncryptWithR<E(==,!new)>(c: Context<E>, y: E, message: seq<E>, r: seq<int>): (ct: Ciphertext<E>)
    requires c.q > 0 && |message| == |r|
    ensures WellFormed(ct, |r|)
  {
    Ciphertext(c.ReplExp(c.generator, r), c.Mul(message, c.ReplExp(y, r)))
  }

  /** Decryption with the secret key. */
  function Decrypt<E(==,!new)>(c: Context<E>, u: seq<E>, v: seq<E>, sk: int): (m: seq<E>)
    requires c.q > 0 && |u| == |v|
    ensures |m| == |v|
  {
    c.Mul(v, c.DistExp(u, -sk))
  }

  /** Decryption without the secret key, by someone who knows the randomness. */
  function DecryptWithR<E(==,!new)>(c: Context<E>, y: E, ct: Ciphertext<E>, r: seq<int>): Result<seq<E>>
    requires c.q > 0 && WellFormed(ct, |r|)
  {
    if c.ReplExp(c.generator, r) != ct.u then
      Err(DecryptionError)
    else
      Ok(c.Mul(ct.v, c.Inv(c.ReplExp(y, r))))
  }

  function ReEncrypt<E(==,!new)>(c: Context<E>, ct: Ciphertext<E>, r: seq<int>, pk: E): (ct': Ciphertext<E>)
    requires c.q > 0 && WellFormed(ct, |r|)
    ensures WellFormed(ct', |r|)
  {
    Ciphertext(c.Mul(ct.u, c.ReplExp(c.generator, r)), c.Mul(ct.v, c.ReplExp(pk, r)))
  }

  /** The logarithm of a decrypted component: the ciphertext's, less sk times the key share's. */
  lemma LogDecrypt<E(!new)>(c: Context<E>, u: seq<E>, v: seq<E>, sk: int, i: nat)
    requires c.Valid() && |u| == |v| && i < |v|
    ensures Same(c.q, c.Log(Decrypt(c, u, v, sk)[i]), c.Log(v[i]) - c.Log(u[i]) * sk)
  {
    hide Rem;
    LogMul(c, v[i], c.Exp(u[i], -sk));
    LogExp(c, u[i], -sk);
    SameRem(c.q, c.Log(u[i]) * -sk);
    SameAdd(c.q, c.Log(v[i]), c.Log(v[i]), c.Log(c.Exp(u[i], -sk)), c.Log(u[i]) * -sk);
    SameRem(c.q, c.Log(v[i]) + c.Log(c.Exp(u[i], -sk)));
    assert c.Log(v[i]) + c.Log(u[i]) * -sk == c.Log(v[i]) - c.Log(u[i]) * sk;
  }

  /** Two equal-width rows of elements are equal when their logarithms are. */
  lemma RowsEqual<E(!new)>(c: Context<E>, xs: seq<E>, ys: seq<E>)
    requires c.Valid() && |xs| == |ys|
    requires forall i | 0 <= i < |xs| :: Same(c.q, c.Log(xs[i]), c.Log(ys[i]))
    ensures xs == ys
  {
    forall i | 0 <= i < |xs| ensures xs[i] == ys[i] {
      LogInjective(c, xs[i], ys[i]);
    }
  }

  lemma LogEncrypt<E(!new)>(c: Context<E>, y: E, message: seq<E>, r: seq<int>, i: nat)
    requires c.Valid() && |message| == |r| && i < |r|
    ensures Same(c.q, c.Log(EncryptWithR(c, y, message, r).u[i]), r[i])
    ensures Same(c.q, c.Log(EncryptWithR(c, y, message, r).v[i]), c.Log(message[i]) + c.Log(y) * r[i])
  {
    hide Rem;
    LogOfPower(c, r[i]);
    SameRem(c.q, r[i]);
    LogMul(c, message[i], c.Exp(y, r[i]));
    LogExp(c, y, r[i]);
    SameRem(c.q, c.Log(y) * r[i]);
    SameAdd(c.q, c.Log(message[i]), c.Log(message[i]), c.Log(c.Exp(y, r[i])), c.Log(y) * r[i]);
    SameRem(c.q, c.Log(message[i]) + c.Log(c.Exp(y, r[i])));
  }

  /** Decrypting with the secret key gives back the message. */
  lemma DecryptEncrypt<E(!new)>(c: Context<E>, sk: int, message: seq<E>, r: seq<int>)
    requires c.Valid() && |message| == |r|
    ensures var ct := EncryptWithR(c, c.Exp(c.generator, sk), message, r);
            Decrypt(c, ct.u, ct.v, sk) == message
  {
    hide Rem;
    var y := c.Exp(c.generator, sk);
    var ct := EncryptWithR(c, y, message, r);
    forall i | 0 <= i < |message|
      ensures Same(c.q, c.Log(Decrypt(c, ct.u, ct.v, sk)[i]), c.Log(message[i]))
    {
      LogDecrypt(c, ct.u, ct.v, sk, i);
      LogEncrypt(c, y, message, r, i);
      LogOfPower(c, sk);
      SameRem(c.q, sk);
      DecryptedLog(c.q, c.Log(ct.u[i]), c.Log(ct.v[i]), c.Log(message[i]), c.Log(y), r[i], sk);
    }
    RowsEqual(c, Decrypt(c, ct.u, ct.v, sk), message);
  }

  lemma DecryptedLog(q: nat, u: int, v: int, m: int, y: int, r: int, sk: int)
    requires q > 0 && Same(q, u, r) && Same(q, v, m + y * r) && Same(q, y, sk)
    ensures Same(q, v - u * sk, m)
  {
    hide Rem;
    SameMul(q, u, r, sk, sk);
    SameMul(q, y, sk, r, r);
    SameAdd(q, m, m, y * r, sk * r);
    SameAdd(q, v, m + sk * r, u * sk, r * sk);
    assert m + sk * r - r * sk == m;
  }

  // Decryption with the randomness

  lemma LogDecryptWithR<E(!new)>(c: Context<E>, y: E, v: seq<E>, r: seq<int>, i: nat)
    requires c.Valid() && |v| == |r| && i < |r|
    ensures Same(c.q, c.Log(c.Mul(v, c.Inv(c.ReplExp(y, r)))[i]), c.Log(v[i]) - c.Log(y) * r[i])
  {
    hide Rem;
    var p := c.Exp(y, r[i]);
    LogExp(c, y, r[i]);
    SameRem(c.q, c.Log(y) * r[i]);
    LogInv(c, p);
    LogMul(c, v[i], c.inv(p));
    SameAdd(c.q, 0, 0, c.Log(p), c.Log(y) * r[i]);
    SameAdd(c.q, c.Log(v[i]), c.Log(v[i]), c.Log(c.inv(p)), -(c.Log(y) * r[i]));
    SameRem(c.q, c.Log(v[i]) + c.Log(c.inv(p)));
  }

  /** The randomness is accepted exactly when it is the ciphertext's, and then the result is
    * what the holder of the secret key decrypts, honest ciphertext or not. */
  lemma DecryptWithRExact<E(!new)>(c: Context<E>, sk: int, ct: Ciphertext<E>, r: seq<int>)
    requires c.Valid() && WellFormed(ct, |r|)
    ensures var result := DecryptWithR(c, c.Exp(c.generator, sk), ct, r);
            && (result.Ok? <==> forall i | 0 <= i < |r| :: Same(c.q, r[i], c.Log(ct.u[i])))
            && (result.Ok? ==> result.value == Decrypt(c, ct.u, ct.v, sk))
  {
    hide Rem;
    var y := c.Exp(c.generator, sk);
    var powers := c.ReplExp(c.generator, r);
    forall i | 0 <= i < |r| ensures Same(c.q, c.Log(powers[i]), r[i]) {
      LogOfPower(c, r[i]);
      SameRem(c.q, r[i]);
    }
    if forall i | 0 <= i < |r| :: Same(c.q, r[i], c.Log(ct.u[i])) {
      RowsEqual(c, powers, ct.u);
    }
    if powers == ct.u {
      var m := c.Mul(ct.v, c.Inv(c.ReplExp(y, r)));
      forall i | 0 <= i < |r|
        ensures Same(c.q, c.Log(m[i]), c.Log(Decrypt(c, ct.u, ct.v, sk)[i]))
      {
        LogDecryptWithR(c, y, ct.v, r, i);
        LogDecrypt(c, ct.u, ct.v, sk, i);
        LogOfPower(c, sk);
        SameRem(c.q, sk);
        SameMul(c.q, c.Log(y), sk, r[i], c.Log(ct.u[i]));
        SameAdd(c.q, c.Log(ct.v[i]), c.Log(ct.v[i]), c.Log(y) * r[i], sk * c.Log(ct.u[i]));
        assert sk * c.Log(ct.u[i]) == c.Log(ct.u[i]) * sk;
      }
      RowsEqual(c, m, Decrypt(c, ct.u, ct.v, sk));
    }
  }

  // Re-encryption chains

  function ReEncryptAll<E(==,!new)>(c: Context<E>, ct: Ciphertext<E>, rs: seq<seq<int>>, pk: E): (ct': Ciphertext<E>)
    requires c.q > 0 && |ct.u| == |ct.v|
    requires forall i | 0 <= i < |rs| :: |rs[i]| == |ct.u|
    ensures WellFormed(ct', |ct.u|)
    decreases |rs|
  {
    if rs == [] then ct else ReEncryptAll(c, ReEncrypt(c, ct, rs[0], pk), rs[1..], pk)
  }

  function AddRows(a: seq<int>, b: seq<int>): (r: seq<int>)
    requires |a| == |b|
    ensures |r| == |a|
  {
    seq(|a|, i requires 0 <= i < |a| => a[i] + b[i])
  }

  function SumRows(r: seq<int>, rs: seq<seq<int>>): (s: seq<int>)
    requires forall i | 0 <= i < |rs| :: |rs[i]| == |r|
    ensures |s| == |r|
    decreases |rs|
  {
    if rs == [] then r else SumRows(AddRows(r, rs[0]), rs[1..])
  }

  lemma LogReEncrypt<E(!new)>(c: Context<E>, ct: Ciphertext<E>, r: seq<int>, pk: E, i: nat)
    requires c.Valid() && WellFormed(ct, |r|) && i < |r|
    ensures Same(c.q, c.Log(ReEncrypt(c, ct, r, pk).u[i]), c.Log(ct.u[i]) + r[i])
    ensures Same(c.q, c.Log(ReEncrypt(c, ct, r, pk).v[i]), c.Log(ct.v[i]) + c.Log(pk) * r[i])
  {
    hide Rem;
    LogMul(c, ct.u[i], c.Exp(c.generator, r[i]));
    LogOfPower(c, r[i]);
    SameRem(c.q, r[i]);
    SameAdd(c.q, c.Log(ct.u[i]), c.Log(ct.u[i]), c.Log(c.Exp(c.generator, r[i])), r[i]);
    SameRem(c.q, c.Log(ct.u[i]) + c.Log(c.Exp(c.generator, r[i])));
    LogMul(c, ct.v[i], c.Exp(pk, r[i]));
    LogExp(c, pk, r[i]);
    SameRem(c.q, c.Log(pk) * r[i]);
    SameAdd(c.q, c.Log(ct.v[i]), c.Log(ct.v[i]), c.Log(c.Exp(pk, r[i])), c.Log(pk) * r[i]);
    SameRem(c.q, c.Log(ct.v[i]) + c.Log(c.Exp(pk, r[i])));
  }

  lemma ReEncryptOnceAt<E(!new)>(c: Context<E>, y: E, message: seq<E>, r: seq<int>, r': seq<int>, i: nat)
    requires c.Valid() && |message| == |r| == |r'| && i < |r|
    ensures var once, ct := EncryptWithR(c, y, message, AddRows(r, r')), EncryptWithR(c, y, message, r);
            && Same(c.q, c.Log(ReEncrypt(c, ct, r', y).u[i]), c.Log(once.u[i]))
            && Same(c.q, c.Log(ReEncrypt(c, ct, r', y).v[i]), c.Log(once.v[i]))
  {
    hide Rem, EncryptWithR, ReEncrypt;
    var ct := EncryptWithR(c, y, message, r);
    LogEncrypt(c, y, message, r, i);
    LogEncrypt(c, y, message, AddRows(r, r'), i);
    LogReEncrypt(c, ct, r', y, i);
    RandomnessAdds(c.q, c.Log(ct.u[i]), c.Log(ct.v[i]), c.Log(message[i]), c.Log(y), r[i], r'[i]);
  }

  lemma RandomnessAdds(q: nat, u: int, v: int, m: int, y: int, r: int, r': int)
    requires q > 0 && Same(q, u, r) && Same(q, v, m + y * r)
    ensures Same(q, u + r', r + r') && Same(q, v + y * r', m + y * (r + r'))
  {
    hide Rem;
    SameAdd(q, u, r, r', r');
    SameAdd(q, v, m + y * r, y * r', y * r');
    assert m + y * r + y * r' == m + y * (r + r');
  }

  /** Re-encrypting an encryption is encrypting once with the randomness added. */
  lemma ReEncryptOnce<E(!new)>(c: Context<E>, y: E, message: seq<E>, r: seq<int>, r': seq<int>)
    requires c.Valid() && |message| == |r| == |r'|
    ensures ReEncrypt(c, EncryptWithR(c, y, message, r), r', y) == EncryptWithR(c, y, message, AddRows(r, r'))
  {
    hide Rem, EncryptWithR, ReEncrypt;
    var both := ReEncrypt(c, EncryptWithR(c, y, message, r), r', y);
    var once := EncryptWithR(c, y, message, AddRows(r, r'));
    forall i | 0 <= i < |r|
      ensures Same(c.q, c.Log(both.u[i]), c.Log(once.u[i])) && Same(c.q, c.Log(both.v[i]), c.Log(once.v[i]))
    {
      ReEncryptOnceAt(c, y, message, r, r', i);
    }
    RowsEqual(c, both.u, once.u);
    RowsEqual(c, both.v, once.v);
  }

  /** A chain of re-encryptions is one encryption with the summed randomness. */
  lemma {:induction false} ReEncryptionChain<E(!new)>(c: Context<E>, y: E, message: seq<E>, r: seq<int>,
                                                      rs: seq<seq<int>>)
    requires c.Valid() && |message| == |r|
    requires forall i | 0 <= i < |rs| :: |rs[i]| == |r|
    ensures ReEncryptAll(c, EncryptWithR(c, y, message, r), rs, y) == EncryptWithR(c, y, message, SumRows(r, rs))
    decreases |rs|
  {
    if rs != [] {
      ReEncryptOnce(c, y, message, r, rs[0]);
      ReEncryptionChain(c, y, message, AddRows(r, rs[0]), rs[1..]);
    }
  }

  lemma ReEncryptKeepsAt<E(!new)>(c: Context<E>, sk: int, ct: Ciphertext<E>, r: seq<int>, i: nat)
    requires c.Valid() && WellFormed(ct, |r|) && i < |r|
    ensures var ct' := ReEncrypt(c, ct, r, c.Exp(c.generator, sk));
            Same(c.q, c.Log(Decrypt(c, ct'.u, ct'.v, sk)[i]), c.Log(Decrypt(c, ct.u, ct.v, sk)[i]))
  {
    hide Rem, ReEncrypt, Decrypt;
    var pk := c.Exp(c.generator, sk);
    var ct' := ReEncrypt(c, ct, r, pk);
    LogDecrypt(c, ct.u, ct.v, sk, i);
    LogDecrypt(c, ct'.u, ct'.v, sk, i);
    LogReEncrypt(c, ct, r, pk, i);
    LogOfPower(c, sk);
    SameRem(c.q, sk);
    BlindingCancels(c.q, c.Log(ct.u[i]), c.Log(ct'.u[i]), c.Log(ct.v[i]), c.Log(ct'.v[i]), c.Log(pk), r[i], sk);
  }

  /** Re-encrypting any ciphertext once does not change what it decrypts to. */
  lemma ReEncryptKeeps<E(!new)>(c: Context<E>, sk: int, ct: Ciphertext<E>, r: seq<int>)
    requires c.Valid() && WellFormed(ct, |r|)
    ensures var ct' := ReEncrypt(c, ct, r, c.Exp(c.generator, sk));
            Decrypt(c, ct'.u, ct'.v, sk) == Decrypt(c, ct.u, ct.v, sk)
  {
    hide Rem, ReEncrypt, Decrypt;
    var ct' := ReEncrypt(c, ct, r, c.Exp(c.generator, sk));
    var before, after := Decrypt(c, ct.u, ct.v, sk), Decrypt(c, ct'.u, ct'.v, sk);
    forall i | 0 <= i < |r| ensures Same(c.q, c.Log(after[i]), c.Log(before[i])) {
      ReEncryptKeepsAt(c, sk, ct, r, i);
    }
    RowsEqual(c, after, before);
  }

  /** No chain of re-encryptions, of any ciphertext, changes what it decrypts to. */
  lemma {:induction false} ReEncryptionKeepsPlaintext<E(!new)>(c: Context<E>, sk: int, ct: Ciphertext<E>,
                                                               rs: seq<seq<int>>)
    requires c.Valid() && |ct.u| == |ct.v|
    requires forall i | 0 <= i < |rs| :: |rs[i]| == |ct.u|
    ensures var ct' := ReEncryptAll(c, ct, rs, c.Exp(c.generator, sk));
            Decrypt(c, ct'.u, ct'.v, sk) == Decrypt(c, ct.u, ct.v, sk)
    decreases |rs|
  {
    hide Rem, ReEncrypt, Decrypt;
    if rs != [] {
      ReEncryptKeeps(c, sk, ct, rs[0]);
      ReEncryptionKeepsPlaintext(c, sk, ReEncrypt(c, ct, rs[0], c.Exp(c.generator, sk)), rs[1..]);
    }
  }

  lemma BlindingCancels(q: nat, u: int, u': int, v: int, v': int, y: int, r: int, sk: int)
    requires q > 0 && Same(q, u', u + r) && Same(q, v', v + y * r) && Same(q, y, sk)
    ensures Same(q, v' - u' * sk, v - u * sk)
  {
    hide Rem;
    SameMul(q, y, sk, r, r);
    SameAdd(q, v, v, y * r, sk * r);
    SameMul(q, u', u + r, sk, sk);
    SameAdd(q, v', v + sk * r, u' * sk, (u + r) * sk);
    assert v + sk * r - (u + r) * sk == v - u * sk;
  }
}
