/** The whole protocol with honest dealers. */
module HonestRun {
  import opened Bytes
  import opened Dealer
  import opened Decryption
  import opened Elgamal
  import opened Groups
  import opened KeyGeneration
  import opened Lagrange
  import opened Modular
  import opened Polynomials
  import opened Protocol
  import opened Recipient
  import opened Results
  import opened ThresholdDecryption

  /** What honest dealers publish. */
  function Published<E(==,!new)>(c: Context<E>, fs: seq<Polynomial>): (checkingValues: seq<seq<E>>)
    requires c.q > 0
    ensures |checkingValues| == |fs|
  {
    seq(|fs|, i requires 0 <= i < |fs| => GetCheckingValues(c, fs[i]))
  }

  /** Positions that dealers have shares for. */
  predicate HaveShares(positions: seq<Position>, count: nat) {
    forall i | 0 <= i < |positions| :: 1 <= positions[i] <= count
  }

  /** What honest dealers hand out. */
  function DealtHonestly<E(==,!new)>(c: Context<E>, fs: seq<Polynomial>, count: nat, positions: seq<Position>)
    : (dealt: seq<seq<VerifiableShare<E>>>)
    requires c.q > 0 && HaveShares(positions, count)
    ensures |dealt| == |positions|
    ensures forall i | 0 <= i < |positions| :: dealt[i] == HonestShares(c, fs, count, positions[i])
  {
    seq(|positions|, i requires 0 <= i < |positions| && HaveShares(positions, count) =>
      HonestShares(c, fs, count, positions[i]))
  }

  /** Enough different positions, with 32-bit powers that are right. */
  ghost predicate HonestSetup(q: nat, fs: seq<Polynomial>, count: nat, positions: seq<Position>, t: nat)
    requires q > 0
  {
    && 0 < t <= |positions| && Distinct(positions) && HaveShares(positions, count) && count < q
    && AllLength(fs, t)
    && (forall i | 0 <= i < |positions| :: PowersAgree(q, positions[i], t))
  }

  lemma HonestDealt<E(!new)>(c: Context<E>, fs: seq<Polynomial>, count: nat, position: Position, t: nat)
    requires c.Valid() && t > 0 && AllLength(fs, t) && 1 <= position <= count < c.q && PowersAgree(c.q, position, t)
    ensures Dealt(c, Published(c, fs), HonestShares(c, fs, count, position), position, t)
    ensures Accepts(c, HonestShares(c, fs, count, position), position)
  {
    hide Rem, VkFactor, VerifyShare, Accumulated;
    HonestKeyGeneration(c, fs, count, position, t, (c.one, c.one, 0));
    assert CheckingValuesOf(HonestShares(c, fs, count, position)) == Published(c, fs);
  }

  lemma HonestStart<E(!new)>(c: Context<E>, fs: seq<Polynomial>, count: nat, positions: seq<Position>, t: nat)
    requires c.Valid() && HonestSetup(c.q, fs, count, positions, t)
    ensures Setup(c, Published(c, fs), DealtHonestly(c, fs, count, positions), positions, t)
    ensures NothingRejected(c, DealtHonestly(c, fs, count, positions), positions)
  {
    hide Rem, Dealt, Accepts, Published, HonestShares, PowersAgree, AllLength;
    forall i | 0 <= i < |positions|
      ensures Dealt(c, Published(c, fs), DealtHonestly(c, fs, count, positions)[i], positions[i], t)
      ensures Accepts(c, DealtHonestly(c, fs, count, positions)[i], positions[i])
    {
      HonestDealt(c, fs, count, positions[i], t);
    }
  }

  lemma HonestSecret<E(!new)>(c: Context<E>, fs: seq<Polynomial>, count: nat, position: Position,
                              ciphertexts: seq<Ciphertext<E>>, width: nat)
    requires c.Valid() && 1 <= position <= count && AllWide(ciphertexts, width)
    ensures CentralDecryptions(c, ciphertexts, Value(Joint(AllCommitted(c, Published(c, fs))), 0), width)
         == CentralDecryptions(c, ciphertexts, Value(Joint(fs), 0), width)
    ensures c.Exp(c.generator, Value(Joint(AllCommitted(c, Published(c, fs))), 0))
         == c.Exp(c.generator, Value(Joint(fs), 0))
  {
    hide Rem, CentralDecryptions;
    assert CheckingValuesOf(HonestShares(c, fs, count, position)) == Published(c, fs);
    HonestJoint(c, fs, count, position, 0);
    ExpSame(c, Value(Joint(AllCommitted(c, Published(c, fs))), 0), Value(Joint(fs), 0));
    DecryptSame(c, ciphertexts, Value(Joint(AllCommitted(c, Published(c, fs))), 0), Value(Joint(fs), 0), width);
  }

  /** With honest dealers and hashes that succeed, key generation followed by decryption always
    * succeeds. Every recipient has the generator to the sum of the dealers' secrets as joint key,
    * every ciphertext is decrypted with that sum, and messages encrypted with the joint key are
    * what is decrypted. */
  method Run<E(==,!new)>(c: Context<E>, fs: seq<Polynomial>, count: nat, positions: seq<Position>, ghost t: nat,
                         ciphertexts: seq<Ciphertext<E>>, proofContext: ByteString, nonces: seq<seq<int>>, width: nat)
    returns (jointKeys: seq<E>, r: Result<seq<seq<E>>>)
    requires c.Valid() && HashTotal(c) && HonestSetup(c.q, fs, count, positions, t)
    requires |nonces| == |positions| && forall i | 0 <= i < |nonces| :: |nonces[i]| == |ciphertexts|
    requires ciphertexts != [] && AllWide(ciphertexts, width)
    ensures r == Ok(CentralDecryptions(c, ciphertexts, Value(Joint(fs), 0), width))
    ensures |jointKeys| == |positions|
    ensures forall i | 0 <= i < |jointKeys| :: jointKeys[i] == c.Exp(c.generator, Value(Joint(fs), 0))
    ensures forall messages, rs |
              EncryptedUnder(c, c.Exp(c.generator, Value(Joint(fs), 0)), messages, rs, ciphertexts, width) ::
              r.value == messages
  {
    assert c.q > 0 && HaveShares(positions, count) && |positions| > 0 && 1 <= positions[0] <= count;
    var dealt := DealtHonestly(c, fs, count, positions);
    hide *;
    HonestStart(c, fs, count, positions, t);
    HonestSecret(c, fs, count, positions[0], ciphertexts, width);
    jointKeys, r := DistributedDecryption(c, Published(c, fs), dealt, positions, t, ciphertexts, proofContext, nonces,
                                          width);
    forall i | 0 <= i < |jointKeys| ensures jointKeys[i] == c.Exp(c.generator, Value(Joint(fs), 0)) {
      KeyIs(c, Published(c, fs), jointKeys[i]);
    }
    assert jointKeys[0] == c.Exp(c.generator, Value(Joint(fs), 0));
  }

  lemma KeyIs<E(!new)>(c: Context<E>, checkingValues: seq<seq<E>>, pk: E)
    requires c.Valid() && JointKeyOf(c, checkingValues, pk)
    ensures pk == c.Exp(c.generator, Value(Joint(AllCommitted(c, checkingValues)), 0))
  {
  }
}
