/** Key generation followed by distributed decryption, as the participants run them. */
module Protocol {
  import opened Bytes
  import opened Dealer
  import opened Decryption
  import opened Dlogeq
  import opened Elgamal
  import opened Groups
  import opened KeyGeneration
  import opened Lagrange
  import opened Modular
  import opened Permutations
  import opened Polynomials
  import opened Recipient
  import opened Results
  import opened Threshold
  import opened ThresholdDecryption

  /** What one recipient is dealt: one share from every dealer, all with the dealers' checking values. */
  ghost predicate Dealt<E(!new)>(c: Context<E>, checkingValues: seq<seq<E>>, shares: seq<VerifiableShare<E>>,
                                 position: Position, t: nat)
    requires c.q > 0
  {
    && 0 <= position < c.q
    && AllLength(checkingValues, t)
    && CheckingValuesOf(shares) == checkingValues
    && PowersAgree(c.q, position, t)
  }

  lemma {:induction false} FactorsSucceed<E(!new)>(c: Context<E>, key: RecipientKey<E>, ciphertexts: seq<Ciphertext<E>>,
                                                   proofContext: ByteString, nonces: seq<int>)
    requires c.q > 0 && |nonces| == |ciphertexts| && HashTotal(c)
    ensures DecryptionFactors(c, key, ciphertexts, proofContext, nonces).Ok?
    decreases |ciphertexts|
  {
    hide Rem;
    if ciphertexts != [] {
      FactorsSucceed(c, key, ciphertexts[..|ciphertexts| - 1], proofContext, nonces[..|ciphertexts| - 1]);
    }
  }

  /** The key is the joint public key: what anyone computes from the checking values, and the
    * generator to the joint secret. */
  ghost predicate JointKeyOf<E(!new)>(c: Context<E>, checkingValues: seq<seq<E>>, pk: E)
    requires c.Valid()
  {
    && (forall i | 0 <= i < |checkingValues| :: |checkingValues[i]| > 0)
    && pk == Product(c, FirstValues(checkingValues))
    && pk == c.Exp(c.generator, Value(Joint(AllCommitted(c, checkingValues)), 0))
  }

  /** The keys that pass key generation are shares of the polynomial behind all checking values. */
  lemma DealtKeys<E(!new)>(c: Context<E>, checkingValues: seq<seq<E>>, shares: seq<VerifiableShare<E>>,
                           position: Position,
                           t: nat, keys: (E, E, int))
    requires c.Valid() && t > 0 && Dealt(c, checkingValues, shares, position, t)
    requires forall i | 0 <= i < |shares| :: |shares[i].checkingValues| > 0
    requires AllVerify(c, shares, position) && Accumulated(c, shares, position, keys)
    ensures KeyOf(c, RecipientKey(position, keys.1, keys.2), Joint(AllCommitted(c, checkingValues)))
    ensures JointKeyOf(c, checkingValues, keys.0)
  {
    hide Rem;
    forall i | 0 <= i < |shares| ensures |shares[i].checkingValues| == t {
      assert checkingValues[i] == shares[i].checkingValues;
    }
    PartiesAgree(c, shares, position, t, keys);
  }

  lemma DealtNonEmpty<E(!new)>(c: Context<E>, checkingValues: seq<seq<E>>, shares: seq<VerifiableShare<E>>,
                               position: Position, t: nat)
    requires c.Valid() && t > 0 && Dealt(c, checkingValues, shares, position, t)
    ensures c.q > 0 && forall j | 0 <= j < |shares| :: |shares[j].checkingValues| > 0
  {
    hide Rem;
    forall j | 0 <= j < |shares| ensures |shares[j].checkingValues| > 0 {
      assert |checkingValues[j]| == t;
    }
  }

  /** One recipient: verify what it is dealt, accumulate the keys and decrypt partially. The
    * joint public key is returned with the recipient's own key and factors. */
  method RunRecipient<E(==,!new)>(c: Context<E>, ghost checkingValues: seq<seq<E>>, shares: seq<VerifiableShare<E>>,
                                  position: Position, ghost t: nat, ciphertexts: seq<Ciphertext<E>>,
                                  proofContext: ByteString, nonces: seq<int>)
    returns (r: Result<(RecipientKey<E>, E, seq<DecryptionFactor<E>>)>)
    requires c.Valid() && t > 0 && Dealt(c, checkingValues, shares, position, t) && |nonces| == |ciphertexts|
    ensures r.Ok? ==> r.value.0.position == position
    ensures r.Ok? ==> KeyOf(c, r.value.0, Joint(AllCommitted(c, checkingValues)))
    ensures r.Ok? ==> JointKeyOf(c, checkingValues, r.value.1)
    ensures r.Ok? ==> FactorOf(c, ciphertexts, r.value.0, r.value.2, proofContext)
    ensures r.Ok? ==> Accepts(c, shares, position)
    ensures r.Err? ==> r.error == if Accepts(c, shares, position) then HashToElementError else ShareVerificationFailed
    ensures HashTotal(c) && Accepts(c, shares, position) ==> r.Ok?
  {
    DealtNonEmpty(c, checkingValues, shares, position, t);
    assert Accepts(c, shares, position) <==> AllVerify(c, shares, position);
    hide *;
    var verified := VerifyShares(c, position, shares);
    if verified.Err? {
      return Err(verified.error);
    }
    DealtKeys(c, checkingValues, shares, position, t, verified.value);
    var key := RecipientKey(position, verified.value.1, verified.value.2);
    var factors := DecryptionFactors(c, key, ciphertexts, proofContext, nonces);
    if factors.Err? {
      FactorsError(c, key, ciphertexts, proofContext, nonces);
      return Err(factors.error);
    }
    FactorOfComputed(c, ciphertexts, key, factors.value, proofContext, nonces);
    r := Ok((key, verified.value.0, factors.value));
  }

  /** What all recipients are dealt, at distinct positions, at least as many as the threshold. */
  ghost predicate Setup<E(!new)>(c: Context<E>, checkingValues: seq<seq<E>>, dealt: seq<seq<VerifiableShare<E>>>,
                                 positions: seq<Position>, t: nat)
    requires c.q > 0
  {
    && 0 < t <= |positions|
    && Distinct(positions)
    && |dealt| == |positions|
    && (forall i | 0 <= i < |positions| :: Dealt(c, checkingValues, dealt[i], positions[i], t))
  }

  ghost predicate Accepts<E(!new)>(c: Context<E>, shares: seq<VerifiableShare<E>>, position: Position)
    requires c.q > 0
  {
    (forall j | 0 <= j < |shares| :: |shares[j].checkingValues| > 0) && AllVerify(c, shares, position)
  }

  /** No recipient rejects what it is dealt. */
  ghost predicate NothingRejected<E(!new)>(c: Context<E>, dealt: seq<seq<VerifiableShare<E>>>, positions: seq<Position>)
    requires c.q > 0 && |dealt| == |positions|
  {
    forall i | 0 <= i < |dealt| :: Accepts(c, dealt[i], positions[i])
  }

  /** The distributed protocol: the recipients verify what they are dealt, decrypt partially,
    * and their factors are combined. Whatever dealers dealt the shares, the recipients all have
    * the same joint public key, and the result is decryption with the secret behind it, hence the
    * messages, if they were encrypted with that key. It fails only if a share is rejected or a
    * challenge cannot be hashed. */
  method DistributedDecryption<E(==,!new)>(c: Context<E>, ghost checkingValues: seq<seq<E>>,
                                           dealt: seq<seq<VerifiableShare<E>>>, positions: seq<Position>, ghost t: nat,
                                           ciphertexts: seq<Ciphertext<E>>, proofContext: ByteString,
                                           nonces: seq<seq<int>>, width: nat)
    returns (jointKeys: seq<E>, r: Result<seq<seq<E>>>)
    requires c.Valid() && Setup(c, checkingValues, dealt, positions, t)
    requires |nonces| == |positions| && forall i | 0 <= i < |nonces| :: |nonces[i]| == |ciphertexts|
    requires ciphertexts != [] && AllWide(ciphertexts, width)
    ensures r.Ok? ==>
              r.value == CentralDecryptions(c, ciphertexts, Value(Joint(AllCommitted(c, checkingValues)), 0), width)
    ensures forall i | 0 <= i < |jointKeys| :: JointKeyOf(c, checkingValues, jointKeys[i])
    ensures r.Ok? ==> |jointKeys| == |positions| && forall messages, rs |
              EncryptedUnder(c, jointKeys[0], messages, rs, ciphertexts, width) :: r.value == messages
    ensures NothingRejected(c, dealt, positions) && HashTotal(c) ==> r.Ok?
    ensures r.Ok? ==> NothingRejected(c, dealt, positions)
    ensures r.Err? ==> r.error == HashToElementError
                       || (r.error == ShareVerificationFailed && !NothingRejected(c, dealt, positions))
  {
    assert c.q > 0 && |dealt| == |positions|;
    hide *;
    ghost var f := Joint(AllCommitted(c, checkingValues));
    var keys: seq<RecipientKey<E>>, dfactors: seq<seq<DecryptionFactor<E>>> := [], [];
    jointKeys := [];
    NothingRan(c, f, positions, ciphertexts, proofContext);
    for i := 0 to |positions|
      invariant RecipientsRan(c, f, positions[..i], keys, dfactors, ciphertexts, proofContext)
      invariant NothingRejected(c, dealt[..i], positions[..i])
      invariant |jointKeys| == i && forall k | 0 <= k < i :: JointKeyOf(c, checkingValues, jointKeys[k])
    {
      SetupAt(c, checkingValues, dealt, positions, t, i);
      var run := RunRecipient(c, checkingValues, dealt[i], positions[i], t, ciphertexts, proofContext, nonces[i]);
      NothingRejectedStep(c, dealt, positions, i);
      if run.Err? {
        return jointKeys, Err(run.error);
      }
      RecipientsRanStep(c, f, positions, i, keys, dfactors, run.value.0, run.value.2, ciphertexts, proofContext);
      keys, jointKeys, dfactors := keys + [run.value.0], jointKeys + [run.value.1], dfactors + [run.value.2];
    }
    assert dealt[..|positions|] == dealt && positions[..|positions|] == positions;
    RecipientsDecrypt(c, checkingValues, dealt, positions, t, keys, dfactors, ciphertexts, proofContext, width);
    SetupNonEmpty(c, checkingValues, dealt, positions, t);
    AnyMessagesDecrypted(c, checkingValues, jointKeys[0], ciphertexts, width);
    r := Combine(c, ciphertexts, dfactors, VerificationKeys(keys), proofContext, width);
  }

  /** Every recipient has its share of f as a key, and the factors it computes with it. */
  ghost predicate RecipientsRan<E(!new)>(c: Context<E>, f: Polynomial, positions: seq<Position>,
                                         keys: seq<RecipientKey<E>>,
                                         dfactors: seq<seq<DecryptionFactor<E>>>, ciphertexts: seq<Ciphertext<E>>,
                                         proofContext: ByteString)
    requires c.q > 0
  {
    && Positions(keys) == positions
    && KeysOf(c, keys, f)
    && FactorsOf(c, ciphertexts, keys, dfactors, proofContext)
  }

  lemma NothingRan<E(!new)>(c: Context<E>, f: Polynomial, positions: seq<Position>, ciphertexts: seq<Ciphertext<E>>,
                            proofContext: ByteString)
    requires c.q > 0
    ensures RecipientsRan(c, f, positions[..0], [], [], ciphertexts, proofContext)
  {
  }

  lemma RecipientsRanStep<E(!new)>(c: Context<E>, f: Polynomial, positions: seq<Position>, i: nat,
                                   keys: seq<RecipientKey<E>>, dfactors: seq<seq<DecryptionFactor<E>>>,
                                   key: RecipientKey<E>, factors: seq<DecryptionFactor<E>>,
                                   ciphertexts: seq<Ciphertext<E>>, proofContext: ByteString)
    requires c.q > 0 && i < |positions|
    requires RecipientsRan(c, f, positions[..i], keys, dfactors, ciphertexts, proofContext)
    requires key.position == positions[i] && KeyOf(c, key, f) && FactorOf(c, ciphertexts, key, factors, proofContext)
    ensures RecipientsRan(c, f, positions[..i + 1], keys + [key], dfactors + [factors], ciphertexts, proofContext)
  {
    hide KeyOf, FactorOf;
    assert Positions(keys + [key]) == positions[..i] + [positions[i]];
  }

  lemma SetupAt<E(!new)>(c: Context<E>, checkingValues: seq<seq<E>>, dealt: seq<seq<VerifiableShare<E>>>,
                         positions: seq<Position>, t: nat, i: nat)
    requires c.q > 0 && Setup(c, checkingValues, dealt, positions, t) && i < |dealt|
    ensures t > 0 && Dealt(c, checkingValues, dealt[i], positions[i], t)
  {
    hide Dealt;
  }

  lemma SetupNonEmpty<E(!new)>(c: Context<E>, checkingValues: seq<seq<E>>, dealt: seq<seq<VerifiableShare<E>>>,
                               positions: seq<Position>, t: nat)
    requires c.q > 0 && Setup(c, checkingValues, dealt, positions, t)
    ensures |positions| > 0
  {
    hide Dealt;
  }

  lemma NothingRejectedStep<E(!new)>(c: Context<E>, dealt: seq<seq<VerifiableShare<E>>>, positions: seq<Position>,
                                     i: nat)
    requires c.q > 0 && |dealt| == |positions| && i < |dealt|
    requires NothingRejected(c, dealt[..i], positions[..i])
    ensures NothingRejected(c, dealt[..i + 1], positions[..i + 1]) <==> Accepts(c, dealt[i], positions[i])
    ensures NothingRejected(c, dealt, positions) ==> Accepts(c, dealt[i], positions[i])
  {
    hide Accepts;
    assert dealt[..i + 1][i] == dealt[i] && positions[..i + 1][i] == positions[i];
    forall k | 0 <= k < i ensures Accepts(c, dealt[k], positions[k]) {
      assert Accepts(c, dealt[..i][k], positions[..i][k]);
    }
  }

  lemma RecipientsDecrypt<E(!new)>(c: Context<E>, checkingValues: seq<seq<E>>, dealt: seq<seq<VerifiableShare<E>>>,
                                   positions: seq<Position>, t: nat, keys: seq<RecipientKey<E>>,
                                   dfactors: seq<seq<DecryptionFactor<E>>>, ciphertexts: seq<Ciphertext<E>>,
                                   proofContext: ByteString, width: nat)
    requires c.Valid() && Setup(c, checkingValues, dealt, positions, t)
    requires ciphertexts != [] && AllWide(ciphertexts, width)
    requires RecipientsRan(c, Joint(AllCommitted(c, checkingValues)), positions, keys, dfactors, ciphertexts,
                           proofContext)
    ensures Typed(c, ciphertexts, dfactors, VerificationKeys(keys), width)
    ensures Combined(c, ciphertexts, dfactors, VerificationKeys(keys), proofContext, width)
         == Ok(CentralDecryptions(c, ciphertexts, Value(Joint(AllCommitted(c, checkingValues)), 0), width))
  {
    hide KeyOf, FactorOf, Combined, CentralDecryptions, Dealt;
    var f := Joint(AllCommitted(c, checkingValues));
    assert Dealt(c, checkingValues, dealt[0], positions[0], t);
    CommittedLength(c, checkingValues, t, dealt[0], positions[0]);
    ThresholdRefinesCentral(c, ciphertexts, keys, dfactors, f, proofContext, width);
  }

  lemma FactorsError<E(!new)>(c: Context<E>, key: RecipientKey<E>, ciphertexts: seq<Ciphertext<E>>,
                              proofContext: ByteString, nonces: seq<int>)
    requires c.q > 0 && |nonces| == |ciphertexts|
    requires DecryptionFactors(c, key, ciphertexts, proofContext, nonces).Err?
    ensures !HashTotal(c)
    ensures DecryptionFactors(c, key, ciphertexts, proofContext, nonces).error == HashToElementError
  {
    if HashTotal(c) {
      FactorsSucceed(c, key, ciphertexts, proofContext, nonces);
    }
    FactorsOnlyHash(c, key, ciphertexts, proofContext, nonces);
  }

  lemma {:induction false} FactorsOnlyHash<E(!new)>(c: Context<E>, key: RecipientKey<E>,
                                                    ciphertexts: seq<Ciphertext<E>>,
                                                    proofContext: ByteString, nonces: seq<int>)
    requires c.q > 0 && |nonces| == |ciphertexts|
    ensures DecryptionFactors(c, key, ciphertexts, proofContext, nonces).Err?
        ==> DecryptionFactors(c, key, ciphertexts, proofContext, nonces).error == HashToElementError
    decreases |ciphertexts|
  {
    hide Rem;
    if ciphertexts != [] {
      FactorsOnlyHash(c, key, ciphertexts[..|ciphertexts| - 1], proofContext, nonces[..|ciphertexts| - 1]);
    }
  }

  lemma FactorOfComputed<E(!new)>(c: Context<E>, ciphertexts: seq<Ciphertext<E>>, key: RecipientKey<E>,
                                  factors: seq<DecryptionFactor<E>>, proofContext: ByteString, nonces: seq<int>)
    requires c.q > 0 && |nonces| == |ciphertexts|
    requires DecryptionFactors(c, key, ciphertexts, proofContext, nonces) == Ok(factors)
    ensures FactorOf(c, ciphertexts, key, factors, proofContext)
  {
    hide DecryptionFactors;
  }

  lemma CommittedLength<E(!new)>(c: Context<E>, checkingValues: seq<seq<E>>, t: nat, shares: seq<VerifiableShare<E>>,
                                 position: Position)
    requires c.Valid() && Dealt(c, checkingValues, shares, position, t)
    ensures |Joint(AllCommitted(c, checkingValues))| <= t
  {
    hide Rem;
    JointLength(AllCommitted(c, checkingValues), t);
  }

  // Messages

  /** The ciphertexts are encryptions of the messages with this key. */
  ghost predicate EncryptedUnder<E(!new)>(c: Context<E>, pk: E, messages: seq<seq<E>>, rs: seq<seq<int>>,
                                          ciphertexts: seq<Ciphertext<E>>, width: nat)
    requires c.Valid()
  {
    && |ciphertexts| == |messages| == |rs|
    && (forall k | 0 <= k < |messages| :: |messages[k]| == |rs[k]| == width)
    && (forall k | 0 <= k < |messages| :: ciphertexts[k] == EncryptWithR(c, pk, messages[k], rs[k]))
  }

  /** What was encrypted with the joint public key decrypts with the joint secret. */
  lemma MessagesDecrypted<E(!new)>(c: Context<E>, checkingValues: seq<seq<E>>, pk: E, messages: seq<seq<E>>,
                                   rs: seq<seq<int>>, ciphertexts: seq<Ciphertext<E>>, width: nat)
    requires c.Valid() && JointKeyOf(c, checkingValues, pk)
    requires EncryptedUnder(c, pk, messages, rs, ciphertexts, width)
    ensures AllWide(ciphertexts, width)
    ensures CentralDecryptions(c, ciphertexts, Value(Joint(AllCommitted(c, checkingValues)), 0), width) == messages
  {
    hide Rem, EncryptWithR, Decrypt, Value, Joint;
    var sk := Value(Joint(AllCommitted(c, checkingValues)), 0);
    forall k | 0 <= k < |messages|
      ensures Decrypt(c, ciphertexts[k].u, ciphertexts[k].v, sk) == messages[k]
    {
      DecryptEncrypt(c, sk, messages[k], rs[k]);
    }
  }

  lemma AnyMessagesDecrypted<E(!new)>(c: Context<E>, checkingValues: seq<seq<E>>, pk: E,
                                      ciphertexts: seq<Ciphertext<E>>, width: nat)
    requires c.Valid() && JointKeyOf(c, checkingValues, pk) && AllWide(ciphertexts, width)
    ensures forall messages, rs | EncryptedUnder(c, pk, messages, rs, ciphertexts, width) ::
              CentralDecryptions(c, ciphertexts, Value(Joint(AllCommitted(c, checkingValues)), 0), width) == messages
  {
    assert c.q > 0;
    hide *;
    forall messages, rs | EncryptedUnder(c, pk, messages, rs, ciphertexts, width)
      ensures CentralDecryptions(c, ciphertexts, Value(Joint(AllCommitted(c, checkingValues)), 0), width) == messages
    {
      MessagesDecrypted(c, checkingValues, pk, messages, rs, ciphertexts, width);
    }
  }

  /** The product of the first checking values is such a key, whoever made them. */
  lemma PublishedKey<E(!new)>(c: Context<E>, checkingValues: seq<seq<E>>)
    requires c.Valid() && forall i | 0 <= i < |checkingValues| :: |checkingValues[i]| > 0
    ensures JointKeyOf(c, checkingValues, Product(c, FirstValues(checkingValues)))
  {
    hide Rem;
    JointKey(c, checkingValues);
  }

  // Distinct positions are necessary

  /** The keys of recipients with the shares of f at the given positions. */
  function KeysAt<E(==,!new)>(c: Context<E>, f: Polynomial, ps: seq<Position>): (keys: seq<RecipientKey<E>>)
    requires c.q > 0
    ensures |keys| == |ps|
  {
    seq(|ps|, i requires 0 <= i < |ps| =>
      RecipientKey(ps[i], c.Exp(c.generator, Value(f, ps[i])), Rem(c.q, Value(f, ps[i]))))
  }

  lemma KeysAtAreShares<E(!new)>(c: Context<E>, f: Polynomial, ps: seq<Position>)
    requires c.Valid() && InRange(c.q, ps)
    ensures KeysOf(c, KeysAt(c, f, ps), f) && Positions(KeysAt(c, f, ps)) == ps
  {
    hide Rem;
    forall i | 0 <= i < |ps| ensures KeyOf(c, KeysAt(c, f, ps)[i], f) {
      SameRem(c.q, Value(f, ps[i]));
    }
  }

  /** Recipients at these positions, one for each coefficient of the joint polynomial, decrypt
    * every ciphertext under every joint secret. */
  ghost predicate AlwaysDecrypts<E(!new)>(c: Context<E>, ps: seq<Position>, proofContext: ByteString)
    requires c.Valid() && InRange(c.q, ps)
  {
    forall f: Polynomial, ct: Ciphertext<E>, dfactors: seq<seq<DecryptionFactor<E>>> |
      |f| == |ps| && |ct.u| == |ct.v| && FactorsOf(c, [ct], KeysAt(c, f, ps), dfactors, proofContext) ::
      DecryptsCentrally(c, f, ps, ct, dfactors, proofContext)
  }

  ghost predicate DecryptsCentrally<E(!new)>(c: Context<E>, f: Polynomial, ps: seq<Position>, ct: Ciphertext<E>,
                                             dfactors: seq<seq<DecryptionFactor<E>>>, proofContext: ByteString)
    requires c.Valid() && |ct.u| == |ct.v|
  {
    var vks := VerificationKeys(KeysAt(c, f, ps));
    && Typed(c, [ct], dfactors, vks, |ct.u|)
    && Combined(c, [ct], dfactors, vks, proofContext, |ct.u|) == Ok([Decrypt(c, ct.u, ct.v, Value(f, 0))])
  }

  /** Combining honest factors gives the secret's decryption whenever the weighted shares are the secret. */
  lemma RecoveredDecrypts<E(!new)>(c: Context<E>, f: Polynomial, ps: seq<Position>, ct: Ciphertext<E>,
                                   dfactors: seq<seq<DecryptionFactor<E>>>, proofContext: ByteString)
    requires c.Valid() && InRange(c.q, ps) && |ct.u| == |ct.v|
    requires FactorsOf(c, [ct], KeysAt(c, f, ps), dfactors, proofContext)
    ensures Typed(c, [ct], dfactors, VerificationKeys(KeysAt(c, f, ps)), |ct.u|)
    ensures Combined(c, [ct], dfactors, VerificationKeys(KeysAt(c, f, ps)), proofContext, |ct.u|)
         == Ok([Decrypt(c, ct.u, ct.v, Weighted(c.q, ps, ps, f))])
    ensures Recovers(c.q, ps, f) ==> DecryptsCentrally(c, f, ps, ct, dfactors, proofContext)
  {
    hide Rem, Combined, FactorsOf, Decrypt, Weighted, KeysOf, AllProofsVerify, SharesOf, Value;
    var keys, width := KeysAt(c, f, ps), |ct.u|;
    KeysAtAreShares(c, f, ps);
    PipelineFactors(c, [ct], keys, dfactors, f, proofContext, width);
    CombineWeighted(c, [ct], dfactors, VerificationKeys(keys), proofContext, width, f);
    var w := Weighted(c.q, ps, ps, f);
    assert CentralDecryptions(c, [ct], w, width) == [Decrypt(c, ct.u, ct.v, w)];
    if Recovers(c.q, ps, f) {
      DecryptSame(c, [ct], w, Value(f, 0), width);
      assert CentralDecryptions(c, [ct], Value(f, 0), width)[0] == Decrypt(c, ct.u, ct.v, Value(f, 0));
    }
  }

  /** If the weighted shares are not the secret, some ciphertext is combined to the wrong plaintext. */
  lemma UnrecoveredNotDecrypted<E(!new)>(c: Context<E>, f: Polynomial, ps: seq<Position>, proofContext: ByteString)
    requires c.Valid() && HashTotal(c) && InRange(c.q, ps)
    requires |f| == |ps| && !Recovers(c.q, ps, f)
    ensures !AlwaysDecrypts(c, ps, proofContext)
  {
    hide Rem, Combined, FactorsOf, Decrypt, Weighted, Value;
    var ct := Ciphertext([c.generator], [c.one]);
    var dfactors := FactorsExist(c, ct, KeysAt(c, f, ps), proofContext);
    RecoveredDecrypts(c, f, ps, ct, dfactors, proofContext);
    var w := Weighted(c.q, ps, ps, f);
    if Decrypt(c, ct.u, ct.v, w) == Decrypt(c, ct.u, ct.v, Value(f, 0)) {
      SecretVisible(c, w, Value(f, 0));
    }
    assert !DecryptsCentrally(c, f, ps, ct, dfactors, proofContext);
  }

  /** Combining does not check that its participants are different. It is correct exactly when
    * they are or, if one of them holds the secret itself, when that one is there once. */
  lemma CombineCorrectExactly<E(!new)>(c: Context<E>, ps: seq<Position>, proofContext: ByteString)
    requires c.Valid() && HashTotal(c) && InRange(c.q, ps)
    ensures AlwaysDecrypts(c, ps, proofContext) <==> Recoverable(c.q, ps)
  {
    hide Rem, FactorsOf, DecryptsCentrally, Recovers, Recoverable;
    RecoveryExact(c.q, ps);
    if Recoverable(c.q, ps) {
      forall f: Polynomial, ct: Ciphertext<E>, dfactors: seq<seq<DecryptionFactor<E>>> |
        |f| == |ps| && |ct.u| == |ct.v| && FactorsOf(c, [ct], KeysAt(c, f, ps), dfactors, proofContext)
        ensures DecryptsCentrally(c, f, ps, ct, dfactors, proofContext)
      {
        RecoveredDecrypts(c, f, ps, ct, dfactors, proofContext);
      }
    } else {
      var f: Polynomial :| |f| == |ps| && !Recovers(c.q, ps, f);
      UnrecoveredNotDecrypted(c, f, ps, proofContext);
    }
  }

  /** A position other than zero that is repeated leads to a wrong plaintext. */
  lemma RepeatedNotDecrypted<E(!new)>(c: Context<E>, ps: seq<Position>, i: nat, j: nat, proofContext: ByteString)
    requires c.Valid() && HashTotal(c) && InRange(c.q, ps)
    requires 0 !in ps && i < j < |ps| && ps[i] == ps[j]
    ensures !AlwaysDecrypts(c, ps, proofContext)
  {
    hide Rem, AlwaysDecrypts, Recovers;
    RepeatedNotRecovered(c.q, ps, i, j);
    UnrecoveredNotDecrypted(c, Vanishing(ps[..j] + ps[j + 1..]), ps, proofContext);
  }

  /** Decrypting the generator with two secrets gives the same result only if they are the same. */
  lemma SecretVisible<E(!new)>(c: Context<E>, s: int, s': int)
    requires c.Valid() && Decrypt(c, [c.generator], [c.one], s) == Decrypt(c, [c.generator], [c.one], s')
    ensures Same(c.q, s, s')
  {
    hide Rem, Decrypt;
    LogDecrypt(c, [c.generator], [c.one], s, 0);
    LogDecrypt(c, [c.generator], [c.one], s', 0);
    LogGenerator(c);
    LogOne(c);
    SameAdd(c.q, 0, 0, 0 - 1 * s, 0 - 1 * s');
  }

  lemma {:induction false} FactorsExist<E(!new)>(c: Context<E>, ct: Ciphertext<E>, keys: seq<RecipientKey<E>>,
                                                 proofContext: ByteString)
    returns (dfactors: seq<seq<DecryptionFactor<E>>>)
    requires c.q > 0 && HashTotal(c)
    ensures FactorsOf(c, [ct], keys, dfactors, proofContext)
    decreases |keys|
  {
    hide Rem, FactorOf, DecryptionFactors;
    if keys == [] {
      dfactors := [];
    } else {
      var n := |keys| - 1;
      var rest := FactorsExist(c, ct, keys[..n], proofContext);
      FactorsSucceed(c, keys[n], [ct], proofContext, [0]);
      var factors := DecryptionFactors(c, keys[n], [ct], proofContext, [0]).value;
      FactorOfComputed(c, [ct], keys[n], factors, proofContext, [0]);
      dfactors := rest + [factors];
      forall i | 0 <= i < |keys| ensures FactorOf(c, [ct], keys[i], dfactors[i], proofContext) {
        if i < n {
          assert keys[..n][i] == keys[i];
        }
      }
    }
  }
}
