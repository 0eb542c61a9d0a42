/** Encrypting ballots, and checking them with their randomizers instead of the secret key. */
module BallotCheck {
  import opened Bytes
  import opened CheckedCiphertexts
  import opened ElementCodec
  import opened Groups
  import opened Modular
  import opened Naoryung
  import opened Results
  import opened Serialization

  import Elgamal
  import Pleq

  const STYLE_BYTES: nat := 2

  const RANK_BYTES: nat := 16

  const PADDED_BYTE_ARRAY_SIZE: nat := 26

  const BALLOT_CIPHERTEXT_WIDTH: nat := 1

  const RANDOMIZER_CIPHERTEXT_WIDTH: nat := 2

  datatype Ballot = Ballot(ballotStyle: nat, rank: nat)

  /** The fields are a 16-bit and a 128-bit number. */
  predicate InBounds(ballot: Ballot) {
    ballot.ballotStyle < Power(256, STYLE_BYTES) && ballot.rank < Power(256, RANK_BYTES)
  }

  datatype BallotCryptogram<E> = BallotCryptogram(ballotStyle: nat, ciphertext: Ciphertext<E>)

  datatype Randomizers = Randomizers(ballotStyle: nat, randomizers: seq<int>)

  datatype RandomizersCryptogram<E> = RandomizersCryptogram(ballotStyle: nat, ciphertext: Ciphertext<E>)

  // Ballots as group elements

  function SerializeBallot(ballot: Ballot): ByteString {
    Prefixed(BigEndian(ballot.ballotStyle, STYLE_BYTES), BigEndian(ballot.rank, RANK_BYTES))
  }

  function DeserializeBallot(bytes: ByteString): Result<Ballot> {
    var parts :- SplitNext(bytes);
    var ballotStyle :- DeserializeUnsigned(parts.0, STYLE_BYTES);
    var rank :- DeserializeUnsigned(parts.1, RANK_BYTES);
    Ok(Ballot(ballotStyle, rank))
  }

  lemma BallotBytes(ballot: Ballot)
    ensures |SerializeBallot(ballot)| == PADDED_BYTE_ARRAY_SIZE
    ensures InBounds(ballot) ==> DeserializeBallot(SerializeBallot(ballot)) == Ok(ballot)
  {
    hide BigEndian, FromBigEndian, SplitNext;
    if InBounds(ballot) {
      PrefixRoom();
      SplitPrefixed(BigEndian(ballot.ballotStyle, STYLE_BYTES), BigEndian(ballot.rank, RANK_BYTES));
      UnsignedRoundTrip(ballot.ballotStyle, STYLE_BYTES);
      UnsignedRoundTrip(ballot.rank, RANK_BYTES);
    }
  }

  lemma PrefixRoom()
    ensures STYLE_BYTES < Power(256, LENGTH_BYTES)
  {
    assert Power(256, 1) == 256;
    forall n: nat ensures Power(256, n) >= 1 {
      PowerPositive(256, n);
    }
    assert Power(256, LENGTH_BYTES) == 256 * Power(256, LENGTH_BYTES - 1);
  }

  /** The elements of a ballot: its serialization, padded with zeros to the fixed size. */
  function EncodedBallot<E>(codec: Codec<E>, ballot: Ballot): (r: Result<seq<E>>)
    ensures r.Ok? ==> |r.value| == BALLOT_CIPHERTEXT_WIDTH
  {
    var serialized := SerializeBallot(ballot);
    if |serialized| > PADDED_BYTE_ARRAY_SIZE then
      Err(WrongSize)
    else
      var padded := serialized + Zeros(PADDED_BYTE_ARRAY_SIZE - |serialized|);
      JoinSplit(padded);
      EncodeBytes(codec, padded)
  }

  /** Fill a buffer with the serialized ballot and encode it. */
  method EncodeBallot<E>(codec: Codec<E>, ballot: Ballot) returns (r: Result<seq<E>>)
    ensures r == EncodedBallot(codec, ballot)
  {
    hide SerializeBallot, EncodeBytes;
    var serialized := SerializeBallot(ballot);
    if |serialized| > PADDED_BYTE_ARRAY_SIZE {
      return Err(WrongSize);
    }
    var buffer := new Byte[PADDED_BYTE_ARRAY_SIZE](i => 0);
    for i := 0 to |serialized|
      invariant buffer[..i] == serialized[..i]
      invariant forall k | i <= k < PADDED_BYTE_ARRAY_SIZE :: buffer[k] == 0
    {
      buffer[i] := serialized[i];
    }
    assert buffer[..] == serialized + Zeros(PADDED_BYTE_ARRAY_SIZE - |serialized|);
    r := EncodeBytes(codec, buffer[..]);
  }

  function DecodeBallot<E(!new)>(codec: Codec<E>, ghost q: nat, elements: seq<E>): Result<Ballot>
    requires Valid(codec, q)
  {
    AllDecode(codec, q, elements);
    DeserializeBallot(DecodeBytes(codec, elements, PADDED_BYTE_ARRAY_SIZE))
  }

  /** Every ballot that can be encoded decodes to itself. */
  lemma BallotRoundTrip<E(!new)>(codec: Codec<E>, q: nat, ballot: Ballot)
    requires Valid(codec, q) && InBounds(ballot) && EncodedBallot(codec, ballot).Ok?
    ensures DecodeBallot(codec, q, EncodedBallot(codec, ballot).value) == Ok(ballot)
  {
    hide SerializeBallot, DeserializeBallot, EncodeBytes, DecodeBytes;
    BallotBytes(ballot);
    var serialized := SerializeBallot(ballot);
    assert serialized + Zeros(0) == serialized;
    BytesRoundTrip(codec, q, serialized);
  }

  // Ballots encrypted

  /** The randomizers are the random scalars, the nonces those of the proof. */
  function EncryptBallot<E(==,!new)>(c: Context<E>, codec: Codec<E>, ballot: Ballot, electionPk: PublicKey<E>,
                                     context: ByteString, randomizers: seq<int>, nonces: seq<int>)
    : Result<(BallotCryptogram<E>, Randomizers)>
    requires c.q > 0 && |randomizers| == |nonces| == BALLOT_CIPHERTEXT_WIDTH
  {
    var elements :- EncodedBallot(codec, ballot);
    var ciphertext :- EncryptWithR(c, electionPk, elements, randomizers, context, nonces);
    Ok((BallotCryptogram(ballot.ballotStyle, ciphertext), Randomizers(ballot.ballotStyle, randomizers)))
  }

  function DecryptBallot<E(==,!new)>(c: Context<E>, codec: Codec<E>, cryptogram: BallotCryptogram<E>,
                                     randomizers: Randomizers, electionPk: PublicKey<E>,
                                     context: ByteString): Result<Ballot>
    requires c.Valid() && Valid(codec, c.q) && WellFormed(cryptogram.ciphertext, BALLOT_CIPHERTEXT_WIDTH)
  {
    var plain :- Strip(c, electionPk, cryptogram.ciphertext, context);
    if |randomizers.randomizers| != BALLOT_CIPHERTEXT_WIDTH then
      Err(WrongSize)
    else
      var decrypted :- Elgamal.DecryptWithR(c, electionPk.pkB, plain, randomizers.randomizers);
      DecodeBallot(codec, c.q, decrypted)
  }

  /** The given scalars are the discrete logarithms of the first part of the ciphertext. */
  ghost predicate HoldsExponents<E(!new)>(c: Context<E>, randomizers: seq<int>, u: seq<E>)
    requires c.Valid()
  {
    |randomizers| == |u| && forall i | 0 <= i < |u| :: Same(c.q, randomizers[i], c.Log(u[i]))
  }

  /** A ballot check accepts exactly the one list of randomizers behind a cryptogram whose proof
    * answers its hash, and then its answer is what the holder of the election secret key would
    * decode. Everything else is refused, each cause with its own error. */
  lemma BallotCheckExact<E(!new)>(c: Context<E>, codec: Codec<E>, cryptogram: BallotCryptogram<E>,
                                  randomizers: Randomizers,
                                  keyPair: KeyPair<E>, context: ByteString)
    requires c.Valid() && Valid(codec, c.q) && WellFormed(cryptogram.ciphertext, BALLOT_CIPHERTEXT_WIDTH)
    requires Matching(c, keyPair)
    ensures var ct := cryptogram.ciphertext;
            DecryptBallot(c, codec, cryptogram, randomizers, keyPair.pkey, context)
            == if Hashed(c, keyPair.pkey, ct, context).None? then Err(HashToElementError)
               else if !ProofAnswers(c, keyPair.pkey, ct, context) then Err(NaorYungStripError)
               else if |randomizers.randomizers| != BALLOT_CIPHERTEXT_WIDTH then Err(WrongSize)
               else if !HoldsExponents(c, randomizers.randomizers, ct.uB) then Err(DecryptionError)
               else DecodeBallot(codec, c.q, Elgamal.Decrypt(c, ct.uB, ct.vB, keyPair.skB))
  {
    hide Rem, Strip, Hashed, ProofAnswers, DecodeBallot, Elgamal.Decrypt, Elgamal.DecryptWithR;
    StripExactly(c, keyPair.pkey, cryptogram.ciphertext, context);
    var stripped := Strip(c, keyPair.pkey, cryptogram.ciphertext, context);
    if stripped.Ok? && |randomizers.randomizers| == BALLOT_CIPHERTEXT_WIDTH {
      Elgamal.DecryptWithRExact(c, keyPair.skB, stripped.value, randomizers.randomizers);
      RefusedWithR(c, keyPair.pkey.pkB, stripped.value, randomizers.randomizers);
    }
  }

  lemma RefusedWithR<E(!new)>(c: Context<E>, y: E, ct: Elgamal.Ciphertext<E>, r: seq<int>)
    requires c.Valid() && Elgamal.WellFormed(ct, |r|)
    ensures Elgamal.DecryptWithR(c, y, ct, r).Err? ==> Elgamal.DecryptWithR(c, y, ct, r) == Err(DecryptionError)
  {
  }

  /** Whether a ballot's ciphertext carries a proof that verifies. */
  function VerifyCiphertextProof<E(==,!new)>(c: Context<E>, ct: Ciphertext<E>, electionPk: PublicKey<E>,
                                             context: ByteString): Result<bool>
    requires c.q > 0 && WellFormed(ct, BALLOT_CIPHERTEXT_WIDTH)
  {
    Ok(Strip(c, electionPk, ct, context).Ok?)
  }

  /** It never fails, and is true exactly when the responses answer a scalar that the hash has. */
  lemma VerifyCiphertextProofExactly<E(!new)>(c: Context<E>, ct: Ciphertext<E>, electionPk: PublicKey<E>,
                                              context: ByteString)
    requires c.Valid() && WellFormed(ct, BALLOT_CIPHERTEXT_WIDTH)
    ensures VerifyCiphertextProof(c, ct, electionPk, context)
         == Ok(Hashed(c, electionPk, ct, context).Some? && ProofAnswers(c, electionPk, ct, context))
  {
    hide Rem, Strip, Hashed, ProofAnswers;
    StripExactly(c, electionPk, ct, context);
  }

  /** No two different lists of randomizers are accepted for the same cryptogram. */
  lemma RandomizersUnique<E(!new)>(c: Context<E>, codec: Codec<E>, cryptogram: BallotCryptogram<E>, a: Randomizers,
                                   b: Randomizers, keyPair: KeyPair<E>, context: ByteString)
    requires c.Valid() && Valid(codec, c.q) && WellFormed(cryptogram.ciphertext, BALLOT_CIPHERTEXT_WIDTH)
    requires Matching(c, keyPair)
    requires DecryptBallot(c, codec, cryptogram, a, keyPair.pkey, context).Ok?
    requires DecryptBallot(c, codec, cryptogram, b, keyPair.pkey, context).Ok?
    ensures |a.randomizers| == |b.randomizers|
    ensures forall i | 0 <= i < |a.randomizers| :: Same(c.q, a.randomizers[i], b.randomizers[i])
    ensures DecryptBallot(c, codec, cryptogram, a, keyPair.pkey, context)
         == DecryptBallot(c, codec, cryptogram, b, keyPair.pkey, context)
  {
    hide Rem, DecryptBallot, DecodeBallot, Elgamal.Decrypt, Hashed, ProofAnswers;
    BallotCheckExact(c, codec, cryptogram, a, keyPair, context);
    BallotCheckExact(c, codec, cryptogram, b, keyPair, context);
  }

  // Randomizers encrypted

  /** The elements of all randomizers, two for each. */
  function EncodedRandomizers<E>(codec: Codec<E>, q: nat, randomizers: seq<int>): Result<seq<E>>
    requires q > 0
  {
    if randomizers == [] then
      Ok([])
    else
      var n := |randomizers| - 1;
      var before :- EncodedRandomizers(codec, q, randomizers[..n]);
      var pair :- EncodeScalar(codec, Rem(q, randomizers[n]));
      Ok(before + pair)
  }

  function EncryptedRandomizers<E(==,!new)>(c: Context<E>, codec: Codec<E>, randomizers: Randomizers,
                                            bcaPk: PublicKey<E>,
                                            contextPrefix: ByteString, r: seq<int>, nonces: seq<int>)
    : (result: Result<RandomizersCryptogram<E>>)
    requires c.q > 0 && |r| == |nonces| == RANDOMIZER_CIPHERTEXT_WIDTH
    ensures result.Ok? ==> WellFormed(result.value.ciphertext, RANDOMIZER_CIPHERTEXT_WIDTH)
  {
    var elements :- EncodedRandomizers(codec, c.q, randomizers.randomizers);
    if |elements| != RANDOMIZER_CIPHERTEXT_WIDTH then
      Err(WrongSize)
    else
      var ciphertext :- EncryptWithR(c, bcaPk, elements, r, contextPrefix, nonces);
      Ok(RandomizersCryptogram(randomizers.ballotStyle, ciphertext))
  }

  /** Encode all randomizers into one vector and encrypt it. */
  method EncryptRandomizers<E(==,!new)>(c: Context<E>, codec: Codec<E>, randomizers: Randomizers, bcaPk: PublicKey<E>,
                                        contextPrefix: ByteString, r: seq<int>, nonces: seq<int>)
    returns (result: Result<RandomizersCryptogram<E>>)
    requires c.q > 0 && |r| == |nonces| == RANDOMIZER_CIPHERTEXT_WIDTH
    ensures result == EncryptedRandomizers(c, codec, randomizers, bcaPk, contextPrefix, r, nonces)
  {
    hide Rem, EncodeScalar, EncryptWithR;
    var all := randomizers.randomizers;
    var encoded: seq<E> := [];
    for i := 0 to |all|
      invariant EncodedRandomizers(codec, c.q, all[..i]) == Ok(encoded)
    {
      assert all[..i + 1][..i] == all[..i];
      var pair := EncodeScalar(codec, Rem(c.q, all[i]));
      if pair.Err? {
        EncodedRandomizersError(codec, c.q, all, i + 1, pair.error);
        return Err(pair.error);
      }
      encoded := encoded + pair.value;
    }
    assert all[..|all|] == all;
    if |encoded| != RANDOMIZER_CIPHERTEXT_WIDTH {
      return Err(WrongSize);
    }
    var ciphertext :- EncryptWithR(c, bcaPk, encoded, r, contextPrefix, nonces);
    result := Ok(RandomizersCryptogram(randomizers.ballotStyle, ciphertext));
  }

  lemma {:induction false} EncodedRandomizersError<E>(codec: Codec<E>, q: nat, all: seq<int>, i: nat, error: Error)
    requires q > 0 && i <= |all| && EncodedRandomizers(codec, q, all[..i]) == Err(error)
    ensures EncodedRandomizers(codec, q, all) == Err(error)
    decreases |all|
  {
    hide Rem, EncodeScalar;
    if i == |all| {
      assert all[..i] == all;
    } else {
      assert all[..|all| - 1][..i] == all[..i];
      EncodedRandomizersError(codec, q, all[..|all| - 1], i, error);
    }
  }

  /** The scalars of the first n pairs of elements. */
  function DecodedPairs<E(!new)>(codec: Codec<E>, ghost q: nat, elements: seq<E>, n: nat): Result<seq<int>>
    requires Valid(codec, q) && 2 * n <= |elements|
  {
    if n == 0 then
      Ok([])
    else
      var before :- DecodedPairs(codec, q, elements, n - 1);
      var pair := [elements[2 * (n - 1)], elements[2 * (n - 1) + 1]];
      AllDecode(codec, q, pair);
      var s :- DecodeScalar(codec, pair);
      Ok(before + [s])
  }

  function DecryptedRandomizers<E(==,!new)>(c: Context<E>, codec: Codec<E>, cryptogram: RandomizersCryptogram<E>,
                                            bcaKey: KeyPair<E>, contextPrefix: ByteString): Result<Randomizers>
    requires c.Valid() && Valid(codec, c.q) && WellFormed(cryptogram.ciphertext, RANDOMIZER_CIPHERTEXT_WIDTH)
  {
    var elements :- Decrypt(c, bcaKey, cryptogram.ciphertext, contextPrefix);
    var randomizers :- DecodedPairs(codec, c.q, elements, |elements| / 2);
    Ok(Randomizers(cryptogram.ballotStyle, randomizers))
  }

  /** Decrypt the vector of elements and decode them pair by pair. */
  method DecryptRandomizers<E(==,!new)>(c: Context<E>, codec: Codec<E>, cryptogram: RandomizersCryptogram<E>,
                                        bcaKey: KeyPair<E>, contextPrefix: ByteString)
    returns (result: Result<Randomizers>)
    requires c.Valid() && Valid(codec, c.q) && WellFormed(cryptogram.ciphertext, RANDOMIZER_CIPHERTEXT_WIDTH)
    ensures result == DecryptedRandomizers(c, codec, cryptogram, bcaKey, contextPrefix)
  {
    hide Rem, DecodeScalar, Decrypt;
    var elements :- Decrypt(c, bcaKey, cryptogram.ciphertext, contextPrefix);
    var randomizers := [];
    for i := 0 to |elements| / 2
      invariant DecodedPairs(codec, c.q, elements, i) == Ok(randomizers)
    {
      if i * 2 + 1 < |elements| {
        var pair := [elements[2 * i], elements[2 * i + 1]];
        AllDecode(codec, c.q, pair);
        var randomizer := DecodeScalar(codec, pair);
        if randomizer.Err? {
          DecodedPairsError(codec, c.q, elements, i + 1, |elements| / 2, randomizer.error);
          return Err(randomizer.error);
        }
        randomizers := randomizers + [randomizer.value];
      }
    }
    result := Ok(Randomizers(cryptogram.ballotStyle, randomizers));
  }

  lemma {:induction false} DecodedPairsError<E(!new)>(codec: Codec<E>, q: nat, elements: seq<E>, i: nat, n: nat,
                                                      error: Error)
    requires Valid(codec, q) && i <= n && 2 * n <= |elements|
    requires DecodedPairs(codec, q, elements, i) == Err(error)
    ensures DecodedPairs(codec, q, elements, n) == Err(error)
    decreases n
  {
    hide DecodeScalar;
    if i < n {
      DecodedPairsError(codec, q, elements, i, n - 1, error);
    }
  }

  // The whole ballot check

  /** The canonical representatives of the randomizers. */
  function Canonical(q: nat, randomizers: seq<int>): (r: seq<int>)
    requires q > 0
    ensures |r| == |randomizers|
  {
    seq(|randomizers|, i requires 0 <= i < |randomizers| => Rem(q, randomizers[i]))
  }

  /** Flattening randomizers into elements and pairing elements into randomizers are inverse. */
  lemma {:induction false} PairsRoundTrip<E(!new)>(codec: Codec<E>, q: nat, randomizers: seq<int>, elements: seq<E>,
                                                   n: nat)
    requires q > 0 && Valid(codec, q) && n <= |randomizers|
    requires EncodedRandomizers(codec, q, randomizers[..n]).Ok?
    requires EncodedRandomizers(codec, q, randomizers[..n]).value <= elements
    ensures |EncodedRandomizers(codec, q, randomizers[..n]).value| == 2 * n
    ensures DecodedPairs(codec, q, elements, n) == Ok(Canonical(q, randomizers[..n]))
    decreases n
  {
    hide Rem, EncodeScalar, DecodeScalar;
    if n > 0 {
      var r := randomizers[n - 1];
      assert randomizers[..n][..n - 1] == randomizers[..n - 1];
      var before := EncodedRandomizers(codec, q, randomizers[..n - 1]).value;
      var pair := EncodeScalar(codec, Rem(q, r)).value;
      var all := EncodedRandomizers(codec, q, randomizers[..n]).value;
      assert all == before + pair;
      PairsRoundTrip(codec, q, randomizers, elements, n - 1);
      ScalarElements(codec, q, Rem(q, r));
      assert elements[2 * (n - 1)] == all[2 * (n - 1)] == pair[0];
      assert elements[2 * (n - 1) + 1] == all[2 * (n - 1) + 1] == pair[1];
      assert [elements[2 * (n - 1)], elements[2 * (n - 1) + 1]] == pair;
      assert Canonical(q, randomizers[..n]) == Canonical(q, randomizers[..n - 1]) + [Rem(q, r)];
    }
  }

  /** The ballot check authority recovers the randomizers. */
  lemma RandomizersRoundTrip<E(!new)>(c: Context<E>, codec: Codec<E>, randomizers: Randomizers, bcaKey: KeyPair<E>,
                                      contextPrefix: ByteString, r: seq<int>, nonces: seq<int>)
    requires c.Valid() && Valid(codec, c.q) && Matching(c, bcaKey)
    requires |r| == |nonces| == RANDOMIZER_CIPHERTEXT_WIDTH
    requires EncryptedRandomizers(c, codec, randomizers, bcaKey.pkey, contextPrefix, r, nonces).Ok?
    ensures var sent := EncryptedRandomizers(c, codec, randomizers, bcaKey.pkey, contextPrefix, r, nonces).value;
            (DecryptedRandomizers(c, codec, sent, bcaKey, contextPrefix)
             == Ok(randomizers.(randomizers := Canonical(c.q, randomizers.randomizers))))
  {
    hide Rem, Decrypt, EncryptWithR, EncodedRandomizers, DecodedPairs;
    var all := randomizers.randomizers;
    var elements := EncodedRandomizers(codec, c.q, all).value;
    DecryptEncrypt(c, bcaKey, elements, r, contextPrefix, nonces);
    assert all[..|all|] == all;
    PairsRoundTrip(codec, c.q, all, elements, |all|);
  }

  /** The complete ballot check: a voter encrypts a ballot and sends the randomizers to the
    * ballot check authority, which decrypts them and opens the ballot with them. If every
    * encoding and hash succeeds, the authority sees the ballot the voter encrypted. */
  lemma BallotCheckRoundTrip<E(!new)>(c: Context<E>, codec: Codec<E>, ballot: Ballot, electionPk: PublicKey<E>,
                                      context: ByteString, randomizers: seq<int>, nonces: seq<int>, bcaKey: KeyPair<E>,
                                      contextPrefix: ByteString, r: seq<int>, nonces': seq<int>)
    requires c.Valid() && Valid(codec, c.q) && InBounds(ballot) && Matching(c, bcaKey)
    requires |randomizers| == |nonces| == BALLOT_CIPHERTEXT_WIDTH && |r| == |nonces'| == RANDOMIZER_CIPHERTEXT_WIDTH
    requires EncryptBallot(c, codec, ballot, electionPk, context, randomizers, nonces).Ok?
    requires EncryptedRandomizers(c, codec, Randomizers(ballot.ballotStyle, randomizers), bcaKey.pkey, contextPrefix,
                                  r, nonces').Ok?
    ensures var (cryptogram, kept) := EncryptBallot(c, codec, ballot, electionPk, context, randomizers, nonces).value;
            var sent := EncryptedRandomizers(c, codec, kept, bcaKey.pkey, contextPrefix, r, nonces').value;
            var received := DecryptedRandomizers(c, codec, sent, bcaKey, contextPrefix);
            && received.Ok?
            && DecryptBallot(c, codec, cryptogram, received.value, electionPk, context) == Ok(ballot)
  {
    hide Rem, Decrypt, Strip, EncryptWithR, EncryptedRandomizers, DecryptedRandomizers, EncodedBallot, DecodeBallot,
      Elgamal.Decrypt, Elgamal.DecryptWithR, Elgamal.EncryptWithR;
    var (cryptogram, kept) := EncryptBallot(c, codec, ballot, electionPk, context, randomizers, nonces).value;
    RandomizersRoundTrip(c, codec, kept, bcaKey, contextPrefix, r, nonces');
    var elements := EncodedBallot(codec, ballot).value;
    BallotRoundTrip(codec, c.q, ballot);
    StripEncrypt(c, electionPk, elements, randomizers, context, nonces);
    OpenedByCanonical(c, electionPk.pkB, elements, randomizers);
  }

  /** An encryption is opened by its randomizers, in whatever representation. */
  lemma OpenedByCanonical<E(!new)>(c: Context<E>, y: E, message: seq<E>, r: seq<int>)
    requires c.Valid() && |message| == |r|
    ensures Elgamal.DecryptWithR(c, y, Elgamal.EncryptWithR(c, y, message, r), Canonical(c.q, r)) == Ok(message)
  {
    hide Rem, Elgamal.Decrypt, Elgamal.DecryptWithR, Elgamal.EncryptWithR;
    var sk := c.Log(y);
    RemSmall(c.q, sk);
    assert y == c.Exp(c.generator, sk);
    var ct := Elgamal.EncryptWithR(c, y, message, r);
    forall i | 0 <= i < |r| ensures Same(c.q, Canonical(c.q, r)[i], c.Log(ct.u[i])) {
      SameRem(c.q, r[i]);
      Elgamal.LogEncrypt(c, y, message, r, i);
    }
    Elgamal.DecryptWithRExact(c, sk, ct, Canonical(c.q, r));
    Elgamal.DecryptEncrypt(c, sk, message, r);
  }
}
