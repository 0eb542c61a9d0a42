/** When the steps of a ballot check succeed, and what they send. */
module BallotSuccess {
  import opened BallotCheck
  import opened Bytes
  import opened CheckedCiphertexts
  import opened ElementCodec
  import opened Groups
  import opened Modular
  import opened Naoryung
  import opened PleqChallengeBytes
  import opened Results
  import opened Serialization

  import Elgamal
  import Pleq

  /** The one chunk of a serialized ballot: two bytes of style behind their length, sixteen of rank
    * and four zeros. */
  function BallotChunk(ballot: Ballot): (chunk: ByteString)
    ensures |chunk| == CHUNK_SIZE
  {
    BigEndian(STYLE_BYTES, LENGTH_BYTES) + BigEndian(ballot.ballotStyle, STYLE_BYTES)
    + BigEndian(ballot.rank, RANK_BYTES) + [0, 0, 0, 0]
  }

  /** What the proof of an encryption is about. */
  function EncryptedStatement<E(==,!new)>(c: Context<E>, pkey: PublicKey<E>, message: seq<E>, r: seq<int>,
                                          nonces: seq<int>, context: ByteString): Statement<E>
    requires c.q > 0 && |message| == |r| == |nonces|
  {
    var plain := Elgamal.EncryptWithR(c, pkey.pkB, message, r);
    Statement(pkey.pkB, pkey.pkA, plain.u, plain.v, c.ReplExp(pkey.pkA, r), Pleq.Commitments(c, pkey.pkA, r, nonces),
              context)
  }

  /** An encryption of these elements with this randomness, under both keys. */
  predicate Encrypts<E(==,!new)>(c: Context<E>, ct: Ciphertext<E>, pkey: PublicKey<E>, message: seq<E>, r: seq<int>)
    requires c.q > 0 && |message| == |r|
  {
    && Elgamal.Ciphertext(ct.uB, ct.vB) == Elgamal.EncryptWithR(c, pkey.pkB, message, r)
    && ct.uA == c.ReplExp(pkey.pkA, r)
  }

  lemma EncodedChunk<E>(codec: Codec<E>, ballot: Ballot)
    ensures EncodedBallot(codec, ballot)
         == match codec.encodeChunk(BallotChunk(ballot))
            case None => Err(EncodingError)
            case Some(e) => Ok([e])
  {
    hide BigEndian;
    var chunk, bytes := BallotChunk(ballot), SerializeBallot(ballot);
    BallotBytes(ballot);
    assert bytes + Zeros(0) == bytes;
    assert bytes + Zeros(CHUNK_SIZE - PADDED_BYTE_ARRAY_SIZE) == chunk;
    assert Split(bytes) == [chunk];
    EncodeExactly(codec, [chunk]);
    assert AllEncode(codec, [chunk]) <==> codec.encodeChunk([chunk][0]).Some?;
    if codec.encodeChunk(chunk).Some? {
      assert EncodeChunks(codec, [chunk]).value == [codec.encodeChunk([chunk][0]).value];
    }
  }

  /** A ballot is encrypted exactly when a point is found for its one chunk and the hash has a
    * scalar. The cryptogram and the kept randomizers then carry the ballot's style, and the
    * ciphertext is an encryption of that point with these randomizers. */
  lemma EncryptBallotExactly<E(!new)>(c: Context<E>, codec: Codec<E>, ballot: Ballot, electionPk: PublicKey<E>,
                                      context: ByteString, randomizers: seq<int>, nonces: seq<int>)
    requires c.Valid() && |randomizers| == |nonces| == BALLOT_CIPHERTEXT_WIDTH
    ensures var encrypted := EncryptBallot(c, codec, ballot, electionPk, context, randomizers, nonces);
            match codec.encodeChunk(BallotChunk(ballot))
            case None => encrypted == Err(EncodingError)
            case Some(e) =>
              var s := EncryptedStatement(c, electionPk, [e], randomizers, nonces, context);
              if c.digestToScalar(StatementStream(c, s)).None? then
                encrypted == Err(HashToElementError)
              else
                && encrypted.Ok?
                && encrypted.value.0.ballotStyle == ballot.ballotStyle
                && encrypted.value.1 == Randomizers(ballot.ballotStyle, randomizers)
                && WellFormed(encrypted.value.0.ciphertext, BALLOT_CIPHERTEXT_WIDTH)
                && Encrypts(c, encrypted.value.0.ciphertext, electionPk, [e], randomizers)
  {
    hide Rem, BallotChunk, EncodedBallot, EncryptWithR, StatementStream, Pleq.Commitments, Elgamal.EncryptWithR;
    EncodedChunk(codec, ballot);
    if codec.encodeChunk(BallotChunk(ballot)).Some? {
      var e := codec.encodeChunk(BallotChunk(ballot)).value;
      EncryptExactly(c, electionPk, [e], randomizers, context, nonces);
    }
  }

  /** Exactly the serialized ballots are read as ballots. */
  lemma BallotRead(bytes: ByteString)
    ensures DeserializeBallot(bytes).Ok? ==>
              InBounds(DeserializeBallot(bytes).value) && SerializeBallot(DeserializeBallot(bytes).value) == bytes
    ensures DeserializeBallot(bytes).Err? ==> DeserializeBallot(bytes).error == DeserializationError
    ensures forall ballot :: InBounds(ballot) && SerializeBallot(ballot) == bytes
                             ==> DeserializeBallot(bytes) == Ok(ballot)
  {
    hide BigEndian, FromBigEndian, Power;
    if DeserializeBallot(bytes).Ok? {
      var parts := SplitNext(bytes).value;
      SplitOnlyPrefixed(bytes, parts.0, parts.1);
      FromBigEndianRoundTrip(parts.0);
      FromBigEndianRoundTrip(parts.1);
    }
    forall ballot | InBounds(ballot) && SerializeBallot(ballot) == bytes
      ensures DeserializeBallot(bytes) == Ok(ballot)
    {
      BallotBytes(ballot);
    }
  }

  /** An element is decoded to a ballot exactly when the first bytes behind it are that ballot's. */
  lemma DecodedExactly<E(!new)>(codec: Codec<E>, q: nat, e: E, ballot: Ballot)
    requires Valid(codec, q)
    ensures |codec.decodeChunk(e)| == CHUNK_SIZE
    ensures DecodeBallot(codec, q, [e]) == Ok(ballot)
       <==> InBounds(ballot) && codec.decodeChunk(e)[..PADDED_BYTE_ARRAY_SIZE] == SerializeBallot(ballot)
    ensures DecodeBallot(codec, q, [e]).Err? ==> DecodeBallot(codec, q, [e]).error == DeserializationError
  {
    hide DeserializeBallot, SerializeBallot;
    AllDecode(codec, q, [e]);
    assert |codec.decodeChunk([e][0])| == CHUNK_SIZE;
    BallotRead(DecodeBytes(codec, [e], PADDED_BYTE_ARRAY_SIZE));
    assert DecodeChunks(codec, [e]) == [codec.decodeChunk(e)];
  }

  // Randomizers

  /** The two chunks of a scalar. */
  function ScalarChunks<E>(codec: Codec<E>, s: nat): (chunks: seq<ByteString>)
    requires |codec.scalarToBytes(s)| == SCALAR_BYTES
    ensures |chunks| == 2
  {
    var bytes := codec.scalarToBytes(s);
    [bytes[..CHUNK_SIZE], bytes[CHUNK_SIZE..] + Zeros(2 * CHUNK_SIZE - SCALAR_BYTES)]
  }

  /** Points are found for both chunks of a randomizer. */
  ghost predicate RandomizerEncodes<E(!new)>(codec: Codec<E>, q: nat, r: int)
    requires q > 0 && Valid(codec, q)
  {
    assert codec.ScalarRoundTrip(Rem(q, r));
    AllEncode(codec, ScalarChunks(codec, Rem(q, r)))
  }

  lemma EncodedScalar<E(!new)>(codec: Codec<E>, q: nat, r: int)
    requires q > 0 && Valid(codec, q)
    ensures if RandomizerEncodes(codec, q, r)
            then EncodeScalar(codec, Rem(q, r)).Ok? && |EncodeScalar(codec, Rem(q, r)).value| == 2
            else EncodeScalar(codec, Rem(q, r)) == Err(EncodingError)
  {
    hide Rem;
    assert codec.ScalarRoundTrip(Rem(q, r));
    var bytes, chunks := codec.scalarToBytes(Rem(q, r)), ScalarChunks(codec, Rem(q, r));
    assert Split(bytes[CHUNK_SIZE..]) == [chunks[1]];
    assert Split(bytes) == chunks;
    EncodeExactly(codec, chunks);
  }

  /** All randomizers are encoded exactly when points are found for each. */
  lemma {:induction false} EncodedRandomizersExactly<E(!new)>(codec: Codec<E>, q: nat, rs: seq<int>)
    requires q > 0 && Valid(codec, q)
    ensures if forall i | 0 <= i < |rs| :: RandomizerEncodes(codec, q, rs[i])
            then EncodedRandomizers(codec, q, rs).Ok? && |EncodedRandomizers(codec, q, rs).value| == 2 * |rs|
            else EncodedRandomizers(codec, q, rs) == Err(EncodingError)
    decreases |rs|
  {
    hide Rem, EncodeScalar, RandomizerEncodes;
    if rs != [] {
      var n := |rs| - 1;
      EncodedRandomizersExactly(codec, q, rs[..n]);
      EncodedScalar(codec, q, rs[n]);
      assert forall i | 0 <= i < n :: rs[i] == rs[..n][i];
    }
  }

  /** Randomizers are encrypted exactly when points are found for all of them, there is one, and the
    * hash has a scalar; the cryptogram carries their style. */
  lemma EncryptRandomizersExactly<E(!new)>(c: Context<E>, codec: Codec<E>, randomizers: Randomizers,
                                           bcaPk: PublicKey<E>, contextPrefix: ByteString, r: seq<int>,
                                           nonces: seq<int>)
    requires c.Valid() && Valid(codec, c.q) && |r| == |nonces| == RANDOMIZER_CIPHERTEXT_WIDTH
    ensures var rs := randomizers.randomizers;
            var encrypted := EncryptedRandomizers(c, codec, randomizers, bcaPk, contextPrefix, r, nonces);
            if exists i | 0 <= i < |rs| :: !RandomizerEncodes(codec, c.q, rs[i]) then
              encrypted == Err(EncodingError)
            else if |rs| != 1 then
              encrypted == Err(WrongSize)
            else
              && EncodedRandomizers(codec, c.q, rs).Ok?
              && var elements := EncodedRandomizers(codec, c.q, rs).value;
                 && |elements| == RANDOMIZER_CIPHERTEXT_WIDTH
                 && var s := EncryptedStatement(c, bcaPk, elements, r, nonces, contextPrefix);
                    if c.digestToScalar(StatementStream(c, s)).None? then
                      encrypted == Err(HashToElementError)
                    else
                      && encrypted.Ok?
                      && encrypted.value.ballotStyle == randomizers.ballotStyle
                      && Encrypts(c, encrypted.value.ciphertext, bcaPk, elements, r)
  {
    hide Rem, EncodedRandomizers, RandomizerEncodes, EncryptWithR, StatementStream, Pleq.Commitments,
         Elgamal.EncryptWithR;
    var rs := randomizers.randomizers;
    EncodedRandomizersExactly(codec, c.q, rs);
    if EncodedRandomizers(codec, c.q, rs).Ok? && |rs| == 1 {
      EncryptExactly(c, bcaPk, EncodedRandomizers(codec, c.q, rs).value, r, contextPrefix, nonces);
    }
  }

  /** The authority refuses randomizers whose proof does not answer its hash. */
  lemma RandomizersRefused<E(!new)>(c: Context<E>, codec: Codec<E>, cryptogram: RandomizersCryptogram<E>,
                                    bcaKey: KeyPair<E>, contextPrefix: ByteString)
    requires c.Valid() && Valid(codec, c.q) && WellFormed(cryptogram.ciphertext, RANDOMIZER_CIPHERTEXT_WIDTH)
    ensures var ct := cryptogram.ciphertext;
            var received := DecryptedRandomizers(c, codec, cryptogram, bcaKey, contextPrefix);
            && (Hashed(c, bcaKey.pkey, ct, contextPrefix).None? ==> received == Err(HashToElementError))
            && (Hashed(c, bcaKey.pkey, ct, contextPrefix).Some? && !ProofAnswers(c, bcaKey.pkey, ct, contextPrefix)
                ==> received == Err(NaorYungStripError))
  {
    hide Rem, Decrypt, DecodedPairs, Hashed, ProofAnswers;
    DecryptExactly(c, bcaKey, cryptogram.ciphertext, contextPrefix);
  }

  /** The bytes of a scalar behind a pair of elements. */
  function PairBytes<E>(codec: Codec<E>, e: E, e': E): ByteString
    requires |codec.decodeChunk(e)| == |codec.decodeChunk(e')| == CHUNK_SIZE
  {
    codec.decodeChunk(e) + codec.decodeChunk(e')[..SCALAR_BYTES - CHUNK_SIZE]
  }

  /** A pair of elements is decoded to the scalar that its bytes are, and refused if they are none. */
  lemma PairDecoded<E(!new)>(codec: Codec<E>, q: nat, e: E, e': E)
    requires Valid(codec, q)
    ensures |codec.decodeChunk(e)| == |codec.decodeChunk(e')| == CHUNK_SIZE
    ensures forall i | 0 <= i < 2 :: |codec.decodeChunk([e, e'][i])| == CHUNK_SIZE
    ensures DecodeScalar(codec, [e, e'])
         == match codec.scalarFromBytes(PairBytes(codec, e, e'))
            case None => Err(ScalarDecodeError)
            case Some(s) => Ok(s)
  {
    AllDecode(codec, q, [e, e']);
    assert |codec.decodeChunk([e, e'][0])| == |codec.decodeChunk([e, e'][1])| == CHUNK_SIZE;
    assert DecodeChunks(codec, [e, e']) == [codec.decodeChunk(e), codec.decodeChunk(e')];
    assert [codec.decodeChunk(e), codec.decodeChunk(e')][1..] == [codec.decodeChunk(e')];
    assert Join([codec.decodeChunk(e')], SCALAR_BYTES - CHUNK_SIZE)
        == codec.decodeChunk(e')[..SCALAR_BYTES - CHUNK_SIZE];
  }

  /** From a cryptogram whose proof answers its hash, honest or not, the authority gets the one scalar
    * behind the two decrypted elements, with the cryptogram's style, or an error if there is none. */
  lemma ReceivedExactly<E(!new)>(c: Context<E>, codec: Codec<E>, cryptogram: RandomizersCryptogram<E>,
                                 bcaKey: KeyPair<E>, contextPrefix: ByteString)
    requires c.Valid() && Valid(codec, c.q) && WellFormed(cryptogram.ciphertext, RANDOMIZER_CIPHERTEXT_WIDTH)
    requires Hashed(c, bcaKey.pkey, cryptogram.ciphertext, contextPrefix).Some?
    requires ProofAnswers(c, bcaKey.pkey, cryptogram.ciphertext, contextPrefix)
    ensures var ct := cryptogram.ciphertext;
            var elements := Elgamal.Decrypt(c, ct.uB, ct.vB, bcaKey.skB);
            && |codec.decodeChunk(elements[0])| == |codec.decodeChunk(elements[1])| == CHUNK_SIZE
            && (DecryptedRandomizers(c, codec, cryptogram, bcaKey, contextPrefix)
                == match codec.scalarFromBytes(PairBytes(codec, elements[0], elements[1]))
                   case None => Err(ScalarDecodeError)
                   case Some(s) => Ok(Randomizers(cryptogram.ballotStyle, [s])))
  {
    hide Rem, Decrypt, Hashed, ProofAnswers, Elgamal.Decrypt, DecodeScalar, PairBytes;
    DecryptExactly(c, bcaKey, cryptogram.ciphertext, contextPrefix);
    var elements := Elgamal.Decrypt(c, cryptogram.ciphertext.uB, cryptogram.ciphertext.vB, bcaKey.skB);
    PairDecoded(codec, c.q, elements[0], elements[1]);
    var none: seq<int> := [];
    assert DecodedPairs(codec, c.q, elements, 0) == Ok(none);
    assert |elements| / 2 == 1;
    var s := DecodeScalar(codec, [elements[0], elements[1]]);
    assert DecodedPairs(codec, c.q, elements, 1) == if s.Ok? then Ok(none + [s.value]) else Err(s.error);
    assert s.Ok? ==> none + [s.value] == [s.value];
    assert Decrypt(c, bcaKey, cryptogram.ciphertext, contextPrefix) == Ok(elements);
  }

  /** The complete ballot check succeeds whenever points are found for the ballot and its randomizer
    * and hashing does not fail, and shows the authority the voter's ballot. */
  lemma BallotCheckSucceeds<E(!new)>(c: Context<E>, codec: Codec<E>, ballot: Ballot, electionPk: PublicKey<E>,
                                     context: ByteString, randomizers: seq<int>, nonces: seq<int>, bcaKey: KeyPair<E>,
                                     contextPrefix: ByteString, r: seq<int>, nonces': seq<int>)
    requires c.Valid() && Valid(codec, c.q) && HashTotal(c) && InBounds(ballot) && Matching(c, bcaKey)
    requires |randomizers| == |nonces| == BALLOT_CIPHERTEXT_WIDTH && |r| == |nonces'| == RANDOMIZER_CIPHERTEXT_WIDTH
    requires codec.encodeChunk(BallotChunk(ballot)).Some? && RandomizerEncodes(codec, c.q, randomizers[0])
    ensures var encrypted := EncryptBallot(c, codec, ballot, electionPk, context, randomizers, nonces);
            && encrypted.Ok?
            && WellFormed(encrypted.value.0.ciphertext, BALLOT_CIPHERTEXT_WIDTH)
            && var sent := EncryptedRandomizers(c, codec, encrypted.value.1, bcaKey.pkey, contextPrefix, r, nonces');
               && sent.Ok?
               && var received := DecryptedRandomizers(c, codec, sent.value, bcaKey, contextPrefix);
                  && received.Ok?
                  && (DecryptBallot(c, codec, encrypted.value.0, received.value, electionPk, context) == Ok(ballot))
  {
    hide Rem, BallotChunk, RandomizerEncodes, EncryptBallot, EncryptedRandomizers, DecryptedRandomizers, DecryptBallot,
         EncodedRandomizers, Encrypts, EncryptedStatement, StatementStream;
    EncryptBallotExactly(c, codec, ballot, electionPk, context, randomizers, nonces);
    var kept := Randomizers(ballot.ballotStyle, randomizers);
    EncryptRandomizersExactly(c, codec, kept, bcaKey.pkey, contextPrefix, r, nonces');
    BallotCheckRoundTrip(c, codec, ballot, electionPk, context, randomizers, nonces, bcaKey, contextPrefix, r, nonces');
  }
}
