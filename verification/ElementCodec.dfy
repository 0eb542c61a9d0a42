/** Encoding bytes and scalars as group elements, 30 bytes to an element. */
module ElementCodec {
  import opened Bytes
  import opened Modular
  import opened Results

  const CHUNK_SIZE: nat := 30

  const SCALAR_BYTES: nat := 32

  /** The parts of the encoding that depend on the group. */
  datatype Codec<!E> = Codec(
    encodeChunk: ByteString -> Option<E>,
    decodeChunk: E -> ByteString,
    scalarToBytes: nat -> ByteString,
    scalarFromBytes: ByteString -> Option<nat>)
  {
    /** Decoding undoes encoding, when a point was found. */
    ghost predicate ChunkRoundTrip(chunk: ByteString) {
      |chunk| == CHUNK_SIZE && encodeChunk(chunk).Some? ==> decodeChunk(encodeChunk(chunk).value) == chunk
    }

    ghost predicate ScalarRoundTrip(s: nat) {
      |scalarToBytes(s)| == SCALAR_BYTES && scalarFromBytes(scalarToBytes(s)) == Some(s)
    }
  }

  ghost predicate Valid<E(!new)>(codec: Codec<E>, q: nat) {
    && (forall chunk: ByteString :: codec.ChunkRoundTrip(chunk))
    && (forall e: E :: Decodes(codec, e))
    && (forall s: nat | s < q :: codec.ScalarRoundTrip(s))
  }

  ghost predicate Decodes<E>(codec: Codec<E>, e: E) {
    |codec.decodeChunk(e)| == CHUNK_SIZE
  }

  function Zeros(n: nat): (s: ByteString)
    ensures |s| == n
  {
    seq(n, _ => 0)
  }

  function ChunkCount(n: nat): nat {
    (n + CHUNK_SIZE - 1) / CHUNK_SIZE
  }

  /** Cut bytes into chunks, filling the last one with zeros. */
  function Split(bytes: ByteString): (chunks: seq<ByteString>)
    ensures forall i | 0 <= i < |chunks| :: |chunks[i]| == CHUNK_SIZE
    decreases |bytes|
  {
    if bytes == [] then
      []
    else if |bytes| <= CHUNK_SIZE then
      [bytes + Zeros(CHUNK_SIZE - |bytes|)]
    else
      [bytes[..CHUNK_SIZE]] + Split(bytes[CHUNK_SIZE..])
  }

  /** The first n bytes of the chunks; bytes that the chunks do not reach are zero. */
  function Join(chunks: seq<ByteString>, n: nat): (bytes: ByteString)
    requires forall i | 0 <= i < |chunks| :: |chunks[i]| == CHUNK_SIZE
    ensures |bytes| == n
    decreases |chunks|
  {
    if chunks == [] then
      Zeros(n)
    else if n <= CHUNK_SIZE then
      chunks[0][..n]
    else
      chunks[0] + Join(chunks[1..], n - CHUNK_SIZE)
  }

  lemma {:induction false} JoinSplit(bytes: ByteString)
    ensures Join(Split(bytes), |bytes|) == bytes
    ensures |Split(bytes)| == ChunkCount(|bytes|)
    decreases |bytes|
  {
    if |bytes| > CHUNK_SIZE {
      JoinSplit(bytes[CHUNK_SIZE..]);
      assert Split(bytes)[1..] == Split(bytes[CHUNK_SIZE..]);
    }
  }

  function EncodeChunks<E>(codec: Codec<E>, chunks: seq<ByteString>): (r: Result<seq<E>>)
    ensures r.Ok? ==> |r.value| == |chunks|
  {
    if chunks == [] then
      Ok([])
    else
      match codec.encodeChunk(chunks[0])
      case None => Err(EncodingError)
      case Some(e) =>
        var rest :- EncodeChunks(codec, chunks[1..]);
        Ok([e] + rest)
  }

  /** Every byte of a chunk is the one at its place, or zero behind the end. */
  lemma {:induction false} SplitAt(bytes: ByteString, i: nat, j: nat)
    requires i < ChunkCount(|bytes|) && j < CHUNK_SIZE
    ensures |Split(bytes)| == ChunkCount(|bytes|)
    ensures Split(bytes)[i][j] == if CHUNK_SIZE * i + j < |bytes| then bytes[CHUNK_SIZE * i + j] else 0
    decreases |bytes|
  {
    JoinSplit(bytes);
    if i > 0 {
      SplitAt(bytes[CHUNK_SIZE..], i - 1, j);
    }
  }

  /** Every byte that is joined is the one at its place in its chunk, or zero behind the last one. */
  lemma {:induction false} JoinAt(chunks: seq<ByteString>, n: nat, k: nat)
    requires k < n && forall i | 0 <= i < |chunks| :: |chunks[i]| == CHUNK_SIZE
    ensures Join(chunks, n)[k]
         == if k / CHUNK_SIZE < |chunks| then chunks[k / CHUNK_SIZE][k % CHUNK_SIZE] else 0
    decreases |chunks|
  {
    if chunks != [] && k >= CHUNK_SIZE {
      JoinAt(chunks[1..], n - CHUNK_SIZE, k - CHUNK_SIZE);
      assert k / CHUNK_SIZE == (k - CHUNK_SIZE) / CHUNK_SIZE + 1;
      assert k % CHUNK_SIZE == (k - CHUNK_SIZE) % CHUNK_SIZE;
    }
  }

  /** A point was found for every chunk. */
  predicate AllEncode<E>(codec: Codec<E>, chunks: seq<ByteString>) {
    forall i | 0 <= i < |chunks| :: codec.encodeChunk(chunks[i]).Some?
  }

  /** Encoding succeeds exactly when points are found for all chunks, and gives these points. */
  lemma {:induction false} EncodeExactly<E>(codec: Codec<E>, chunks: seq<ByteString>)
    ensures !AllEncode(codec, chunks) ==> EncodeChunks(codec, chunks) == Err(EncodingError)
    ensures AllEncode(codec, chunks) ==>
              && EncodeChunks(codec, chunks).Ok?
              && forall i | 0 <= i < |chunks| ::
                   codec.encodeChunk(chunks[i]) == Some(EncodeChunks(codec, chunks).value[i])
  {
    if chunks != [] {
      EncodeExactly(codec, chunks[1..]);
      assert forall i | 1 <= i < |chunks| :: chunks[i] == chunks[1..][i - 1];
    }
  }

  function DecodeChunks<E>(codec: Codec<E>, elements: seq<E>): (chunks: seq<ByteString>)
    ensures |chunks| == |elements|
    ensures forall i | 0 <= i < |chunks| :: chunks[i] == codec.decodeChunk(elements[i])
  {
    seq(|elements|, i requires 0 <= i < |elements| => codec.decodeChunk(elements[i]))
  }

  function EncodeBytes<E>(codec: Codec<E>, bytes: ByteString): (r: Result<seq<E>>) {
    EncodeChunks(codec, Split(bytes))
  }

  function DecodeBytes<E>(codec: Codec<E>, elements: seq<E>, n: nat): (bytes: ByteString)
    requires forall i | 0 <= i < |elements| :: |codec.decodeChunk(elements[i])| == CHUNK_SIZE
    ensures |bytes| == n
  {
    Join(DecodeChunks(codec, elements), n)
  }

  lemma AllDecode<E(!new)>(codec: Codec<E>, q: nat, elements: seq<E>)
    requires Valid(codec, q)
    ensures forall i | 0 <= i < |elements| :: |codec.decodeChunk(elements[i])| == CHUNK_SIZE
  {
    forall i | 0 <= i < |elements| ensures |codec.decodeChunk(elements[i])| == CHUNK_SIZE {
      assert Decodes(codec, elements[i]);
    }
  }

  lemma {:induction false} ChunksRoundTrip<E(!new)>(codec: Codec<E>, q: nat, chunks: seq<ByteString>)
    requires Valid(codec, q) && EncodeChunks(codec, chunks).Ok?
    requires forall i | 0 <= i < |chunks| :: |chunks[i]| == CHUNK_SIZE
    ensures DecodeChunks(codec, EncodeChunks(codec, chunks).value) == chunks
  {
    if chunks != [] {
      assert codec.ChunkRoundTrip(chunks[0]);
      hide Valid;
      ChunksRoundTrip(codec, q, chunks[1..]);
      var elements := EncodeChunks(codec, chunks).value;
      assert elements[1..] == EncodeChunks(codec, chunks[1..]).value;
      assert DecodeChunks(codec, elements) == [codec.decodeChunk(elements[0])] + DecodeChunks(codec, elements[1..]);
    }
  }

  /** Bytes of any length survive encoding into elements, whenever points are found for them. */
  lemma BytesRoundTrip<E(!new)>(codec: Codec<E>, q: nat, bytes: ByteString)
    requires Valid(codec, q) && EncodeBytes(codec, bytes).Ok?
    ensures var elements := EncodeBytes(codec, bytes).value;
            && |elements| == ChunkCount(|bytes|)
            && (forall i | 0 <= i < |elements| :: |codec.decodeChunk(elements[i])| == CHUNK_SIZE)
            && DecodeBytes(codec, elements, |bytes|) == bytes
  {
    JoinSplit(bytes);
    ChunksRoundTrip(codec, q, Split(bytes));
    AllDecode(codec, q, EncodeBytes(codec, bytes).value);
  }

  /** A scalar takes two elements. */
  function EncodeScalar<E>(codec: Codec<E>, s: nat): Result<seq<E>> {
    EncodeBytes(codec, codec.scalarToBytes(s))
  }

  function DecodeScalar<E>(codec: Codec<E>, elements: seq<E>): Result<nat>
    requires forall i | 0 <= i < |elements| :: |codec.decodeChunk(elements[i])| == CHUNK_SIZE
  {
    match codec.scalarFromBytes(DecodeBytes(codec, elements, SCALAR_BYTES))
    case Some(s) => Ok(s)
    case None => Err(ScalarDecodeError)
  }

  lemma ScalarElements<E(!new)>(codec: Codec<E>, q: nat, s: nat)
    requires Valid(codec, q) && s < q && EncodeScalar(codec, s).Ok?
    ensures var elements := EncodeScalar(codec, s).value;
            && |elements| == 2
            && (forall i | 0 <= i < 2 :: |codec.decodeChunk(elements[i])| == CHUNK_SIZE)
            && DecodeScalar(codec, elements) == Ok(s)
  {
    hide EncodeBytes, DecodeBytes;
    assert codec.ScalarRoundTrip(s);
    BytesRoundTrip(codec, q, codec.scalarToBytes(s));
  }
}
