/** Serialization of arrays whose elements have variable length. */
module ArraySerialization {
  import opened Bytes
  import opened Modular
  import opened Results
  import opened Serialization

  /** The serialized elements one after another, each behind its length. */
  function SerializeArray(elements: seq<ByteString>): ByteString {
    if elements == [] then [] else Prefixed(elements[0], SerializeArray(elements[1..]))
  }

  /** Cut count chunks of end bytes, dropping the prefix of each, until nothing is left. */
  function Chunks(bytes: ByteString, end: nat, count: nat): (r: Result<seq<ByteString>>)
    requires end >= LENGTH_BYTES
    ensures r.Ok? ==> |r.value| == count && forall i | 0 <= i < count :: |r.value[i]| == end - LENGTH_BYTES
  {
    if count == 0 then
      if bytes == [] then Ok([]) else Err(DeserializationError)
    else if end > |bytes| then
      Err(DeserializationError)
    else
      var rest :- Chunks(bytes[end..], end, count - 1);
      Ok([bytes[LENGTH_BYTES..end]] + rest)
  }

  /** The chunks that are handed to the elements' own deserialization. Every length is read from
    * the start of the whole buffer, so it is the first element's. */
  function ArrayChunks(buffer: ByteString, count: nat): Result<seq<ByteString>> {
    if count == 0 then
      if buffer == [] then Ok([]) else Err(DeserializationError)
    else if |buffer| < LENGTH_BYTES then
      Err(DeserializationError)
    else
      Chunks(buffer, LENGTH_BYTES + FromBigEndian(buffer[..LENGTH_BYTES]), count)
  }

  method CutArray(buffer: ByteString, count: nat) returns (r: Result<seq<ByteString>>)
    ensures r == ArrayChunks(buffer, count)
  {
    hide FromBigEndian;
    var bytes := buffer;
    var chunks: seq<ByteString> := [];
    for i := 0 to count
      invariant i > 0 ==> |buffer| >= LENGTH_BYTES
      invariant i > 0 ==> ArrayChunks(buffer, count)
                          == Prepended(chunks, Chunks(bytes, LENGTH_BYTES + FromBigEndian(buffer[..LENGTH_BYTES]),
                                                      count - i))
      invariant i == 0 ==> bytes == buffer && chunks == []
    {
      if |buffer| < LENGTH_BYTES {
        return Err(DeserializationError);
      }
      var end := LENGTH_BYTES + FromBigEndian(buffer[..LENGTH_BYTES]);
      PrependNothing(Chunks(buffer, end, count));
      if end > |bytes| {
        return Err(DeserializationError);
      }
      PrependOne(chunks, bytes[LENGTH_BYTES..end], Chunks(bytes[end..], end, count - i - 1));
      chunks := chunks + [bytes[LENGTH_BYTES..end]];
      bytes := bytes[end..];
    }
    if bytes != [] {
      return Err(DeserializationError);
    }
    assert chunks + [] == chunks;
    return Ok(chunks);
  }

  function Prepended(chunks: seq<ByteString>, r: Result<seq<ByteString>>): Result<seq<ByteString>> {
    match r
    case Ok(rest) => Ok(chunks + rest)
    case Err(e) => Err(e)
  }

  lemma PrependNothing(r: Result<seq<ByteString>>)
    ensures Prepended([], r) == r
  {
    if r.Ok? {
      assert [] + r.value == r.value;
    }
  }

  lemma PrependOne(chunks: seq<ByteString>, chunk: ByteString, r: Result<seq<ByteString>>)
    ensures Prepended(chunks, Prepended([chunk], r)) == Prepended(chunks + [chunk], r)
  {
    if r.Ok? {
      assert chunks + ([chunk] + r.value) == chunks + [chunk] + r.value;
    }
  }

  lemma {:induction false} EqualChunks(elements: seq<ByteString>, length: nat)
    requires forall i | 0 <= i < |elements| :: |elements[i]| == length
    ensures Chunks(SerializeArray(elements), LENGTH_BYTES + length, |elements|) == Ok(elements)
  {
    hide BigEndian;
    if elements != [] {
      var rest := SerializeArray(elements[1..]);
      var bytes := Prefixed(elements[0], rest);
      EqualChunks(elements[1..], length);
      assert bytes[LENGTH_BYTES..LENGTH_BYTES + length] == elements[0];
      assert bytes[LENGTH_BYTES + length..] == rest;
      assert [elements[0]] + elements[1..] == elements;
    }
  }

  ghost predicate EqualLengths(elements: seq<ByteString>) {
    forall i, j | 0 <= i < j < |elements| :: |elements[i]| == |elements[j]|
  }

  /** An array is cut back into its serialized elements exactly when they all have the same
    * length, because only the first length is ever read. */
  lemma ArrayRoundTripExactly(elements: seq<ByteString>)
    requires forall i | 0 <= i < |elements| :: Fits(elements[i])
    ensures ArrayChunks(SerializeArray(elements), |elements|) == Ok(elements) <==> EqualLengths(elements)
  {
    hide BigEndian, FromBigEndian, Power;
    if elements != [] {
      var bytes, length := SerializeArray(elements), |elements[0]|;
      BigEndianRoundTrip(length, LENGTH_BYTES);
      assert bytes[..LENGTH_BYTES] == BigEndian(length, LENGTH_BYTES);
      assert ArrayChunks(bytes, |elements|) == Chunks(bytes, LENGTH_BYTES + length, |elements|);
      if EqualLengths(elements) {
        EqualChunks(elements, length);
      }
    }
  }

  function TotalLength(elements: seq<ByteString>): nat {
    if elements == [] then 0 else |elements[0]| + TotalLength(elements[1..])
  }

  lemma {:induction false} SerializedLength(elements: seq<ByteString>)
    ensures |SerializeArray(elements)| == |elements| * LENGTH_BYTES + TotalLength(elements)
  {
    hide BigEndian;
    if elements != [] {
      SerializedLength(elements[1..]);
    }
  }

  lemma {:induction false} ChunksExactly(bytes: ByteString, end: nat, count: nat)
    requires end >= LENGTH_BYTES
    ensures Chunks(bytes, end, count).Ok? <==> |bytes| == count * end
  {
    if count > 0 {
      assert count * end == end + (count - 1) * end;
      assert (count - 1) * end >= 0;
      if end <= |bytes| {
        ChunksExactly(bytes[end..], end, count - 1);
      }
    }
  }

  /** Something is read back, right or wrong, exactly when the lengths add up to that many times
    * the first one. */
  lemma ArrayAccepted(elements: seq<ByteString>)
    requires elements != [] && forall i | 0 <= i < |elements| :: Fits(elements[i])
    ensures ArrayChunks(SerializeArray(elements), |elements|).Ok?
       <==> TotalLength(elements) == |elements| * |elements[0]|
  {
    hide BigEndian, FromBigEndian, Power, Chunks;
    var bytes, n, length := SerializeArray(elements), |elements|, |elements[0]|;
    BigEndianRoundTrip(length, LENGTH_BYTES);
    assert bytes[..LENGTH_BYTES] == BigEndian(length, LENGTH_BYTES);
    SerializedLength(elements);
    ChunksExactly(bytes, LENGTH_BYTES + length, n);
    assert n * (LENGTH_BYTES + length) == n * LENGTH_BYTES + n * length;
  }

  /** Two elements of different lengths are refused; three can be misread as three others. */
  lemma DifferentLengths()
    ensures ArrayChunks(SerializeArray([[], [1]]), 2).Err?
    ensures ArrayChunks(SerializeArray([[1], [], [2, 3]]), 3).Ok?
    ensures ArrayChunks(SerializeArray([[1], [], [2, 3]]), 3) != Ok([[1], [], [2, 3]])
  {
    hide ArrayChunks, SerializeArray;
    var two, three: seq<ByteString> := [[], [1]], [[1], [], [2, 3]];
    SmallFits(two);
    SmallFits(three);
    ArrayAccepted(two);
    assert two[1..] == [[1]];
    ArrayAccepted(three);
    assert three[1..] == [[], [2, 3]] && three[1..][1..] == [[2, 3]];
    ArrayRoundTripExactly(three);
    assert |three[0]| != |three[1]|;
  }

  lemma SmallFits(elements: seq<ByteString>)
    requires forall i | 0 <= i < |elements| :: |elements[i]| < 256
    ensures forall i | 0 <= i < |elements| :: Fits(elements[i])
  {
    PowerPositive(256, LENGTH_BYTES - 1);
    assert Power(256, LENGTH_BYTES) == 256 * Power(256, LENGTH_BYTES - 1);
  }
}
