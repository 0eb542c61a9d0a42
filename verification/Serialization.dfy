/** Variable-length serialization of tuples: every field but the last is behind its length. */
module Serialization {
  import opened Bytes
  import opened Modular
  import opened Results

  /** The length fits its prefix. */
  predicate Fits(bytes: ByteString) {
    |bytes| < Power(256, LENGTH_BYTES)
  }

  /** A field that is followed by others. */
  function Prefixed(field: ByteString, rest: ByteString): ByteString {
    BigEndian(|field|, LENGTH_BYTES) + field + rest
  }

  /** Split off the first field, without its length. */
  function SplitNext(bytes: ByteString): Result<(ByteString, ByteString)> {
    if |bytes| < LENGTH_BYTES then
      Err(DeserializationError)
    else
      var end := LENGTH_BYTES + FromBigEndian(bytes[..LENGTH_BYTES]);
      if end > |bytes| then
        Err(DeserializationError)
      else
        Ok((bytes[LENGTH_BYTES..end], bytes[end..]))
  }

  /** Splitting undoes prefixing, and nothing else can be split. */
  lemma SplitPrefixed(field: ByteString, rest: ByteString)
    requires Fits(field)
    ensures SplitNext(Prefixed(field, rest)) == Ok((field, rest))
  {
    hide BigEndian, FromBigEndian;
    var prefix, bytes := BigEndian(|field|, LENGTH_BYTES), Prefixed(field, rest);
    BigEndianRoundTrip(|field|, LENGTH_BYTES);
    assert bytes[..LENGTH_BYTES] == prefix;
    assert bytes[LENGTH_BYTES..LENGTH_BYTES + |field|] == field;
    assert bytes[LENGTH_BYTES + |field|..] == rest;
  }

  lemma SplitOnlyPrefixed(bytes: ByteString, field: ByteString, rest: ByteString)
    requires SplitNext(bytes) == Ok((field, rest))
    ensures Fits(field) && bytes == Prefixed(field, rest)
  {
    hide BigEndian, FromBigEndian;
    FromBigEndianRoundTrip(bytes[..LENGTH_BYTES]);
    var end := LENGTH_BYTES + |field|;
    assert bytes == bytes[..LENGTH_BYTES] + bytes[LENGTH_BYTES..end] + bytes[end..];
  }

  /** Unsigned integers of a fixed number of bytes. */
  function DeserializeUnsigned(bytes: ByteString, width: nat): Result<nat> {
    if |bytes| == width then Ok(FromBigEndian(bytes)) else Err(DeserializationError)
  }

  lemma UnsignedRoundTrip(n: nat, width: nat)
    requires n < Power(256, width)
    ensures DeserializeUnsigned(BigEndian(n, width), width) == Ok(n)
  {
    BigEndianRoundTrip(n, width);
  }
}
