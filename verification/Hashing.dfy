/** Feeding data and domain separation tags to a hash function. */
module Hashing {
  import opened Bytes

  /** The bytes a hasher receives for the given slices: every slice is followed by the tag
    * at its index, as long as there is one. */
  function Stream(slices: seq<ByteString>, tags: seq<ByteString>): (s: ByteString)
  {
    if slices == [] then
      []
    else
      var last := |slices| - 1;
      Stream(slices[..last], tags) + slices[last] + (if |tags| > last then tags[last] else [])
  }

  /** A hash function in progress, known by the bytes it has received. */
  class Hasher {
    var received: ByteString

    constructor ()
      ensures received == []
    {
      received := [];
    }

    method Update(data: ByteString)
      modifies this
      ensures received == old(received) + data
    {
      received := received + data;
    }
  }

  method UpdateHasher(hasher: Hasher, dataSlices: seq<ByteString>, dsTags: seq<ByteString>)
    modifies hasher
    ensures hasher.received == old(hasher.received) + Stream(dataSlices, dsTags)
  {
    for i := 0 to |dataSlices|
      invariant hasher.received == old(hasher.received) + Stream(dataSlices[..i], dsTags)
    {
      assert dataSlices[..i + 1][..i] == dataSlices[..i];
      hasher.Update(dataSlices[i]);
      if |dsTags| > i {
        hasher.Update(dsTags[i]);
      }
    }
    assert dataSlices[..|dataSlices|] == dataSlices;
  }
}
