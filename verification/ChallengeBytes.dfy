/** The bytes hashed into a challenge determine everything that was put into them. */
module ChallengeBytes {
  import opened ArraySerialization
  import opened Bytes
  import opened Dlogeq
  import opened Groups
  import opened Hashing
  import opened Modular
  import opened Results
  import opened Serialization

  /** Elements are written injectively, in the same number of bytes. */
  ghost predicate FixedWidth<E(!new)>(c: Context<E>, size: nat) {
    && size < Power(256, LENGTH_BYTES - 1)
    && (forall x: E :: WrittenIn(c, x, size))
    && (forall x: E, y: E :: Distinguished(c, x, y))
  }

  ghost predicate WrittenIn<E(!new)>(c: Context<E>, x: E, size: nat) {
    |c.ser(x)| == size
  }

  ghost predicate Distinguished<E(!new)>(c: Context<E>, x: E, y: E) {
    c.ser(x) == c.ser(y) ==> x == y
  }

  /** The statement, the commitments and the context of a proof. */
  datatype Input<E> = Input(g0: E, g1: seq<E>, y0: E, y1: seq<E>, bigA0: E, bigA1: seq<E>, proofContext: ByteString)

  function InputStream<E(==,!new)>(c: Context<E>, i: Input<E>): ByteString {
    Stream(ChallengeInput(c, i.g0, i.g1, i.y0, i.y1, i.bigA0, i.bigA1, i.proofContext), DS_TAGS)
  }

  lemma SplitEqual(a: ByteString, b: ByteString, x: ByteString, y: ByteString)
    requires |a| == |b| && a + x == b + y
    ensures a == b && x == y
  {
    assert (a + x)[..|a|] == a && (b + y)[..|a|] == b;
    assert (a + x)[|a|..] == x && (b + y)[|a|..] == y;
  }

  lemma SameElement<E(!new)>(c: Context<E>, size: nat, x: E, y: E, rest: ByteString, rest': ByteString)
    requires FixedWidth(c, size) && c.ser(x) + rest == c.ser(y) + rest'
    ensures x == y && rest == rest'
  {
    assert WrittenIn(c, x, size) && WrittenIn(c, y, size) && Distinguished(c, x, y);
    SplitEqual(c.ser(x), c.ser(y), rest, rest');
  }

  /** An array ends where the tag starts, because a length prefix starts with a zero byte and no
    * tag does; so arrays of any two widths can be told apart. */
  lemma {:induction false} SameArray<E(!new)>(c: Context<E>, size: nat, xs: seq<E>, ys: seq<E>, tag: ByteString,
                                              rest: ByteString, rest': ByteString)
    requires FixedWidth(c, size) && tag != [] && tag[0] != 0
    requires SerializeElements(c, xs) + (tag + rest) == SerializeElements(c, ys) + (tag + rest')
    ensures xs == ys && rest == rest'
    decreases |xs|
  {
    hide BigEndian;
    if xs == [] && ys == [] {
      assert SerializeElements(c, xs) + (tag + rest) == tag + rest;
      assert SerializeElements(c, ys) + (tag + rest') == tag + rest';
      SplitEqual(tag, tag, rest, rest');
    } else if xs == [] || ys == [] {
      var zs, r := if xs == [] then ys else xs, if xs == [] then rest' else rest;
      ArrayStart(c, size, zs, tag + r);
    } else {
      ArrayHead(c, size, xs, tag + rest);
      ArrayHead(c, size, ys, tag + rest');
      var prefix := BigEndian(size, LENGTH_BYTES);
      SplitEqual(prefix, prefix, c.ser(xs[0]) + (SerializeElements(c, xs[1..]) + (tag + rest)),
                 c.ser(ys[0]) + (SerializeElements(c, ys[1..]) + (tag + rest')));
      SameElement(c, size, xs[0], ys[0], SerializeElements(c, xs[1..]) + (tag + rest),
                  SerializeElements(c, ys[1..]) + (tag + rest'));
      SameArray(c, size, xs[1..], ys[1..], tag, rest, rest');
    }
  }

  lemma ArrayHead<E(!new)>(c: Context<E>, size: nat, xs: seq<E>, rest: ByteString)
    requires FixedWidth(c, size) && xs != []
    ensures SerializeElements(c, xs) + rest
         == BigEndian(size, LENGTH_BYTES) + (c.ser(xs[0]) + (SerializeElements(c, xs[1..]) + rest))
  {
    hide BigEndian, FixedWidth;
    var prefix, head, tail := BigEndian(size, LENGTH_BYTES), c.ser(xs[0]), SerializeElements(c, xs[1..]);
    FirstElement(c, size, xs);
    hide SerializeElements;
    assert prefix + head + tail + rest == prefix + (head + (tail + rest));
  }

  lemma FirstElement<E(!new)>(c: Context<E>, size: nat, xs: seq<E>)
    requires FixedWidth(c, size) && xs != []
    ensures SerializeElements(c, xs) == BigEndian(size, LENGTH_BYTES) + c.ser(xs[0]) + SerializeElements(c, xs[1..])
  {
    hide BigEndian;
    assert WrittenIn(c, xs[0], size);
    assert Serialized(c, xs)[1..] == Serialized(c, xs[1..]);
  }

  lemma ArrayStart<E(!new)>(c: Context<E>, size: nat, xs: seq<E>, rest: ByteString)
    requires FixedWidth(c, size) && xs != []
    ensures |SerializeElements(c, xs) + rest| > 0 && (SerializeElements(c, xs) + rest)[0] == 0
  {
    hide BigEndian;
    ArrayHead(c, size, xs, rest);
    LeadingZero(size, LENGTH_BYTES);
  }

  /** What is hashed, before the context: elements and arrays of elements. */
  datatype Field<E> = Single(x: E) | Many(xs: seq<E>)

  function Written<E(==,!new)>(c: Context<E>, f: Field<E>): ByteString {
    match f
    case Single(x) => c.ser(x)
    case Many(xs) => SerializeElements(c, xs)
  }

  function AllWritten<E(==,!new)>(c: Context<E>, fields: seq<Field<E>>): (slices: seq<ByteString>)
    ensures |slices| == |fields|
  {
    seq(|fields|, i requires 0 <= i < |fields| => Written(c, fields[i]))
  }

  /** The stream of the fields, from the front. */
  function FieldStream<E(==,!new)>(c: Context<E>, fields: seq<Field<E>>, tags: seq<ByteString>): ByteString
    requires |fields| <= |tags|
  {
    if fields == [] then
      []
    else
      Written(c, fields[0]) + (tags[0] + FieldStream(c, fields[1..], tags[1..]))
  }

  lemma {:induction false} FieldStreamSnoc<E(!new)>(c: Context<E>, fields: seq<Field<E>>, tags: seq<ByteString>)
    requires 0 < |fields| <= |tags|
    ensures var n := |fields| - 1;
            FieldStream(c, fields, tags) == FieldStream(c, fields[..n], tags) + (Written(c, fields[n]) + tags[n])
    decreases |fields|
  {
    hide Written;
    var n := |fields| - 1;
    if n > 0 {
      FieldStreamSnoc(c, fields[1..], tags[1..]);
      assert fields[1..][..n - 1] == fields[..n][1..];
    }
  }

  lemma {:induction false} StreamIsFieldStream<E(!new)>(c: Context<E>, fields: seq<Field<E>>, tags: seq<ByteString>)
    requires |fields| <= |tags|
    ensures Stream(AllWritten(c, fields), tags) == FieldStream(c, fields, tags)
    decreases |fields|
  {
    hide Written;
    if fields != [] {
      var n := |fields| - 1;
      assert AllWritten(c, fields)[..n] == AllWritten(c, fields[..n]);
      StreamIsFieldStream(c, fields[..n], tags);
      FieldStreamSnoc(c, fields, tags);
    }
  }

  predicate SameKinds<E>(fs: seq<Field<E>>, gs: seq<Field<E>>) {
    |fs| == |gs| && forall i | 0 <= i < |fs| :: fs[i].Single? == gs[i].Single?
  }

  predicate GoodTags(tags: seq<ByteString>) {
    forall i | 0 <= i < |tags| :: tags[i] != [] && tags[i][0] != 0
  }

  /** A stream of fields of known kinds, followed by anything, can be read back. */
  lemma {:induction false} SameFields<E(!new)>(c: Context<E>, size: nat, fs: seq<Field<E>>, gs: seq<Field<E>>,
                                               tags: seq<ByteString>, rest: ByteString, rest': ByteString)
    requires FixedWidth(c, size) && SameKinds(fs, gs) && |fs| <= |tags| && GoodTags(tags)
    requires FieldStream(c, fs, tags) + rest == FieldStream(c, gs, tags) + rest'
    ensures fs == gs && rest == rest'
    decreases |fs|
  {
    hide FixedWidth, SerializeElements;
    if fs == [] {
      assert [] + rest == rest && [] + rest' == rest';
    } else {
      var a, a' := FieldStream(c, fs[1..], tags[1..]) + rest, FieldStream(c, gs[1..], tags[1..]) + rest';
      assert FieldStream(c, fs, tags) + rest == Written(c, fs[0]) + (tags[0] + a);
      assert FieldStream(c, gs, tags) + rest' == Written(c, gs[0]) + (tags[0] + a');
      match fs[0] {
        case Single(x) =>
          SameElement(c, size, x, gs[0].x, tags[0] + a, tags[0] + a');
          SplitEqual(tags[0], tags[0], a, a');
        case Many(xs) =>
          SameArray(c, size, xs, gs[0].xs, tags[0], a, a');
      }
      SameFields(c, size, fs[1..], gs[1..], tags[1..], rest, rest');
    }
  }

  function Fields<E>(i: Input<E>): (fs: seq<Field<E>>)
    ensures |fs| == 6
  {
    [Single(i.g0), Many(i.g1), Single(i.y0), Many(i.y1), Single(i.bigA0), Many(i.bigA1)]
  }

  lemma InputStreamParts<E(!new)>(c: Context<E>, i: Input<E>)
    ensures |DS_TAGS| == 7 && InputStream(c, i) == FieldStream(c, Fields(i), DS_TAGS) + (i.proofContext + DS_TAGS[6])
  {
    hide SerializeElements;
    var slices := ChallengeInput(c, i.g0, i.g1, i.y0, i.y1, i.bigA0, i.bigA1, i.proofContext);
    assert slices[..6] == AllWritten(c, Fields(i));
    StreamIsFieldStream(c, Fields(i), DS_TAGS);
  }

  /** Two different statements, commitments or contexts, of any widths and lengths, never feed
    * the hash the same bytes. */
  lemma ChallengeDeterminesInput<E(!new)>(c: Context<E>, size: nat, i: Input<E>, i': Input<E>)
    requires FixedWidth(c, size)
    requires InputStream(c, i) == InputStream(c, i')
    ensures i == i'
  {
    hide InputStream, FixedWidth, FieldStream;
    InputStreamParts(c, i);
    InputStreamParts(c, i');
    SameFields(c, size, Fields(i), Fields(i'), DS_TAGS, i.proofContext + DS_TAGS[6], i'.proofContext + DS_TAGS[6]);
    assert Fields(i)[0] == Fields(i')[0] && Fields(i)[1] == Fields(i')[1] && Fields(i)[2] == Fields(i')[2];
    assert Fields(i)[3] == Fields(i')[3] && Fields(i)[4] == Fields(i')[4] && Fields(i)[5] == Fields(i')[5];
    assert |i.proofContext + DS_TAGS[6]| == |i'.proofContext + DS_TAGS[6]|;
    SplitEqual(i.proofContext, i'.proofContext, DS_TAGS[6], DS_TAGS[6]);
  }

  /** Arrays of group elements are read back, since all elements have the same length. */
  lemma ElementsRoundTrip<E(!new)>(c: Context<E>, size: nat, xs: seq<E>)
    requires FixedWidth(c, size)
    ensures ArrayChunks(SerializeElements(c, xs), |xs|) == Ok(Serialized(c, xs))
  {
    hide FixedWidth, ArrayChunks, SerializeArray;
    FixedWidthFits(c, size, xs);
    ArrayRoundTripExactly(Serialized(c, xs));
  }

  lemma FixedWidthFits<E(!new)>(c: Context<E>, size: nat, xs: seq<E>)
    requires FixedWidth(c, size)
    ensures forall i | 0 <= i < |xs| :: Fits(Serialized(c, xs)[i]) && |Serialized(c, xs)[i]| == size
  {
    assert Power(256, LENGTH_BYTES) == 256 * Power(256, LENGTH_BYTES - 1);
    forall i | 0 <= i < |xs| ensures |Serialized(c, xs)[i]| == size {
      assert WrittenIn(c, xs[i], size);
    }
  }
}
