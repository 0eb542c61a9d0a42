/** The bytes hashed into the challenge of a well-formedness proof determine everything put into them. */
module PleqChallengeBytes {
  import opened Bytes
  import opened ChallengeBytes
  import opened Dlogeq
  import opened Groups
  import opened Hashing
  import opened Modular
  import opened Pleq

  import ArraySerialization

  /** The keys, the ciphertext, the commitments and the context of a proof; the generator is fixed. */
  datatype Statement<E> = Statement(y: E, z: E, uB: seq<E>, vB: seq<E>, uA: seq<E>, bigA: (seq<E>, seq<E>),
                                    proofContext: ByteString)

  /** The commitments have the ciphertext's width. */
  predicate SameWidth<E>(s: Statement<E>) {
    |s.bigA.0| == |s.bigA.1| == |s.uA|
  }

  function StatementStream<E(==,!new)>(c: Context<E>, s: Statement<E>): ByteString {
    Stream(PlEqInput(c, s.y, s.z, s.uB, s.vB, s.uA, s.bigA, s.proofContext), PLEQ_TAGS)
  }

  /** What is hashed before the commitments. */
  function StatementFields<E(!new)>(c: Context<E>, s: Statement<E>): (fs: seq<Field<E>>)
    ensures |fs| == 6
  {
    [Single(c.generator), Single(s.y), Single(s.z), Many(s.uB), Many(s.vB), Many(s.uA)]
  }

  lemma StreamSnoc(slices: seq<ByteString>, slice: ByteString, tags: seq<ByteString>)
    requires |tags| > |slices|
    ensures Stream(slices + [slice], tags) == Stream(slices, tags) + slice + tags[|slices|]
  {
    assert (slices + [slice])[..|slices|] == slices;
  }

  lemma StatementParts<E(!new)>(c: Context<E>, s: Statement<E>)
    ensures |PLEQ_TAGS| == 8
    ensures StatementStream(c, s)
         == FieldStream(c, StatementFields(c, s), PLEQ_TAGS)
            + (SerializeRows(c, s.bigA) + (PLEQ_TAGS[6] + (s.proofContext + PLEQ_TAGS[7])))
  {
    hide SerializeElements, SerializeRows, Stream, FieldStream;
    var six := AllWritten(c, StatementFields(c, s));
    var rows := SerializeRows(c, s.bigA);
    assert PlEqInput(c, s.y, s.z, s.uB, s.vB, s.uA, s.bigA, s.proofContext) == six + [rows] + [s.proofContext];
    StreamSnoc(six + [rows], s.proofContext, PLEQ_TAGS);
    StreamSnoc(six, rows, PLEQ_TAGS);
    StreamIsFieldStream(c, StatementFields(c, s), PLEQ_TAGS);
    var stream := Stream(six, PLEQ_TAGS);
    assert stream + rows + PLEQ_TAGS[6] + s.proofContext + PLEQ_TAGS[7]
        == stream + (rows + (PLEQ_TAGS[6] + (s.proofContext + PLEQ_TAGS[7])));
  }

  lemma {:induction false} ElementsLength<E(!new)>(c: Context<E>, size: nat, xs: seq<E>)
    requires FixedWidth(c, size)
    ensures |SerializeElements(c, xs)| == |xs| * (LENGTH_BYTES + size)
  {
    hide BigEndian, FixedWidth;
    if xs != [] {
      FirstElement(c, size, xs);
      ElementsLength(c, size, xs[1..]);
      ElementWritten(c, size, xs[0]);
      assert |xs| * (LENGTH_BYTES + size) == LENGTH_BYTES + size + (|xs| - 1) * (LENGTH_BYTES + size);
    }
  }

  lemma ElementWritten<E(!new)>(c: Context<E>, size: nat, x: E)
    requires FixedWidth(c, size)
    ensures |c.ser(x)| == size
  {
    assert WrittenIn(c, x, size);
  }

  lemma SameElements<E(!new)>(c: Context<E>, size: nat, xs: seq<E>, ys: seq<E>)
    requires FixedWidth(c, size) && SerializeElements(c, xs) == SerializeElements(c, ys)
    ensures xs == ys
  {
    hide FixedWidth, SerializeElements;
    SameArray(c, size, xs, ys, [1], [], []);
  }

  lemma RowsSplit<E(!new)>(c: Context<E>, rows: (seq<E>, seq<E>))
    ensures var a, b := SerializeElements(c, rows.0), SerializeElements(c, rows.1);
            SerializeRows(c, rows) == BigEndian(|a|, LENGTH_BYTES) + (a + (BigEndian(|b|, LENGTH_BYTES) + b))
  {
    hide BigEndian, SerializeElements;
    var a, b := SerializeElements(c, rows.0), SerializeElements(c, rows.1);
    var none: seq<ByteString> := [];
    assert [a, b][1..] == [b] && [b][1..] == none;
    assert ArraySerialization.SerializeArray(none) == [];
    var second := BigEndian(|b|, LENGTH_BYTES) + b;
    assert ArraySerialization.SerializeArray([b]) == second + [] == second;
    assert SerializeRows(c, rows) == BigEndian(|a|, LENGTH_BYTES) + a + second;
  }

  /** The nested array of commitments can be read back when its width is known. */
  lemma SameRows<E(!new)>(c: Context<E>, size: nat, rows: (seq<E>, seq<E>), rows': (seq<E>, seq<E>), rest: ByteString,
                          rest': ByteString)
    requires FixedWidth(c, size) && |rows.0| == |rows'.0| == |rows.1| == |rows'.1|
    requires SerializeRows(c, rows) + rest == SerializeRows(c, rows') + rest'
    ensures rows == rows' && rest == rest'
  {
    hide FixedWidth, SerializeElements, SerializeRows, BigEndian;
    var a, b := SerializeElements(c, rows.0), SerializeElements(c, rows.1);
    var a', b' := SerializeElements(c, rows'.0), SerializeElements(c, rows'.1);
    RowsSplit(c, rows);
    RowsSplit(c, rows');
    ElementsLength(c, size, rows.0);
    ElementsLength(c, size, rows'.0);
    ElementsLength(c, size, rows.1);
    ElementsLength(c, size, rows'.1);
    SplitEqual(SerializeRows(c, rows), SerializeRows(c, rows'), rest, rest');
    var prefix := BigEndian(|a|, LENGTH_BYTES);
    SplitEqual(prefix, prefix, a + (prefix + b), a' + (prefix + b'));
    SplitEqual(a, a', prefix + b, prefix + b');
    SplitEqual(prefix, prefix, b, b');
    SameElements(c, size, rows.0, rows'.0);
    SameElements(c, size, rows.1, rows'.1);
  }

  /** Two different keys, ciphertexts, commitments or contexts, of any widths and lengths, never
    * feed the hash the same bytes. */
  lemma StatementDetermined<E(!new)>(c: Context<E>, size: nat, s: Statement<E>, s': Statement<E>)
    requires FixedWidth(c, size) && SameWidth(s) && SameWidth(s')
    requires StatementStream(c, s) == StatementStream(c, s')
    ensures s == s'
  {
    hide StatementStream, FixedWidth, FieldStream, SerializeRows;
    StatementParts(c, s);
    StatementParts(c, s');
    var end, end' := s.proofContext + PLEQ_TAGS[7], s'.proofContext + PLEQ_TAGS[7];
    var fs, fs' := StatementFields(c, s), StatementFields(c, s');
    SameFields(c, size, fs, fs', PLEQ_TAGS, SerializeRows(c, s.bigA) + (PLEQ_TAGS[6] + end),
               SerializeRows(c, s'.bigA) + (PLEQ_TAGS[6] + end'));
    assert fs[1] == fs'[1] && fs[2] == fs'[2] && fs[3] == fs'[3] && fs[4] == fs'[4] && fs[5] == fs'[5];
    SameRows(c, size, s.bigA, s'.bigA, PLEQ_TAGS[6] + end, PLEQ_TAGS[6] + end');
    SplitEqual(PLEQ_TAGS[6], PLEQ_TAGS[6], end, end');
    assert |end| == |end'|;
    SplitEqual(s.proofContext, s'.proofContext, PLEQ_TAGS[7], PLEQ_TAGS[7]);
  }
}
