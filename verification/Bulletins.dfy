/** The wire format of bulletins, and the registry of their content types. */
module Bulletins {
  import opened Bytes
  import opened Modular
  import opened Results
  import opened Serialization
  import opened Strings

  const HASH_BYTES: nat := 64

  const TIMESTAMP_BYTES: nat := 8

  /** "BallotSubmission" */
  const BALLOT_SUBMISSION_BULLETIN: Text :=
    [0x42, 0x61, 0x6c, 0x6c, 0x6f, 0x74, 0x53, 0x75, 0x62, 0x6d, 0x69, 0x73, 0x73, 0x69, 0x6f, 0x6e]

  /** "BallotCast" */
  const BALLOT_CAST_BULLETIN: Text := [0x42, 0x61, 0x6c, 0x6c, 0x6f, 0x74, 0x43, 0x61, 0x73, 0x74]

  /** What every content type offers. */
  datatype ContentsTrait<!C> = ContentsTrait(typeName: C -> Text, serialize: C -> ByteString)

  datatype BulletinData<C> = BulletinData(electionHash: ByteString, contents: C, timestamp: nat,
                                          previousBbMsgHash: Text)

  datatype Bulletin<C> = Bulletin(data: BulletinData<C>, signature: Text)

  /** The deserializer of one content type. */
  type Deserializer<!C> = ByteString -> Result<C>

  // Serialization

  function SerializeText(s: Text): ByteString {
    Prefixed(s, [])
  }

  /** A string is read from the front; bytes behind it are ignored. */
  function DeserializeText(bytes: ByteString): Result<Text> {
    var parts :- SplitNext(bytes);
    if Utf8(parts.0) then Ok(parts.0) else Err(DeserializationError)
  }

  function SerializeFields<C>(m: ContentsTrait<C>, data: BulletinData<C>): ByteString {
    Prefixed(data.electionHash,
      Prefixed(m.serialize(data.contents),
        Prefixed(BigEndian(data.timestamp, TIMESTAMP_BYTES), SerializeText(data.previousBbMsgHash))))
  }

  /** The type name comes first, so that it can be read before the rest. */
  function SerializeData<C>(m: ContentsTrait<C>, data: BulletinData<C>): ByteString {
    Prefixed(m.typeName(data.contents), SerializeFields(m, data))
  }

  function SerializeBulletin<C>(m: ContentsTrait<C>, b: Bulletin<C>): ByteString {
    Prefixed(SerializeData(m, b.data), SerializeText(b.signature))
  }

  function DeserializeHash(bytes: ByteString): Result<ByteString> {
    if |bytes| == HASH_BYTES then Ok(bytes) else Err(DeserializationError)
  }

  /** The four fields behind the type name, the contents read by their own deserializer. */
  function DeserializeFields<C>(deserializer: Deserializer<C>, bytes: ByteString): Result<BulletinData<C>> {
    var a :- SplitNext(bytes);
    var electionHash :- DeserializeHash(a.0);
    var b :- SplitNext(a.1);
    var contents :- deserializer(b.0);
    var d :- SplitNext(b.1);
    var timestamp :- DeserializeUnsigned(d.0, TIMESTAMP_BYTES);
    var previousBbMsgHash :- DeserializeText(d.1);
    Ok(BulletinData(electionHash, contents, timestamp, previousBbMsgHash))
  }

  // The registry

  /** The two maps of a registry, as a value. */
  datatype RegistryState<!C> = RegistryState(builtin: map<Text, Deserializer<C>>, custom: map<Text, Deserializer<C>>) {

    /** Built-in types take precedence. */
    function Lookup(typeName: Text): Option<Deserializer<C>> {
      if typeName in builtin then Some(builtin[typeName])
      else if typeName in custom then Some(custom[typeName])
      else None
    }

    function Register(typeName: Text, deserializer: Deserializer<C>): (RegistryState<C>, Result<()>) {
      if typeName in builtin then (this, Err(ReservedName))
      else if typeName in custom then (this, Err(AlreadyRegistered))
      else (this.(custom := custom[typeName := deserializer]), Ok(()))
    }

    function DeserializeAll(typeName: Text, bytes: ByteString): Result<BulletinData<C>> {
      match Lookup(typeName)
      case None => Err(UnknownType)
      case Some(deserializer) => DeserializeFields(deserializer, bytes)
    }
  }

  /** A registry as it is constructed, with the two built-in types. */
  function NewRegistry<C>(submission: Deserializer<C>, cast: Deserializer<C>): RegistryState<C> {
    RegistryState(map[BALLOT_SUBMISSION_BULLETIN := submission, BALLOT_CAST_BULLETIN := cast], map[])
  }

  class BulletinTypeRegistry<C> {
    var builtin: map<Text, Deserializer<C>>
    var custom: map<Text, Deserializer<C>>

    function State(): RegistryState<C>
      reads this
    {
      RegistryState(builtin, custom)
    }

    constructor (submission: Deserializer<C>, cast: Deserializer<C>)
      ensures State() == NewRegistry(submission, cast)
      ensures State().Lookup(BALLOT_SUBMISSION_BULLETIN) == Some(submission)
      ensures State().Lookup(BALLOT_CAST_BULLETIN) == Some(cast)
      ensures forall name :: IsBuiltin(name) <==> name in {BALLOT_SUBMISSION_BULLETIN, BALLOT_CAST_BULLETIN}
      ensures custom == map[]
    {
      builtin, custom := map[], map[];
      new;
      RegisterBuiltin(BALLOT_SUBMISSION_BULLETIN, submission);
      RegisterBuiltin(BALLOT_CAST_BULLETIN, cast);
      assert builtin == map[BALLOT_SUBMISSION_BULLETIN := submission, BALLOT_CAST_BULLETIN := cast];
      assert |BALLOT_SUBMISSION_BULLETIN| != |BALLOT_CAST_BULLETIN|;
    }

    method RegisterBuiltin(typeName: Text, deserializer: Deserializer<C>)
      modifies this
      ensures builtin == old(builtin)[typeName := deserializer] && custom == old(custom)
    {
      builtin := builtin[typeName := deserializer];
    }

    /** Register a custom type; built-in names and names already taken are refused. */
    method Register(typeName: Text, deserializer: Deserializer<C>) returns (r: Result<()>)
      modifies this
      ensures (State(), r) == old(State()).Register(typeName, deserializer)
      ensures builtin == old(builtin)
      ensures r == Err(ReservedName) <==> IsBuiltin(typeName)
      ensures r == Err(AlreadyRegistered) <==> typeName in old(custom) && !IsBuiltin(typeName)
      ensures r == Ok(()) <==> typeName !in old(custom) && !IsBuiltin(typeName)
      ensures r == Ok(()) ==> custom == old(custom)[typeName := deserializer]
      ensures r.Err? ==> custom == old(custom)
    {
      if typeName in builtin {
        return Err(ReservedName);
      }
      if typeName in custom {
        return Err(AlreadyRegistered);
      }
      custom := custom[typeName := deserializer];
      r := Ok(());
    }

    predicate IsBuiltin(typeName: Text)
      reads this
    {
      typeName in builtin
    }

    function DeserializeAll(typeName: Text, bytes: ByteString): (r: Result<BulletinData<C>>)
      reads this
      ensures IsBuiltin(typeName) ==> r == DeserializeFields(builtin[typeName], bytes)
      ensures !IsBuiltin(typeName) && typeName in custom ==> r == DeserializeFields(custom[typeName], bytes)
      ensures !IsBuiltin(typeName) && typeName !in custom ==> r == Err(UnknownType)
    {
      State().DeserializeAll(typeName, bytes)
    }
  }

  function DataFromBytes<C>(bytes: ByteString, registry: RegistryState<C>): Result<BulletinData<C>> {
    var parts :- SplitNext(bytes);
    if !Utf8(parts.0) then
      Err(DeserializationError)
    else
      registry.DeserializeAll(parts.0, parts.1)
  }

  function FromBytes<C>(bytes: ByteString, registry: RegistryState<C>): Result<Bulletin<C>> {
    var parts :- SplitNext(bytes);
    var data :- DataFromBytes(parts.0, registry);
    var signature :- DeserializeText(parts.1);
    Ok(Bulletin(data, signature))
  }

  // Every run of the registry

  datatype Registration<!C> = Registration(typeName: Text, deserializer: Deserializer<C>)

  /** The registry after a sequence of registrations, successful or not. */
  function RegisterAll<C>(registry: RegistryState<C>, calls: seq<Registration<C>>): RegistryState<C> {
    if calls == [] then
      registry
    else
      var n := |calls| - 1;
      RegisterAll(registry, calls[..n]).Register(calls[n].typeName, calls[n].deserializer).0
  }

  /** The deserializer of the first registration of a name. */
  function FirstRegistered<C>(calls: seq<Registration<C>>, typeName: Text): Option<Deserializer<C>> {
    if calls == [] then None
    else if calls[0].typeName == typeName then Some(calls[0].deserializer)
    else FirstRegistered(calls[1..], typeName)
  }

  lemma {:induction false} FirstRegisteredSnoc<C>(calls: seq<Registration<C>>, call: Registration<C>, typeName: Text)
    ensures FirstRegistered(calls + [call], typeName)
         == match FirstRegistered(calls, typeName)
            case Some(d) => Some(d)
            case None => if call.typeName == typeName then Some(call.deserializer) else None
    decreases |calls|
  {
    if calls == [] {
      assert (calls + [call])[1..] == [];
    } else {
      assert (calls + [call])[1..] == calls[1..] + [call];
      FirstRegisteredSnoc(calls[1..], call, typeName);
    }
  }

  /** After any sequence of registrations, a built-in name is decoded as it was at the start, and
    * any other name by whoever registered it first. */
  lemma {:induction false} RegistryRuns<C>(registry: RegistryState<C>, calls: seq<Registration<C>>, typeName: Text)
    requires registry.custom == map[]
    ensures RegisterAll(registry, calls).builtin == registry.builtin
    ensures RegisterAll(registry, calls).Lookup(typeName)
         == if typeName in registry.builtin then Some(registry.builtin[typeName]) else FirstRegistered(calls, typeName)
    decreases |calls|
  {
    if calls != [] {
      hide FirstRegistered;
      var n := |calls| - 1;
      RegistryRuns(registry, calls[..n], typeName);
      FirstRegisteredSnoc(calls[..n], calls[n], typeName);
      assert calls == calls[..n] + [calls[n]];
      LookupRegistered(RegisterAll(registry, calls[..n]), calls[n], typeName);
    } else {
      assert FirstRegistered(calls, typeName) == None;
    }
  }

  /** What the n-th of a sequence of registrations returns. */
  function CallResult<C>(registry: RegistryState<C>, calls: seq<Registration<C>>, n: nat): Result<()>
    requires n < |calls|
  {
    RegisterAll(registry, calls[..n]).Register(calls[n].typeName, calls[n].deserializer).1
  }

  /** In any sequence of registrations, a call succeeds exactly when its name is not built in and no
    * earlier call has the same name, whether that one succeeded or not. */
  lemma CallResults<C>(registry: RegistryState<C>, calls: seq<Registration<C>>, n: nat)
    requires registry.custom == map[] && n < |calls|
    ensures CallResult(registry, calls, n)
         == if calls[n].typeName in registry.builtin then Err(ReservedName)
            else if exists j | 0 <= j < n :: calls[j].typeName == calls[n].typeName then Err(AlreadyRegistered)
            else Ok(())
  {
    hide RegisterAll, FirstRegistered;
    RegistryRuns(registry, calls[..n], calls[n].typeName);
    FirstRegisteredNone(calls[..n], calls[n].typeName);
    assert (exists j | 0 <= j < n :: calls[j].typeName == calls[n].typeName)
      <==> exists j | 0 <= j < n :: calls[..n][j].typeName == calls[n].typeName;
  }

  lemma {:induction false} FirstRegisteredNone<C>(calls: seq<Registration<C>>, typeName: Text)
    ensures FirstRegistered(calls, typeName).Some? <==> exists j | 0 <= j < |calls| :: calls[j].typeName == typeName
  {
    if calls != [] {
      FirstRegisteredNone(calls[1..], typeName);
      assert forall j | 1 <= j < |calls| :: calls[j] == calls[1..][j - 1];
    }
  }

  /** A bulletin of a type that was never registered is refused for that reason. */
  lemma UnknownTypeRefused<C>(registry: RegistryState<C>, calls: seq<Registration<C>>, typeName: Text,
                              fields: ByteString, signature: ByteString)
    requires registry.custom == map[] && typeName !in registry.builtin
    requires forall j | 0 <= j < |calls| :: calls[j].typeName != typeName
    requires Utf8(typeName) && Fits(typeName) && Fits(Prefixed(typeName, fields))
    ensures FromBytes(Prefixed(Prefixed(typeName, fields), signature), RegisterAll(registry, calls)) == Err(UnknownType)
  {
    hide SplitNext, Prefixed, Utf8, RegisterAll, FirstRegistered, DeserializeFields;
    SplitPrefixed(Prefixed(typeName, fields), signature);
    SplitPrefixed(typeName, fields);
    RegistryRuns(registry, calls, typeName);
    FirstRegisteredNone(calls, typeName);
  }

  /** A registration only changes the lookup of its own name, and only when that is not yet taken. */
  lemma LookupRegistered<C>(registry: RegistryState<C>, call: Registration<C>, typeName: Text)
    ensures registry.Register(call.typeName, call.deserializer).0.builtin == registry.builtin
    ensures registry.Register(call.typeName, call.deserializer).0.Lookup(typeName)
         == if registry.Lookup(typeName).None? && call.typeName == typeName then Some(call.deserializer)
            else registry.Lookup(typeName)
  {
  }

  // Round trips

  /** The fields are of their types' sizes, and all lengths fit their prefixes. */
  predicate InBounds<C>(m: ContentsTrait<C>, b: Bulletin<C>) {
    && |b.data.electionHash| == HASH_BYTES
    && b.data.timestamp < Power(256, TIMESTAMP_BYTES)
    && Utf8(m.typeName(b.data.contents)) && Utf8(b.data.previousBbMsgHash) && Utf8(b.signature)
    && Fits(m.serialize(b.data.contents))
    && Fits(m.typeName(b.data.contents)) && Fits(b.data.previousBbMsgHash) && Fits(b.signature)
    && Fits(SerializeData(m, b.data))
  }

  lemma HashFits(bytes: ByteString)
    requires |bytes| == HASH_BYTES || |bytes| == TIMESTAMP_BYTES
    ensures Fits(bytes)
  {
    PowerPositive(256, LENGTH_BYTES - 1);
    assert Power(256, LENGTH_BYTES) == 256 * Power(256, LENGTH_BYTES - 1);
  }

  lemma TextRoundTrip(s: Text, extra: ByteString)
    requires Utf8(s) && Fits(s)
    ensures DeserializeText(SerializeText(s) + extra) == Ok(s)
  {
    hide SplitNext, BigEndian, Utf8;
    SplitPrefixed(s, extra);
    assert SerializeText(s) + extra == Prefixed(s, extra);
    assert SplitNext(SerializeText(s) + extra) == Ok((s, extra));
  }

  lemma FieldsRoundTrip<C>(m: ContentsTrait<C>, b: Bulletin<C>, deserializer: Deserializer<C>)
    requires InBounds(m, b)
    ensures DeserializeFields(deserializer, SerializeFields(m, b.data))
         == match deserializer(m.serialize(b.data.contents))
            case Ok(contents) => Ok(b.data.(contents := contents))
            case Err(e) => Err(e)
  {
    hide SplitNext, BigEndian, Prefixed, DeserializeText, SerializeText, Utf8, FromBigEndian;
    var data := b.data;
    var prev := SerializeText(data.previousBbMsgHash);
    var time := BigEndian(data.timestamp, TIMESTAMP_BYTES);
    HashFits(data.electionHash);
    HashFits(time);
    SplitPrefixed(data.electionHash, Prefixed(m.serialize(data.contents), Prefixed(time, prev)));
    SplitPrefixed(m.serialize(data.contents), Prefixed(time, prev));
    SplitPrefixed(time, prev);
    UnsignedRoundTrip(data.timestamp, TIMESTAMP_BYTES);
    TextRoundTrip(data.previousBbMsgHash, []);
    assert prev + [] == prev;
  }

  /** Reading back what was written returns the bulletin exactly when the registry maps the
    * contents' type name to a deserializer that undoes their serialization. */
  lemma BulletinRoundTrip<C>(m: ContentsTrait<C>, b: Bulletin<C>, registry: RegistryState<C>)
    requires InBounds(m, b)
    ensures FromBytes(SerializeBulletin(m, b), registry) == Ok(b) <==>
            (var d := registry.Lookup(m.typeName(b.data.contents));
             d.Some? && d.value(m.serialize(b.data.contents)) == Ok(b.data.contents))
    ensures registry.Lookup(m.typeName(b.data.contents)).None? ==>
              FromBytes(SerializeBulletin(m, b), registry) == Err(UnknownType)
  {
    hide SplitNext, BigEndian, Prefixed, DeserializeText, SerializeText, Utf8, DeserializeFields, SerializeFields;
    var data, name := b.data, m.typeName(b.data.contents);
    SplitPrefixed(SerializeData(m, data), SerializeText(b.signature));
    SplitPrefixed(name, SerializeFields(m, data));
    TextRoundTrip(b.signature, []);
    assert SerializeText(b.signature) + [] == SerializeText(b.signature);
    var d := registry.Lookup(name);
    if d.Some? {
      FieldsRoundTrip(m, b, d.value);
    }
  }

  lemma PrefixedInjective(f: ByteString, r: ByteString, f': ByteString, r': ByteString)
    requires Fits(f) && Fits(f') && Prefixed(f, r) == Prefixed(f', r')
    ensures f == f' && r == r'
  {
    hide SplitNext, BigEndian, Prefixed;
    SplitPrefixed(f, r);
    SplitPrefixed(f', r');
  }

  /** Equal bytes mean equal type names, hashes, content bytes, timestamps and signatures, even
    * for contents of different types. */
  lemma SerializationInjective<C>(m: ContentsTrait<C>, b: Bulletin<C>, b': Bulletin<C>)
    requires InBounds(m, b) && InBounds(m, b') && SerializeBulletin(m, b) == SerializeBulletin(m, b')
    ensures m.typeName(b.data.contents) == m.typeName(b'.data.contents)
    ensures b.data.electionHash == b'.data.electionHash
    ensures m.serialize(b.data.contents) == m.serialize(b'.data.contents)
    ensures b.data.timestamp == b'.data.timestamp
    ensures b.data.previousBbMsgHash == b'.data.previousBbMsgHash
    ensures b.signature == b'.signature
  {
    hide SplitNext, BigEndian, Prefixed, Utf8;
    var d, d' := b.data, b'.data;
    PrefixedInjective(SerializeData(m, d), SerializeText(b.signature), SerializeData(m, d'),
                      SerializeText(b'.signature));
    PrefixedInjective(b.signature, [], b'.signature, []);
    PrefixedInjective(m.typeName(d.contents), SerializeFields(m, d), m.typeName(d'.contents), SerializeFields(m, d'));
    var time, time' := BigEndian(d.timestamp, TIMESTAMP_BYTES), BigEndian(d'.timestamp, TIMESTAMP_BYTES);
    var prev, prev' := SerializeText(d.previousBbMsgHash), SerializeText(d'.previousBbMsgHash);
    HashFits(d.electionHash);
    HashFits(d'.electionHash);
    HashFits(time);
    HashFits(time');
    PrefixedInjective(d.electionHash, Prefixed(m.serialize(d.contents), Prefixed(time, prev)),
                      d'.electionHash, Prefixed(m.serialize(d'.contents), Prefixed(time', prev')));
    PrefixedInjective(m.serialize(d.contents), Prefixed(time, prev), m.serialize(d'.contents), Prefixed(time', prev'));
    PrefixedInjective(time, prev, time', prev');
    PrefixedInjective(d.previousBbMsgHash, [], d'.previousBbMsgHash, []);
    BigEndianRoundTrip(d.timestamp, TIMESTAMP_BYTES);
    BigEndianRoundTrip(d'.timestamp, TIMESTAMP_BYTES);
  }

  /** Equality of bulletins, which compares contents by their bytes alone. */
  predicate EqualBulletins<C>(m: ContentsTrait<C>, b: Bulletin<C>, b': Bulletin<C>) {
    && b.data.electionHash == b'.data.electionHash
    && m.serialize(b.data.contents) == m.serialize(b'.data.contents)
    && b.data.timestamp == b'.data.timestamp
    && b.data.previousBbMsgHash == b'.data.previousBbMsgHash
    && b.signature == b'.signature
  }

  /** Equal bulletins are written the same exactly when their contents have the same type name. */
  lemma EqualityAndBytes<C>(m: ContentsTrait<C>, b: Bulletin<C>, b': Bulletin<C>)
    requires InBounds(m, b) && InBounds(m, b')
    ensures SerializeBulletin(m, b) == SerializeBulletin(m, b') <==>
            EqualBulletins(m, b, b') && m.typeName(b.data.contents) == m.typeName(b'.data.contents)
  {
    hide SplitNext, BigEndian, Prefixed, Utf8;
    if SerializeBulletin(m, b) == SerializeBulletin(m, b') {
      SerializationInjective(m, b, b');
    }
  }

  /** Two types that serialize to nothing, named "a" and "b". */
  const TWO_TYPES: ContentsTrait<bool> := ContentsTrait(contents => if contents then [0x61] else [0x62], contents => [])

  function EmptyBulletin(contents: bool): Bulletin<bool> {
    Bulletin(BulletinData(seq(HASH_BYTES, _ => 0), contents, 0, []), [])
  }

  /** Two bulletins that are equal but not written the same. */
  lemma EqualButWrittenDifferently()
    ensures forall contents :: InBounds(TWO_TYPES, EmptyBulletin(contents))
    ensures EqualBulletins(TWO_TYPES, EmptyBulletin(true), EmptyBulletin(false))
    ensures SerializeBulletin(TWO_TYPES, EmptyBulletin(true)) != SerializeBulletin(TWO_TYPES, EmptyBulletin(false))
  {
    hide SerializeBulletin, BigEndian, SerializeData, SerializeText;
    forall contents ensures InBounds(TWO_TYPES, EmptyBulletin(contents)) {
      EmptyInBounds(contents);
    }
    EqualityAndBytes(TWO_TYPES, EmptyBulletin(true), EmptyBulletin(false));
  }

  lemma EmptyInBounds(contents: bool)
    ensures InBounds(TWO_TYPES, EmptyBulletin(contents))
  {
    hide BigEndian, Power;
    var b := EmptyBulletin(contents);
    PowerOfLengths();
    assert |SerializeData(TWO_TYPES, b.data)| < 256;
    assert Utf8([0x61]) && Utf8([0x62]) && Utf8([]);
  }

  lemma PowerOfLengths()
    ensures Power(256, LENGTH_BYTES) > 256 && Power(256, TIMESTAMP_BYTES) > 0
  {
    PowerPositive(256, LENGTH_BYTES - 2);
    assert Power(256, LENGTH_BYTES) == 256 * (256 * Power(256, LENGTH_BYTES - 2));
  }

  // Other bytes that are accepted

  /** Bytes behind a bulletin do not change how it is read. */
  lemma TrailingBytesIgnored<C>(m: ContentsTrait<C>, b: Bulletin<C>, registry: RegistryState<C>, extra: ByteString)
    requires InBounds(m, b)
    ensures FromBytes(SerializeBulletin(m, b) + extra, registry) == FromBytes(SerializeBulletin(m, b), registry)
  {
    hide SplitNext, BigEndian, Utf8, DataFromBytes, SerializeData, DeserializeText;
    var data, text := SerializeData(m, b.data), SerializeText(b.signature);
    assert SerializeBulletin(m, b) + extra == Prefixed(data, text + extra);
    SplitPrefixed(data, text);
    SplitPrefixed(data, text + extra);
    TextRoundTrip(b.signature, extra);
    TextRoundTrip(b.signature, []);
    assert text + [] == text;
  }

  /** What the bytes of a bulletin consist of: a type name, the bytes its contents were read from,
    * and bytes that nothing reads behind the previous hash and behind the signature. */
  datatype Parts = Parts(typeName: Text, contents: ByteString, behindHash: ByteString, behindSignature: ByteString)

  function FieldsFrom<C>(parts: Parts, data: BulletinData<C>): ByteString {
    Prefixed(data.electionHash,
      Prefixed(parts.contents,
        Prefixed(BigEndian(data.timestamp, TIMESTAMP_BYTES),
          SerializeText(data.previousBbMsgHash) + parts.behindHash)))
  }

  function BytesFrom<C>(parts: Parts, b: Bulletin<C>): ByteString {
    Prefixed(Prefixed(parts.typeName, FieldsFrom(parts, b.data)), SerializeText(b.signature) + parts.behindSignature)
  }

  /** The fields are of their types' sizes, and all lengths fit their prefixes. */
  ghost predicate PartsInBounds<C(!new)>(parts: Parts, b: Bulletin<C>) {
    && |b.data.electionHash| == HASH_BYTES
    && b.data.timestamp < Power(256, TIMESTAMP_BYTES)
    && Utf8(parts.typeName) && Utf8(b.data.previousBbMsgHash) && Utf8(b.signature)
    && Fits(parts.typeName) && Fits(parts.contents) && Fits(b.data.previousBbMsgHash) && Fits(b.signature)
    && Fits(Prefixed(parts.typeName, FieldsFrom(parts, b.data)))
  }

  /** The bytes are made of these parts, and the registered deserializer reads the contents. */
  ghost predicate ReadAs<C(!new)>(bytes: ByteString, registry: RegistryState<C>, b: Bulletin<C>, parts: Parts) {
    && PartsInBounds(parts, b)
    && bytes == BytesFrom(parts, b)
    && registry.Lookup(parts.typeName).Some?
    && registry.Lookup(parts.typeName).value(parts.contents) == Ok(b.data.contents)
  }

  lemma TextRead(bytes: ByteString, s: Text) returns (extra: ByteString)
    requires DeserializeText(bytes) == Ok(s)
    ensures bytes == SerializeText(s) + extra && Utf8(s) && Fits(s)
  {
    hide SplitNext, BigEndian, Utf8;
    extra := SplitNext(bytes).value.1;
    SplitOnlyPrefixed(bytes, s, extra);
    assert Prefixed(s, extra) == SerializeText(s) + extra;
  }

  lemma FieldsRead<C(!new)>(deserializer: Deserializer<C>, bytes: ByteString, data: BulletinData<C>, typeName: Text)
    returns (parts: Parts)
    requires DeserializeFields(deserializer, bytes) == Ok(data)
    ensures parts.typeName == typeName && bytes == FieldsFrom(parts, data)
    ensures deserializer(parts.contents) == Ok(data.contents) && Fits(parts.contents)
    ensures |data.electionHash| == HASH_BYTES && data.timestamp < Power(256, TIMESTAMP_BYTES)
    ensures Utf8(data.previousBbMsgHash) && Fits(data.previousBbMsgHash)
  {
    hide SplitNext, BigEndian, Utf8, FromBigEndian, DeserializeText, SerializeText, Prefixed, Power, Fits;
    var a := SplitNext(bytes).value;
    var b := SplitNext(a.1).value;
    var d := SplitNext(b.1).value;
    SplitOnlyPrefixed(bytes, a.0, a.1);
    SplitOnlyPrefixed(a.1, b.0, b.1);
    SplitOnlyPrefixed(b.1, d.0, d.1);
    FromBigEndianRoundTrip(d.0);
    var extra := TextRead(d.1, data.previousBbMsgHash);
    parts := Parts(typeName, b.0, extra, []);
  }

  /** Bytes that are accepted, by any registry, are made of such parts. */
  lemma AcceptedParts<C(!new)>(bytes: ByteString, registry: RegistryState<C>, b: Bulletin<C>) returns (parts: Parts)
    requires FromBytes(bytes, registry) == Ok(b)
    ensures ReadAs(bytes, registry, b, parts)
  {
    hide SplitNext, BigEndian, Utf8, FieldsFrom, DeserializeFields, DeserializeText, SerializeText, Prefixed, Power,
         Fits;
    var outer := SplitNext(bytes).value;
    var inner := SplitNext(outer.0).value;
    SplitOnlyPrefixed(bytes, outer.0, outer.1);
    SplitOnlyPrefixed(outer.0, inner.0, inner.1);
    var signatureExtra := TextRead(outer.1, b.signature);
    var deserializer := registry.Lookup(inner.0).value;
    var fields := FieldsRead(deserializer, inner.1, b.data, inner.0);
    parts := fields.(behindSignature := signatureExtra);
    FieldsIgnoreSignature(fields, signatureExtra, b.data);
  }

  lemma FieldsIgnoreSignature<C>(parts: Parts, extra: ByteString, data: BulletinData<C>)
    ensures FieldsFrom(parts.(behindSignature := extra), data) == FieldsFrom(parts, data)
  {
  }

  lemma FieldsAccepted<C(!new)>(deserializer: Deserializer<C>, b: Bulletin<C>, parts: Parts)
    requires PartsInBounds(parts, b) && deserializer(parts.contents) == Ok(b.data.contents)
    ensures DeserializeFields(deserializer, FieldsFrom(parts, b.data)) == Ok(b.data)
  {
    hide SplitNext, BigEndian, Prefixed, DeserializeText, SerializeText, Utf8, FromBigEndian, Power;
    var data := b.data;
    var time, prev := BigEndian(data.timestamp, TIMESTAMP_BYTES),
         SerializeText(data.previousBbMsgHash) + parts.behindHash;
    HashFits(data.electionHash);
    HashFits(time);
    SplitPrefixed(data.electionHash, Prefixed(parts.contents, Prefixed(time, prev)));
    SplitPrefixed(parts.contents, Prefixed(time, prev));
    SplitPrefixed(time, prev);
    UnsignedRoundTrip(data.timestamp, TIMESTAMP_BYTES);
    TextRoundTrip(data.previousBbMsgHash, parts.behindHash);
  }

  /** Bytes made of such parts are accepted. */
  lemma PartsAccepted<C(!new)>(bytes: ByteString, registry: RegistryState<C>, b: Bulletin<C>, parts: Parts)
    requires ReadAs(bytes, registry, b, parts)
    ensures FromBytes(bytes, registry) == Ok(b)
  {
    hide SplitNext, BigEndian, Prefixed, DeserializeText, SerializeText, Utf8, DeserializeFields, FieldsFrom, Power;
    var fields := FieldsFrom(parts, b.data);
    var data := Prefixed(parts.typeName, fields);
    SplitPrefixed(data, SerializeText(b.signature) + parts.behindSignature);
    SplitPrefixed(parts.typeName, fields);
    TextRoundTrip(b.signature, parts.behindSignature);
    FieldsAccepted(registry.Lookup(parts.typeName).value, b, parts);
  }

  /** Exactly the bytes made of such parts are accepted. */
  lemma AcceptedBytes<C(!new)>(bytes: ByteString, registry: RegistryState<C>, b: Bulletin<C>)
    ensures FromBytes(bytes, registry) == Ok(b) <==> exists parts :: ReadAs(bytes, registry, b, parts)
  {
    hide ReadAs, FromBytes;
    if FromBytes(bytes, registry) == Ok(b) {
      var parts := AcceptedParts(bytes, registry, b);
    }
    forall parts | ReadAs(bytes, registry, b, parts) ensures FromBytes(bytes, registry) == Ok(b) {
      PartsAccepted(bytes, registry, b, parts);
    }
  }

  /** Nothing is ignored, and the contents write their own type name and the bytes they were read from. */
  predicate AsWritten<C>(m: ContentsTrait<C>, b: Bulletin<C>, parts: Parts) {
    && parts.behindHash == [] && parts.behindSignature == []
    && m.serialize(b.data.contents) == parts.contents
    && m.typeName(b.data.contents) == parts.typeName
  }

  /** Writing what was read gives back the bytes exactly when their parts are what is written. */
  lemma RewrittenExactly<C(!new)>(m: ContentsTrait<C>, bytes: ByteString, registry: RegistryState<C>, b: Bulletin<C>,
                                  parts: Parts)
    requires ReadAs(bytes, registry, b, parts) && InBounds(m, b)
    ensures SerializeBulletin(m, b) == bytes <==> AsWritten(m, b, parts)
  {
    hide SplitNext, BigEndian, Prefixed, SerializeText, Utf8, Power, Fits;
    var data, text := b.data, SerializeText(b.signature);
    assert text + [] == text;
    assert SerializeText(data.previousBbMsgHash) + [] == SerializeText(data.previousBbMsgHash);
    if SerializeBulletin(m, b) == bytes {
      PrefixedInjective(SerializeData(m, data), text,
                        Prefixed(parts.typeName, FieldsFrom(parts, data)), text + parts.behindSignature);
      NothingBehind(text, parts.behindSignature);
      PrefixedInjective(m.typeName(data.contents), SerializeFields(m, data), parts.typeName, FieldsFrom(parts, data));
      FieldsRewritten(m, data, parts);
    }
  }

  lemma NothingBehind(text: ByteString, extra: ByteString)
    requires text == text + extra
    ensures extra == []
  {
    assert |text| == |text| + |extra|;
  }

  lemma FieldsRewritten<C>(m: ContentsTrait<C>, data: BulletinData<C>, parts: Parts)
    requires |data.electionHash| == HASH_BYTES && Fits(m.serialize(data.contents)) && Fits(parts.contents)
    requires SerializeFields(m, data) == FieldsFrom(parts, data)
    ensures m.serialize(data.contents) == parts.contents && parts.behindHash == []
  {
    hide SplitNext, BigEndian, Prefixed, SerializeText, Fits;
    var time, prev := BigEndian(data.timestamp, TIMESTAMP_BYTES), SerializeText(data.previousBbMsgHash);
    HashFits(data.electionHash);
    HashFits(time);
    PrefixedInjective(data.electionHash, Prefixed(m.serialize(data.contents), Prefixed(time, prev)),
                      data.electionHash, Prefixed(parts.contents, Prefixed(time, prev + parts.behindHash)));
    PrefixedInjective(m.serialize(data.contents), Prefixed(time, prev),
                      parts.contents, Prefixed(time, prev + parts.behindHash));
    PrefixedInjective(time, prev, time, prev + parts.behindHash);
    NothingBehind(prev, parts.behindHash);
  }

  // Bytes that are refused

  ghost predicate UnknownTypeIn<C(!new)>(bytes: ByteString, registry: RegistryState<C>, typeName: Text,
                                         fields: ByteString, signature: ByteString)
  {
    && bytes == Prefixed(Prefixed(typeName, fields), signature)
    && Utf8(typeName) && registry.Lookup(typeName).None?
  }

  ghost predicate ContentsRefused<C(!new)>(registry: RegistryState<C>, typeName: Text, contents: ByteString,
                                           error: Error)
  {
    registry.Lookup(typeName).Some? && registry.Lookup(typeName).value(contents) == Err(error)
  }

  /** Bytes are refused because they are malformed, because they name a type that is not registered,
    * or because the contents are refused by their own deserializer. */
  lemma RefusedBecause<C(!new)>(bytes: ByteString, registry: RegistryState<C>)
    ensures match FromBytes(bytes, registry)
            case Ok(_) => true
            case Err(error) =>
              || error == DeserializationError
              || (error == UnknownType &&
                  exists typeName, fields, signature :: UnknownTypeIn(bytes, registry, typeName, fields, signature))
              || (exists typeName, contents :: ContentsRefused(registry, typeName, contents, error))
  {
    hide BigEndian, Utf8, FromBigEndian, Prefixed, SplitNext;
    if SplitNext(bytes).Ok? && SplitNext(SplitNext(bytes).value.0).Ok? {
      var outer := SplitNext(bytes).value;
      var inner := SplitNext(outer.0).value;
      SplitOnlyPrefixed(bytes, outer.0, outer.1);
      SplitOnlyPrefixed(outer.0, inner.0, inner.1);
      if Utf8(inner.0) && registry.Lookup(inner.0).None? {
        assert UnknownTypeIn(bytes, registry, inner.0, inner.1, outer.1);
      } else if Utf8(inner.0) {
        FieldsRefused(registry, inner.0, inner.1);
      }
    }
    OneSplitError(bytes);
    if SplitNext(bytes).Ok? {
      OneSplitError(SplitNext(bytes).value.0);
      OneSplitError(SplitNext(bytes).value.1);
    }
  }

  lemma OneSplitError(bytes: ByteString)
    ensures SplitNext(bytes).Err? ==> SplitNext(bytes).error == DeserializationError
    ensures DeserializeText(bytes).Err? ==> DeserializeText(bytes).error == DeserializationError
  {
  }

  lemma FieldsRefused<C(!new)>(registry: RegistryState<C>, typeName: Text, bytes: ByteString)
    requires registry.Lookup(typeName).Some?
    ensures match DeserializeFields(registry.Lookup(typeName).value, bytes)
            case Ok(_) => true
            case Err(error) =>
              || error == DeserializationError
              || (exists contents :: ContentsRefused(registry, typeName, contents, error))
  {
    hide BigEndian, Utf8, FromBigEndian, Prefixed, SplitNext, DeserializeText;
    OneSplitError(bytes);
    if SplitNext(bytes).Ok? {
      var a := SplitNext(bytes).value;
      OneSplitError(a.1);
      if SplitNext(a.1).Ok? {
        var b := SplitNext(a.1).value;
        OneSplitError(b.1);
        if registry.Lookup(typeName).value(b.0).Err? {
          assert ContentsRefused(registry, typeName, b.0, registry.Lookup(typeName).value(b.0).error);
        }
        if SplitNext(b.1).Ok? {
          OneSplitError(SplitNext(b.1).value.1);
        }
      }
    }
  }

  // Contents that are strings

  /** Contents that are a string, under the name of a built-in type. */
  const STRING_TYPE: ContentsTrait<Text> :=
    ContentsTrait(contents => BALLOT_CAST_BULLETIN, contents => SerializeText(contents))

  /** A new registry whose built-in types read a string. */
  function StringRegistry(): RegistryState<Text> {
    NewRegistry(bytes => DeserializeText(bytes), bytes => DeserializeText(bytes))
  }

  function StringBulletin(): Bulletin<Text> {
    Bulletin(BulletinData(seq(HASH_BYTES, _ => 0), [], 0, []), [])
  }

  function PaddedParts(): Parts {
    Parts(BALLOT_CAST_BULLETIN, SerializeText([]) + [0], [], [])
  }

  /** A string ignores bytes behind itself wherever it is read, so also within the contents: these
    * bytes are accepted, with nothing behind the bulletin's own strings, and written shorter. */
  lemma PaddedContents()
    ensures var bytes := BytesFrom(PaddedParts(), StringBulletin());
            && FromBytes(bytes, StringRegistry()) == Ok(StringBulletin())
            && InBounds(STRING_TYPE, StringBulletin())
            && SerializeBulletin(STRING_TYPE, StringBulletin()) != bytes
  {
    hide BytesFrom, SerializeBulletin, FromBytes, InBounds;
    var b, parts := StringBulletin(), PaddedParts();
    PaddedInBounds();
    TextRoundTrip([], [0]) by { EmptyText(); }
    assert BALLOT_CAST_BULLETIN != BALLOT_SUBMISSION_BULLETIN by {
      assert |BALLOT_CAST_BULLETIN| == 10;
    }
    assert ReadAs(BytesFrom(parts, b), StringRegistry(), b, parts);
    PartsAccepted(BytesFrom(parts, b), StringRegistry(), b, parts);
    RewrittenExactly(STRING_TYPE, BytesFrom(parts, b), StringRegistry(), b, parts);
    assert |SerializeText([])| != |SerializeText([]) + [0]|;
  }

  lemma EmptyText()
    ensures Utf8([]) && Fits([]) && |SerializeText([])| == LENGTH_BYTES
  {
    PowerOfLengths();
  }

  lemma PaddedInBounds()
    ensures PartsInBounds(PaddedParts(), StringBulletin()) && InBounds(STRING_TYPE, StringBulletin())
  {
    hide BigEndian, Power;
    PowerOfLengths();
    EmptyText();
    CastNameIsText();
    assert |Prefixed(PaddedParts().typeName, FieldsFrom(PaddedParts(), StringBulletin().data))| < 256;
    assert |SerializeData(STRING_TYPE, StringBulletin().data)| < 256;
  }

  lemma CastNameIsText()
    ensures Utf8(BALLOT_CAST_BULLETIN)
  {
    hide Utf8;
    Ascii(BALLOT_CAST_BULLETIN);
  }
}
