/**
 * Concrete encodings the codec must produce and accept, for the scalar
 * serializers, the packing adapter, whole records and field selection.
 */
module Vectors {
  import opened Wrappers
  import opened Io
  import Wire
  import opened Serializers
  import opened Messages
  import opened Decoding
  import Schema
  import opened RoundTrip
  import Merging
  import Utf8

  // ---------------------------------------------------------------------
  // Scalar serializers
  // ---------------------------------------------------------------------

  /** Unsigned varints: 0, 3, 270 and 86942, and each reads back. */
  lemma UnsignedVarintVectors()
    ensures Serializers.Dump(UnsignedVarintKind, Int(0)) == [0x00]
    ensures Serializers.Dump(UnsignedVarintKind, Int(3)) == [0x03]
    ensures Serializers.Dump(UnsignedVarintKind, Int(270)) == [0x8E, 0x02]
    ensures Serializers.Dump(UnsignedVarintKind, Int(86942)) == [0x9E, 0xA7, 0x05]
    ensures Load(UnsignedVarintKind, [0x00], 0) == Success((Int(0), 1))
    ensures Load(UnsignedVarintKind, [0x03], 0) == Success((Int(3), 1))
    ensures Load(UnsignedVarintKind, [0x8E, 0x02], 0) == Success((Int(270), 2))
    ensures Load(UnsignedVarintKind, [0x9E, 0xA7, 0x05], 0) == Success((Int(86942), 3))
  {
  }

  /** The plain-int serializer is zigzag: 0, -1, 1, -2 become 0, 1, 2, 3, and read back. */
  lemma SignedVarintVectors()
    ensures Serializers.Dump(SignedVarintKind, Int(0)) == [0x00]
    ensures Serializers.Dump(SignedVarintKind, Int(-1)) == [0x01]
    ensures Serializers.Dump(SignedVarintKind, Int(1)) == [0x02]
    ensures Serializers.Dump(SignedVarintKind, Int(-2)) == [0x03]
    ensures Load(SignedVarintKind, [0x00], 0) == Success((Int(0), 1))
    ensures Load(SignedVarintKind, [0x01], 0) == Success((Int(-1), 1))
    ensures Load(SignedVarintKind, [0x02], 0) == Success((Int(1), 1))
    ensures Load(SignedVarintKind, [0x03], 0) == Success((Int(-2), 1))
  {
  }

  const TESTING: seq<byte> := [0x74, 0x65, 0x73, 0x74, 0x69, 0x6E, 0x67]

  /** Bytes are their length followed by themselves, and read back. */
  lemma BytesVectors()
    ensures Serializers.Dump(BytesKind, Bytes(TESTING)) == [0x07] + TESTING
    ensures Load(BytesKind, [0x07] + TESTING, 0) == Success((Bytes(TESTING), 8))
  {
    var d := Serializers.Dump(BytesKind, Bytes(TESTING));
    HasAtSelf(d);
    LoadDump(BytesKind, Bytes(TESTING), d, 0);
  }

  /** A string is its UTF-8 bytes framed by their count: six Cyrillic letters take twelve bytes. */
  lemma StringVectors()
    ensures Serializers.Dump(StringKind, Str("Привет"))
         == [0x0C, 0xD0, 0x9F, 0xD1, 0x80, 0xD0, 0xB8, 0xD0, 0xB2, 0xD0, 0xB5, 0xD1, 0x82]
  {
    var e := [0xD0, 0x9F, 0xD1, 0x80, 0xD0, 0xB8, 0xD0, 0xB2, 0xD0, 0xB5, 0xD1, 0x82];
    CyrillicBytes();
    assert Utf8.Encode("Привет") == e;
    assert EncodeVarint(12) == [0x0C];
  }

  /** The thirteen bytes of the string vector read back as the word. */
  lemma StringLoad()
    ensures Load(StringKind, [0x0C, 0xD0, 0x9F, 0xD1, 0x80, 0xD0, 0xB8, 0xD0, 0xB2, 0xD0, 0xB5, 0xD1, 0x82], 0)
         == Success((Str("Привет"), 13))
  {
    StringVectors();
    LoadOwnDump(StringKind, Str("Привет"));
  }

  /** A valid value reads back from its own dump, consuming all of it. */
  lemma LoadOwnDump(k: ScalarKind, v: Value)
    requires Valid(k, v)
    ensures Load(k, Serializers.Dump(k, v), 0) == Success((v, |Serializers.Dump(k, v)|))
  {
    var d := Serializers.Dump(k, v);
    HasAtSelf(d);
    LoadDump(k, v, d, 0);
  }

  /** Each letter of the word is a two-byte UTF-8 sequence. */
  lemma CyrillicLetters()
    ensures Utf8.EncodeChar('П') == [0xD0, 0x9F] && Utf8.EncodeChar('р') == [0xD1, 0x80]
    ensures Utf8.EncodeChar('и') == [0xD0, 0xB8] && Utf8.EncodeChar('в') == [0xD0, 0xB2]
    ensures Utf8.EncodeChar('е') == [0xD0, 0xB5] && Utf8.EncodeChar('т') == [0xD1, 0x82]
  {
  }

  /** The UTF-8 encoding of the word, letter by letter. */
  lemma CyrillicBytes()
    ensures Utf8.Encode("Привет") == [0xD0, 0x9F, 0xD1, 0x80, 0xD0, 0xB8, 0xD0, 0xB2, 0xD0, 0xB5, 0xD1, 0x82]
  {
    CyrillicLetters();
    assert Utf8.Encode("т") == [0xD1, 0x82];
    assert Utf8.Encode("ет") == [0xD0, 0xB5] + Utf8.Encode("т");
    assert Utf8.Encode("вет") == [0xD0, 0xB2] + Utf8.Encode("ет");
    assert Utf8.Encode("ивет") == [0xD0, 0xB8] + Utf8.Encode("вет");
    assert Utf8.Encode("ривет") == [0xD1, 0x80] + Utf8.Encode("ивет");
    assert Utf8.Encode("Привет") == [0xD0, 0x9F] + Utf8.Encode("ривет");
  }

  /** A bool is the varint 1 or 0. */
  lemma BoolVectors()
    ensures Serializers.Dump(BoolKind, Bool(true)) == [0x01] && Serializers.Dump(BoolKind, Bool(false)) == [0x00]
    ensures Load(BoolKind, [0x01], 0) == Success((Bool(true), 1))
    ensures Load(BoolKind, [0x00], 0) == Success((Bool(false), 1))
  {
  }

  /** An IntEnum member is the varint of its value; the wire-type enum has members 0, 1, 2 and 5. */
  lemma EnumVectors()
    ensures Serializers.Dump(IntEnumKind({0, 1, 2, 5}), Int(0)) == [0x00]
    ensures Serializers.Dump(IntEnumKind({0, 1, 2, 5}), Int(1)) == [0x01]
    ensures Serializers.Dump(IntEnumKind({0, 1, 2, 5}), Int(2)) == [0x02]
    ensures Serializers.Dump(IntEnumKind({0, 1, 2, 5}), Int(5)) == [0x05]
  {
  }

  /** Each wire-type byte reads back as its member; a byte that is no member's value fails. */
  lemma EnumReads()
    ensures Load(IntEnumKind({0, 1, 2, 5}), [0x00], 0) == Success((Int(0), 1))
    ensures Load(IntEnumKind({0, 1, 2, 5}), [0x01], 0) == Success((Int(1), 1))
    ensures Load(IntEnumKind({0, 1, 2, 5}), [0x02], 0) == Success((Int(2), 1))
    ensures Load(IntEnumKind({0, 1, 2, 5}), [0x05], 0) == Success((Int(5), 1))
    ensures Load(IntEnumKind({0, 1, 2, 5}), [0x03], 0) == Failure(NotEnumMember(3))
  {
  }

  /** The packing adapter frames the inner encoding with its length. */
  lemma PackingVectors()
    ensures DumpPacked(UnsignedVarintKind, Int(2)) == [0x01, 0x02]
    ensures DumpPacked(UnsignedVarintKind, Int(270)) == [0x02, 0x8E, 0x02]
    ensures LoadPacked(UnsignedVarintKind, [0x01, 0x02], 0) == Success((Int(2), 2))
    ensures LoadPacked(UnsignedVarintKind, [0x02, 0x8E, 0x02], 0) == Success((Int(270), 3))
  {
    LoadDumpPacked(UnsignedVarintKind, Int(2));
    LoadDumpPacked(UnsignedVarintKind, Int(270));
  }

  /** Values out of a serializer's range, or of the wrong type, fail validation. */
  lemma RangeVectors()
    ensures !Valid(UInt32Kind, Int(0x1_0000_0000))
    ensures !Valid(UInt64Kind, Int(-1))
    ensures !Valid(SInt32Kind, Int(0x8000_0000))
    ensures !Valid(SInt64Kind, Int(0x8000_0000_0000_0000))
    ensures !Valid(BoolKind, Int(42))
    ensures !Valid(SignedVarintKind, Str("hello")) && !Valid(BytesKind, Int(42)) && !Valid(StringKind, Int(42))
    ensures !Valid(SFixed32Kind, Str("hello")) && !Valid(Fixed32Kind, Str("hello"))
    ensures !Valid(SFixed64Kind, Str("hello")) && !Valid(Fixed64Kind, Str("hello"))
    ensures !Valid(FloatKind, Str("hello")) && !Valid(DoubleKind, Str("hello"))
    ensures Valid(UInt32Kind, Int(0xFFFF_FFFF)) && Valid(SInt32Kind, Int(-0x8000_0000))
  {
  }

  // ---------------------------------------------------------------------
  // Records
  // ---------------------------------------------------------------------

  /** `a: int32 = field(1, default=0)` */
  const TEST1: MessageType := MessageType("Test1", [NonRepeated(1, "a", Scalar(Int32Kind), false)], map["a" := Int(0)])

  /** Field 1, varint 150: tag 08 and the varint 96 01. */
  lemma SimpleRecordDump()
    ensures Dumps(TEST1, Message("Test1", map["a" := Int(150)])) == Success([0x08, 0x96, 0x01])
  {
    var v := Message("Test1", map["a" := Int(150)]);
    SingularRecord(TEST1, 1, "a", Scalar(Int32Kind), false, Int(150));
    assert Wire.EncodeTag(1, Wire.Varint) == [0x08];
    assert Serializers.Dump(Int32Kind, Int(150)) == [0x96, 0x01];
    assert ValidMessage(TEST1, v);
    assert Write(TEST1, v) == [0x08] + [0x96, 0x01] == [0x08, 0x96, 0x01];
    assert Dumps(TEST1, v) == Success(Write(TEST1, v));
  }

  /** The bytes 08 96 01 read back as a = 150. */
  lemma SimpleRecordDecode()
    ensures Decode(TEST1, [0x08, 0x96, 0x01]) == Success(Message("Test1", map["a" := Int(150)]))
  {
    SimpleRecordDump();
    OneFieldCanonical(TEST1, TEST1.fields[0]);
    DecodeWrite(TEST1, Message("Test1", map["a" := Int(150)]));
  }

  /** An empty input is the record of defaults: a = 0. */
  lemma EmptySimpleRecord()
    ensures Decode(TEST1, []) == Success(Message("Test1", map["a" := Int(0)]))
  {
  }

  /** Unknown fields of every wire type (64-bit, 32-bit, bytes, varint) are skipped, and the known one still read. */
  lemma UnknownFieldsVector()
    ensures Decode(TEST1, UNKNOWN_THEN_A) == Success(Message("Test1", map["a" := Int(150)]))
  {
    SkipWideFields();
    SkipNarrowFields();
    ReadDeclaredField();
    DecodeOf(TEST1, UNKNOWN_THEN_A, map["a" := Int(150)]);
  }

  /** After the unknown fields, the declared field 1 is read and the stream ends. */
  lemma ReadDeclaredField()
    ensures ParseFields(TEST1, UNKNOWN_THEN_A, 20, map[]) == Success(map["a" := Int(150)])
  {
    var s := UNKNOWN_THEN_A;
    UnknownStreamBytes();
    ShortTag(s, 20, 1, Wire.Varint);
    assert ReadVarint(s, 21) == Success((150, 23));
    ParseDeclared(TEST1, s, 20, map[], TEST1.fields[0], Wire.Varint, 21, Int(150), 23);
    var attrs := map["a" := Int(150)];
    assert map[]["a" := Merging.MergeField(TEST1.fields[0], NoneValue, Int(150))] == attrs;
    assert ParseFields(TEST1, s, 23, attrs) == Success(attrs);
  }

  /** A stream that parses to exactly the attributes of every declared field decodes to the record holding them. */
  lemma DecodeOf(t: MessageType, s: seq<byte>, attrs: map<string, Value>)
    requires ParseFields(t, s, 0, map[]) == Success(attrs) && Fill(t, attrs, |t.fields|) == Success(attrs)
    ensures Decode(t, s) == Success(Message(t.name, attrs))
  {
  }

  /** The one attribute of a one-field class, once read, is the whole constructed record. */
  lemma FillOne(t: MessageType, x: Value)
    requires |t.fields| == 1
    ensures Fill(t, map[t.fields[0].name := x], 1) == Success(map[t.fields[0].name := x])
  {
    var acc := map[t.fields[0].name := x];
    assert Fill(t, acc, 0) == Success(map[]);
    assert map[][t.fields[0].name := x] == acc;
  }

  /** The 64-bit and 32-bit unknown fields are stepped over without touching the attributes. */
  lemma SkipWideFields()
    ensures ParseFields(TEST1, UNKNOWN_THEN_A, 0, map[]) == ParseFields(TEST1, UNKNOWN_THEN_A, 14, map[])
  {
    var s := UNKNOWN_THEN_A;
    UnknownStreamBytes();
    ShortTag(s, 0, 4, Wire.LongLong);
    ShortTag(s, 9, 6, Wire.Long);
    ParseUnknown(TEST1, s, 0, map[], 4, Wire.LongLong, 1, 9);
    ParseUnknown(TEST1, s, 9, map[], 6, Wire.Long, 10, 14);
  }

  /** The length-delimited and varint unknown fields are stepped over the same way. */
  lemma SkipNarrowFields()
    ensures ParseFields(TEST1, UNKNOWN_THEN_A, 14, map[]) == ParseFields(TEST1, UNKNOWN_THEN_A, 20, map[])
  {
    var s := UNKNOWN_THEN_A;
    UnknownStreamBytes();
    ShortTag(s, 14, 8, Wire.Bytes);
    ShortTag(s, 17, 2, Wire.Varint);
    assert ReadVarint(s, 15) == Success((1, 16));
    assert ReadVarint(s, 18) == Success((255, 20));
    ParseUnknown(TEST1, s, 14, map[], 8, Wire.Bytes, 15, 17);
    ParseUnknown(TEST1, s, 17, map[], 2, Wire.Varint, 18, 20);
  }

  /** The bytes of the stream that the reads above look at. */
  lemma UnknownStreamBytes()
    ensures |UNKNOWN_THEN_A| == 23
    ensures UNKNOWN_THEN_A[0] == 0x21 && UNKNOWN_THEN_A[9] == 0x35 && UNKNOWN_THEN_A[14] == 0x42
    ensures UNKNOWN_THEN_A[15] == 0x01 && UNKNOWN_THEN_A[17] == 0x10 && UNKNOWN_THEN_A[18] == 0xFF
    ensures UNKNOWN_THEN_A[19] == 0x01 && UNKNOWN_THEN_A[20] == 0x08 && UNKNOWN_THEN_A[21] == 0x96
    ensures UNKNOWN_THEN_A[22] == 0x01
  {
  }

  /** A tag below 128 takes one byte. */
  lemma ShortTag(s: seq<byte>, pos: nat, number: nat, w: Wire.WireType)
    requires pos < |s| && s[pos] as int == Wire.MakeTag(number, w) < 128
    ensures Wire.ReadTag(s, pos) == Success((number, w, pos + 1))
  {
    assert ReadVarint(s, pos) == Success((Wire.MakeTag(number, w), pos + 1));
  }

  const UNKNOWN_THEN_A: seq<byte> := [
    0x21, 0x01, 0x02, 0x03, 0x04, 0x05, 0x06, 0x07, 0x08,   // field 4, 64-bit
    0x35, 0x01, 0x02, 0x03, 0x04,                           // field 6, 32-bit
    0x42, 0x01, 0x00,                                       // field 8, one byte
    0x10, 0xFF, 0x01,                                       // field 2, varint
    0x08, 0x96, 0x01]                                       // field 1, the declared one

  /** A class of one field declares one name and writes that field's bytes. */
  lemma OneField(t: MessageType, v: Value)
    requires |t.fields| == 1
    ensures FieldNames(t) == {t.fields[0].name}
    ensures ValidMessage(t, v) ==> Write(t, v) == WriteField(t.fields[0], Get(v.attrs, t.fields[0].name))
  {
    assert NamesUpTo(t.fields, 1) == NamesUpTo(t.fields, 0) + {t.fields[0].name};
    if ValidMessage(t, v) {
      assert WriteFields(t, v.attrs, 1) == WriteFields(t, v.attrs, 0) + WriteField(t.fields[0], Get(v.attrs, t.fields[0].name));
    }
  }

  /** A record of a one-field class whose singular field holds a valid value: the tag, then the payload. */
  lemma SingularRecord(t: MessageType, number: nat, name: string, ser: Serializer, isOptional: bool, x: Value)
    requires t.fields == [NonRepeated(number, name, ser, isOptional)] && !x.NoneValue? && ValidSer(ser, x)
    ensures ValidMessage(t, Message(t.name, map[name := x]))
    ensures Write(t, Message(t.name, map[name := x])) == Wire.EncodeTag(number, WireOf(ser)) + DumpSer(ser, x)
  {
    var v := Message(t.name, map[name := x]);
    OneField(t, v);
    assert Get(v.attrs, name) == x;
  }

  /** A one-field class is canonical when its default is what the writer omits. */
  lemma OneFieldCanonical(t: MessageType, f: Field)
    requires t.fields == [f] && DefaultFor(t.defaults, f) && FieldCanonical(f)
    ensures Canonical(t)
  {
  }

  /** `b: Optional[str] = field(2, default=None)` */
  const TEST2: MessageType := MessageType("Test2", [NonRepeated(2, "b", Scalar(StringKind), true)], map["b" := NoneValue])

  /** Field 2, a string: tag 12, then the framed UTF-8 bytes. */
  lemma StringRecordDump()
    ensures Dumps(TEST2, Message("Test2", map["b" := Str("testing")])) == Success([0x12, 0x07] + TESTING)
  {
    var v := Message("Test2", map["b" := Str("testing")]);
    SingularRecord(TEST2, 2, "b", Scalar(StringKind), true, Str("testing"));
    assert Wire.EncodeTag(2, Wire.Bytes) == [0x12];
    StringPayload();
    assert Write(TEST2, v) == [0x12] + ([0x07] + TESTING) == [0x12, 0x07] + TESTING;
    assert Dumps(TEST2, v) == Success(Write(TEST2, v));
  }

  /** The payload of "testing" as a string: its count, then its ASCII bytes. */
  lemma StringPayload()
    ensures Serializers.Dump(StringKind, Str("testing")) == [0x07] + TESTING
  {
    AsciiTesting();
    assert EncodeVarint(7) == [0x07];
  }

  /** "testing" is ASCII: its UTF-8 bytes are its character codes. */
  lemma AsciiTesting()
    ensures Utf8.Encode("testing") == TESTING
  {
    assert Utf8.Encode("g") == [0x67];
    assert Utf8.Encode("ng") == [0x6E] + Utf8.Encode("g");
    assert Utf8.Encode("ing") == [0x69] + Utf8.Encode("ng");
    assert Utf8.Encode("ting") == [0x74] + Utf8.Encode("ing");
    assert Utf8.Encode("sting") == [0x73] + Utf8.Encode("ting");
    assert Utf8.Encode("esting") == [0x65] + Utf8.Encode("sting");
    assert Utf8.Encode("testing") == [0x74] + Utf8.Encode("esting");
  }

  /** The string record reads back from its bytes. */
  lemma StringRecordDecode()
    ensures Decode(TEST2, [0x12, 0x07] + TESTING) == Success(Message("Test2", map["b" := Str("testing")]))
  {
    var v := Message("Test2", map["b" := Str("testing")]);
    StringRecordDump();
    OneFieldCanonical(TEST2, TEST2.fields[0]);
    DecodeWrite(TEST2, v);
  }

  /** An empty input is the record of defaults: None for the optional string. */
  lemma EmptyOptionalRecord()
    ensures Decode(TEST2, []) == Success(Message("Test2", map["b" := NoneValue]))
  {
  }

  /** `c: Test1 = field(3, default_factory=Test1)` */
  const TEST3: MessageType :=
    MessageType("Test3", [NonRepeated(3, "c", Embedded(TEST1), false)], map["c" := Message("Test1", map["a" := Int(0)])])

  /** Field 3, an embedded record: tag 1A, then the nested record's bytes framed by their count. */
  lemma EmbeddedRecordDump()
    ensures Dumps(TEST3, Message("Test3", map["c" := Message("Test1", map["a" := Int(150)])]))
         == Success([0x1A, 0x03, 0x08, 0x96, 0x01])
  {
    var inner := Message("Test1", map["a" := Int(150)]);
    SimpleRecordDump();
    var v := Message("Test3", map["c" := inner]);
    SingularRecord(TEST3, 3, "c", Embedded(TEST1), false, inner);
    assert Wire.EncodeTag(3, Wire.Bytes) == [0x1A];
    assert DumpSer(Embedded(TEST1), inner) == [0x03] + [0x08, 0x96, 0x01] == [0x03, 0x08, 0x96, 0x01];
    assert Write(TEST3, v) == [0x1A] + [0x03, 0x08, 0x96, 0x01] == [0x1A, 0x03, 0x08, 0x96, 0x01];
    assert Dumps(TEST3, v) == Success(Write(TEST3, v));
  }

  /** An empty input gives the default nested record. */
  lemma EmptyEmbeddedRecord()
    ensures Decode(TEST3, []) == Success(Message("Test3", map["c" := Message("Test1", map["a" := Int(0)])]))
  {
  }

  /** The embedded record reads back from its bytes. */
  lemma EmbeddedRecordDecode()
    ensures Decode(TEST3, [0x1A, 0x03, 0x08, 0x96, 0x01])
         == Success(Message("Test3", map["c" := Message("Test1", map["a" := Int(150)])]))
  {
    EmbeddedRecordDump();
    OneFieldCanonical(TEST1, TEST1.fields[0]);
    OneFieldCanonical(TEST3, TEST3.fields[0]);
    DecodeWrite(TEST3, Message("Test3", map["c" := Message("Test1", map["a" := Int(150)])]));
  }

  /** A record of another class in an embedded field fails validation, so nothing is written. */
  lemma EmbeddedWrongClass()
    ensures Dumps(TEST3, Message("Test3", map["c" := Message("Test2", map["b" := NoneValue])]))
         == Failure(NotAnInstance("Test1"))
  {
    var v := Message("Test3", map["c" := Message("Test2", map["b" := NoneValue])]);
    OneField(TEST3, v);
    assert ValidateFields(TEST3, v.attrs, 1) == ValidateField(TEST3.fields[0], Get(v.attrs, "c"));
  }

  // ---------------------------------------------------------------------
  // Repeated fields across occurrences
  // ---------------------------------------------------------------------

  /** `foo: List[uint] = field(1)`, packed by default. */
  const PACKED_UINTS: MessageType := MessageType("Test", [PackedRepeated(1, "foo", UnsignedVarintKind)], map[])

  /** A packed field also accepts its elements one per varint occurrence: 08 01 08 02 reads foo = [1, 2]. */
  lemma UnpackedAsPacked()
    ensures Decode(PACKED_UINTS, [0x08, 0x01, 0x08, 0x02]) == Success(Message("Test", map["foo" := List([Int(1), Int(2)])]))
  {
    var s: seq<byte> := [0x08, 0x01, 0x08, 0x02];
    var f := PACKED_UINTS.fields[0];
    ShortTag(s, 0, 1, Wire.Varint);
    ShortTag(s, 2, 1, Wire.Varint);
    assert LoadField(f, Wire.Varint, s, 1) == Success((List([Int(1)]), 2));
    assert LoadField(f, Wire.Varint, s, 3) == Success((List([Int(2)]), 4));
    ParseDeclared(PACKED_UINTS, s, 0, map[], f, Wire.Varint, 1, List([Int(1)]), 2);
    ParseDeclared(PACKED_UINTS, s, 2, map["foo" := List([Int(1)])], f, Wire.Varint, 3, List([Int(2)]), 4);
    var attrs := map["foo" := List([Int(1), Int(2)])];
    assert [Int(1)] + [Int(2)] == [Int(1), Int(2)];
    assert map["foo" := List([Int(1)])]["foo" := Merging.MergeField(f, List([Int(1)]), List([Int(2)]))] == attrs;
    assert ParseFields(PACKED_UINTS, s, 4, attrs) == Success(attrs);
    FillOne(PACKED_UINTS, List([Int(1), Int(2)]));
    DecodeOf(PACKED_UINTS, s, attrs);
  }

  /** `foo: List[uint] = field(1, default_factory=list)` */
  const INNER: MessageType := MessageType("Inner", [PackedRepeated(1, "foo", UnsignedVarintKind)], map["foo" := List([])])

  /** `inner: Inner = field(1, default_factory=Inner)` */
  const OUTER: MessageType :=
    MessageType("Outer", [NonRepeated(1, "inner", Embedded(INNER), false)], map["inner" := Message("Inner", map["foo" := List([])])])

  /** The stream of two occurrences of the embedded field: foo = [0], then foo = [150]. */
  const TWO_INNERS: seq<byte> := [0x0A, 0x02, 0x08, 0x00, 0x0A, 0x03, 0x08, 0x96, 0x01]

  /** A record of class Inner holding the given list. */
  function InnerOf(items: seq<Value>): Value
  {
    Message("Inner", map["foo" := List(items)])
  }

  /** An embedded block 08 00 reads foo = [0]. */
  lemma FirstInner()
    ensures Decode(INNER, [0x08, 0x00]) == Success(InnerOf([Int(0)]))
  {
    var s: seq<byte> := [0x08, 0x00];
    var f := INNER.fields[0];
    ShortTag(s, 0, 1, Wire.Varint);
    assert LoadField(f, Wire.Varint, s, 1) == Success((List([Int(0)]), 2));
    ParseDeclared(INNER, s, 0, map[], f, Wire.Varint, 1, List([Int(0)]), 2);
    var attrs := map["foo" := List([Int(0)])];
    assert map[]["foo" := Merging.MergeField(f, NoneValue, List([Int(0)]))] == attrs;
    FillOne(INNER, List([Int(0)]));
    DecodeOf(INNER, s, attrs);
  }

  /** An embedded block 08 96 01 reads foo = [150]. */
  lemma SecondInner()
    ensures Decode(INNER, [0x08, 0x96, 0x01]) == Success(InnerOf([Int(150)]))
  {
    var s: seq<byte> := [0x08, 0x96, 0x01];
    var f := INNER.fields[0];
    ShortTag(s, 0, 1, Wire.Varint);
    assert ReadVarint(s, 1) == Success((150, 3));
    assert LoadField(f, Wire.Varint, s, 1) == Success((List([Int(150)]), 3));
    ParseDeclared(INNER, s, 0, map[], f, Wire.Varint, 1, List([Int(150)]), 3);
    var attrs := map["foo" := List([Int(150)])];
    assert map[]["foo" := Merging.MergeField(f, NoneValue, List([Int(150)]))] == attrs;
    FillOne(INNER, List([Int(150)]));
    DecodeOf(INNER, s, attrs);
  }

  /** The first embedded block, 0A 02 08 00, loads as Inner(foo=[0]). */
  lemma FirstBlockLoads()
    ensures LoadField(OUTER.fields[0], Wire.Bytes, TWO_INNERS, 1) == Success((InnerOf([Int(0)]), 4))
  {
    var s := TWO_INNERS;
    var f := OUTER.fields[0];
    TwoInnersBytes();
    assert ReadDelimited(s, 1) == Success(([0x08, 0x00], 4));
    FirstInner();
    LoadSerEmbedded(f.ser, s, 1, [0x08, 0x00], 4, InnerOf([Int(0)]));
    LoadFieldSingle(f, Wire.Bytes, s, 1, InnerOf([Int(0)]), 4);
  }

  /** The second embedded block, 0A 03 08 96 01, loads as Inner(foo=[150]). */
  lemma SecondBlockLoads()
    ensures LoadField(OUTER.fields[0], Wire.Bytes, TWO_INNERS, 5) == Success((InnerOf([Int(150)]), 9))
  {
    var s := TWO_INNERS;
    var f := OUTER.fields[0];
    TwoInnersBytes();
    assert ReadDelimited(s, 5) == Success(([0x08, 0x96, 0x01], 9));
    SecondInner();
    LoadSerEmbedded(f.ser, s, 5, [0x08, 0x96, 0x01], 9, InnerOf([Int(150)]));
    LoadFieldSingle(f, Wire.Bytes, s, 5, InnerOf([Int(150)]), 9);
  }

  /** The first occurrence of the embedded field is read into the empty attributes. */
  lemma FirstOccurrence()
    ensures ParseFields(OUTER, TWO_INNERS, 0, map[]) == ParseFields(OUTER, TWO_INNERS, 4, map["inner" := InnerOf([Int(0)])])
  {
    var s := TWO_INNERS;
    var f := OUTER.fields[0];
    TwoInnersBytes();
    ShortTag(s, 0, 1, Wire.Bytes);
    FirstBlockLoads();
    ParseDeclared(OUTER, s, 0, map[], f, Wire.Bytes, 1, InnerOf([Int(0)]), 4);
    assert map[]["inner" := Merging.MergeField(f, NoneValue, InnerOf([Int(0)]))] == map["inner" := InnerOf([Int(0)])];
  }

  /** The second occurrence is merged into the first, as `merge_from` would: the lists concatenate. */
  lemma SecondOccurrence()
    ensures ParseFields(OUTER, TWO_INNERS, 4, map["inner" := InnerOf([Int(0)])])
         == Success(map["inner" := InnerOf([Int(0), Int(150)])])
  {
    var s := TWO_INNERS;
    var f := OUTER.fields[0];
    TwoInnersBytes();
    ShortTag(s, 4, 1, Wire.Bytes);
    SecondBlockLoads();
    var acc := map["inner" := InnerOf([Int(0)])];
    InnersMerge();
    assert acc["inner" := Merging.MergeField(f, Get(acc, "inner"), InnerOf([Int(150)]))]
        == map["inner" := InnerOf([Int(0), Int(150)])];
    ParseDeclared(OUTER, s, 4, acc, f, Wire.Bytes, 5, InnerOf([Int(150)]), 9);
  }

  /** Merging Inner(foo=[0]) with Inner(foo=[150]) gives Inner(foo=[0, 150]). */
  lemma InnersMerge()
    ensures Merging.MergeField(OUTER.fields[0], InnerOf([Int(0)]), InnerOf([Int(150)])) == InnerOf([Int(0), Int(150)])
  {
    var a := map["foo" := List([Int(0)])];
    var b := map["foo" := List([Int(150)])];
    assert Merging.MergeAttrs(INNER, 0, a, b) == a;
    assert [Int(0)] + [Int(150)] == [Int(0), Int(150)];
    assert a["foo" := List([Int(0), Int(150)])] == map["foo" := List([Int(0), Int(150)])];
  }

  /** The bytes of the two-occurrence stream. */
  lemma TwoInnersBytes()
    ensures |TWO_INNERS| == 9 && TWO_INNERS[0] == 0x0A && TWO_INNERS[4] == 0x0A
    ensures TWO_INNERS[1] == 0x02 && TWO_INNERS[2..4] == [0x08, 0x00]
    ensures TWO_INNERS[5] == 0x03 && TWO_INNERS[6..9] == [0x08, 0x96, 0x01]
  {
  }

  /** Repeated occurrences of an embedded field merge: the record read holds foo = [0, 150]. */
  lemma EmbeddedMerge()
    ensures Decode(OUTER, TWO_INNERS) == Success(Message("Outer", map["inner" := InnerOf([Int(0), Int(150)])]))
  {
    FirstOccurrence();
    SecondOccurrence();
    FillOne(OUTER, InnerOf([Int(0), Int(150)]));
    DecodeOf(OUTER, TWO_INNERS, map["inner" := InnerOf([Int(0), Int(150)])]);
  }

  // ---------------------------------------------------------------------
  // Field selection from annotations
  // ---------------------------------------------------------------------

  /** `List[bytes]` gives an unpacked field, whatever the packing preference. */
  lemma BytesListField()
    ensures Schema.MakeField(1, "a", Schema.Generic(Schema.BuiltinList, [Schema.Class("bytes")]))
         == Success((1, UnpackedRepeated(1, "a", Scalar(BytesKind))))
  {
  }

  /** Each element of an unpacked bytes list is written with its own tag: 0A 01 42, then 0A 01 43. */
  lemma BytesListWrite()
    ensures ValidField(UnpackedRepeated(1, "a", Scalar(BytesKind)), List([Bytes([0x42]), Bytes([0x43])]))
    ensures WriteField(UnpackedRepeated(1, "a", Scalar(BytesKind)), List([Bytes([0x42]), Bytes([0x43])]))
         == [0x0A, 0x01, 0x42, 0x0A, 0x01, 0x43]
  {
    var f := UnpackedRepeated(1, "a", Scalar(BytesKind));
    var items := [Bytes([0x42]), Bytes([0x43])];
    assert Wire.EncodeTag(1, Wire.Bytes) == [0x0A];
    assert DumpSer(f.ser, items[0]) == [0x01, 0x42];
    assert DumpSer(f.ser, items[1]) == [0x01, 0x43];
    assert WriteItems(f, items, 1) == [] + ([0x0A] + [0x01, 0x42]);
    assert WriteItems(f, items, 2) == [0x0A, 0x01, 0x42] + ([0x0A] + [0x01, 0x43]);
  }

  /** `Optional[bytes]` gives an optional singular field, and None writes nothing. */
  lemma OptionalBytesField()
    ensures Schema.MakeField(1, "a", Schema.Union([Schema.Class("bytes"), Schema.NoneType]))
         == Success((1, NonRepeated(1, "a", Scalar(BytesKind), true)))
    ensures WriteField(NonRepeated(1, "a", Scalar(BytesKind), true), NoneValue) == []
  {
    var t := Schema.Union([Schema.Class("bytes"), Schema.NoneType]);
    assert Schema.Members(t.args) == {Schema.Class("bytes"), Schema.NoneType};
    assert Schema.GetOptional(t) == (true, Schema.Class("bytes"));
  }

  /** The bytes of "Testing". */
  const CAPITAL_TESTING: seq<byte> := [0x54, 0x65, 0x73, 0x74, 0x69, 0x6E, 0x67]

  /** `ByteString` is the bytes serializer: 0A 07, then the bytes. */
  lemma ByteStringField()
    ensures Schema.MakeField(1, "a", Schema.Class("ByteString")) == Success((1, NonRepeated(1, "a", Scalar(BytesKind), false)))
    ensures WriteField(NonRepeated(1, "a", Scalar(BytesKind), false), Bytes(CAPITAL_TESTING)) == [0x0A, 0x07] + CAPITAL_TESTING
  {
    assert Wire.EncodeTag(1, Wire.Bytes) == [0x0A];
    assert EncodeVarint(7) == [0x07];
  }

  /** A required int32 field refuses None. */
  lemma RequiredInt32IsNotNone()
    ensures ValidateField(NonRepeated(1, "a", Scalar(Int32Kind), false), NoneValue) == Fail(RequiredFieldIsNone("a"))
  {
  }

  /** `List[uint32]` with `packed=False` gives an unpacked field; [4, 5] is written 08 04 08 05. */
  lemma UnpackedUInt32Field()
    ensures Schema.MakeField(1, "foo", Schema.Generic(Schema.BuiltinList, [Schema.Class("uint32")]), false)
         == Success((1, UnpackedRepeated(1, "foo", Scalar(UInt32Kind))))
    ensures WriteField(UnpackedRepeated(1, "foo", Scalar(UInt32Kind)), List([Int(4), Int(5)])) == [0x08, 0x04, 0x08, 0x05]
  {
    var f := UnpackedRepeated(1, "foo", Scalar(UInt32Kind));
    var items := [Int(4), Int(5)];
    assert Wire.EncodeTag(1, Wire.Varint) == [0x08];
    assert DumpSer(f.ser, items[0]) == [0x04];
    assert DumpSer(f.ser, items[1]) == [0x05];
    assert WriteItems(f, items, 1) == [] + ([0x08] + [0x04]);
    assert WriteItems(f, items, 2) == [0x08, 0x04] + ([0x08] + [0x05]);
  }

  /** A packed int32 list [1, 150, 2]: one tag 0A, the block length 4, then 01 96 01 02. */
  lemma PackedInt32Write()
    ensures WriteField(PackedRepeated(1, "a", Int32Kind), List([Int(1), Int(150), Int(2)]))
         == [0x0A, 0x04, 0x01, 0x96, 0x01, 0x02]
  {
    var items := [Int(1), Int(150), Int(2)];
    assert Serializers.Dump(Int32Kind, Int(150)) == [0x96, 0x01];
    assert DumpAll(Int32Kind, items[2..]) == [0x02];
    assert DumpAll(Int32Kind, items[1..]) == [0x96, 0x01] + [0x02];
    assert DumpAll(Int32Kind, items) == [0x01] + [0x96, 0x01, 0x02];
    assert Wire.EncodeTag(1, Wire.Bytes) == [0x0A];
    assert EncodeDelimited([0x01, 0x96, 0x01, 0x02]) == [0x04] + [0x01, 0x96, 0x01, 0x02];
  }

  /** `foo: TestEnum = field(1)` with the single member BAR = 1. */
  const ENUM_RECORD: MessageType := MessageType("Test", [NonRepeated(1, "foo", Scalar(IntEnumKind({1})), false)], map[])

  /** An IntEnum field holding BAR is written 08 01 and reads back. */
  lemma EnumRecord()
    ensures Dumps(ENUM_RECORD, Message("Test", map["foo" := Int(1)])) == Success([0x08, 0x01])
    ensures Decode(ENUM_RECORD, [0x08, 0x01]) == Success(Message("Test", map["foo" := Int(1)]))
  {
    var v := Message("Test", map["foo" := Int(1)]);
    SingularRecord(ENUM_RECORD, 1, "foo", Scalar(IntEnumKind({1})), false, Int(1));
    assert Wire.EncodeTag(1, Wire.Varint) == [0x08];
    assert Write(ENUM_RECORD, v) == [0x08] + [0x01] == [0x08, 0x01];
    assert Dumps(ENUM_RECORD, v) == Success(Write(ENUM_RECORD, v));
    OneFieldCanonical(ENUM_RECORD, ENUM_RECORD.fields[0]);
    DecodeWrite(ENUM_RECORD, v);
  }
}
