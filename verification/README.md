# pure-protobuf in Dafny

A model of the core of `pure-protobuf`, a Python implementation of the
Protocol Buffers binary encoding for dataclasses, with proofs about it.
It covers three parts:

- **The wire codec.** Unsigned base-128 varints, zigzag signed varints,
  fixed-width little-endian words, length-delimited bytes and UTF-8 strings,
  bools and IntEnum members, and the packing adapter. It also covers field
  tags `number * 8 + wire type` for the wire types VARINT = 0,
  LONG_LONG = 1, BYTES = 2 and LONG = 5.
- **The record codec.**
  - Writing is validate-then-write (`dumps` and `dump`).
  - Reading (`loads`) skips unknown fields of every wire type, concatenates
    repeated occurrences and merges occurrences of an embedded record.
    A packed field also accepts elements sent unpacked.
  - `make_field`, `get_optional` and `get_repeated` pick the field variant
    from a type annotation: singular, packed repeated or unpacked repeated.
  - Also covered: `Message.merge_from` and the `OneOf.__get__` descriptor.
- **The stand-alone `OneOf_` object.** A fixed set of part names plus one
  mutable selection slot.

The implementation modules `serializers`, `fields`, `io_` and `enums` are
not part of this model. Their behaviour is fixed here by the byte vectors
in `tests/test_serializers.py` and by the Protocol Buffers encoding
document (its sections "Base 128 Varints", "Signed Integers", "Strings",
"Embedded Messages", "Optional And Repeated Elements" and "Packed Repeated
Fields"). Those vectors are lemmas in `vectors.dfy`, except the ones listed
under "## Left out".

Files, one module each:

| file | module | what it holds |
|---|---|---|
| wrappers.dfy | Wrappers | `Option`, `Result`, `Outcome` |
| io.dfy | Io | bytes, varints, zigzag, two's complement, fixed words, length-delimited blocks |
| utf8.dfy | Utf8 | UTF-8 encoding and decoding of strings |
| wire.dfy | Wire | wire types, tags, skipping an unknown field |
| serializers.dfy | Serializers | values, the scalar serializers, the packing adapter, packed blocks |
| messages.dfy | Messages | field variants, record classes, validation, writing, `dump` into a sink |
| merging.dfy | Merging | the merge rule per field, `merge_from` on a `Record` object, `OneOf.__get__` |
| decoding.dfy | Decoding | the read loop as a function (`ParseFields`/`Decode`) and as a method (`Loads`) |
| roundtrip.dfy | RoundTrip | reading what was written gives the record back |
| schema.dfy | Schema | type annotations, `field`, `get_optional`, `get_repeated`, `SERIALIZERS`, `make_field` |
| oneof.dfy | OneOfs | the class `OneOf` (`OneOf_`) |
| vectors.dfy | Vectors | the byte vectors of the tests |

Python values are modelled as one datatype, `Serializers.Value`.
`NoneValue` stands for None, and a record is
`Message(class name, attributes)`. A record class (`MessageType`) is
given explicitly: its name, its fields in declaration order and its
defaults.

## Model

| member | source | states |
|---|---|---|
| Io.ContinuationBits | tests/test_serializers.py:86-91 | every byte of a varint except the last has the high bit set; the last is below 128 |
| Io.ReadEncodedVarint | tests/test_serializers.py:94-103 | reading the varint of n anywhere in a stream gives n and the position just after it |
| Io.EncodeVarintInjective | tests/test_serializers.py:86-91 | different numbers have different varints |
| Io.ZigZag | tests/test_serializers.py:106-111 | the zigzag image is odd exactly for negative numbers and at most twice the magnitude |
| Io.UnZigZag | tests/test_serializers.py:106-123 | every unsigned value is the zigzag image of the number it decodes to |
| Io.UnZigZagInverse | tests/test_serializers.py:114-123 | decoding the zigzag image of n gives n |
| Io.FromTwosComplement | tests/test_serializers.py:178-187 | a bit pattern below half the modulus is itself; one above is itself minus the modulus; the result lies in the signed range |
| Io.ToTwosComplement | tests/test_serializers.py:178-187 | the pattern of a signed value in range is below the modulus and reads back as that value |
| Io.EncodeFixed | tests/test_serializers.py:74-77 | a fixed-width word has exactly `width` bytes, whose little-endian value is n |
| Io.ReadFixed | tests/test_serializers.py:74-77 | reading a word fails exactly when fewer than `width` bytes remain |
| Io.ReadEncodedFixed | tests/test_serializers.py:74-77 | reading the word of n gives n and advances by the width |
| Io.ReadWholeDelimited | tests/test_serializers.py:126-134 | a length-delimited block reads back as its payload and consumes all of it |
| Io.ReadEncodedDelimited | tests/test_serializers.py:126-143 | a delimited block anywhere in a stream reads back as its payload and the position after it |
| Utf8.EncodeChar | tests/test_serializers.py:137-138 | a character takes 1 to 4 bytes, one exactly when it is ASCII |
| Utf8.DecodeEncode | tests/test_serializers.py:140-143 | decoding the UTF-8 bytes of a string gives the string |
| Utf8.EncodeDecode | tests/test_serializers.py:140-143 | bytes that decode are exactly the encoding of what they decode to |
| Wire.Code | tests/test_serializers.py:156-165 | wire type codes are 0, 1, 2 and 5, never 3 or 4 |
| Wire.FromCode | tests/test_serializers.py:156-165 | a code names the wire type whose code it is, and an unused code names none |
| Wire.MakeTag | tests/test_serializers.py:178-183 | the tag divided by 8 is the field number, and the tag modulo 8 is the wire type's code |
| Wire.ReadEncodedTag | tests/test_serializers.py:178-187 | a written tag reads back as its number and wire type |
| Wire.SkipField | tests/test_serializers.py:190-197 | a 64-bit field skips 8 bytes and a 32-bit field skips 4, or fails at the end of input |
| Wire.SkipEncoded | tests/test_serializers.py:190-197 | a varint or a delimited block is skipped exactly to its end |
| Serializers.FromVarint | tests/test_serializers.py:156-165 | a varint fails to decode only for an IntEnum, and only when it is not a member's value |
| Serializers.FromBlock | tests/test_serializers.py:137-143 | a block fails to decode only as a string, and only when it is not UTF-8 |
| Serializers.Dump | tests/test_serializers.py:86-175 | a 32-bit word takes 4 bytes, a 64-bit word 8 bytes, and any value at least one byte |
| Serializers.LoadDump | tests/test_serializers.py:94-165 | every valid value of every scalar serializer reads back from its bytes |
| Serializers.DumpPacked | tests/test_serializers.py:168-175 | the packed form is longer than the plain form (it adds the length prefix) |
| Serializers.LoadDumpPacked | tests/test_serializers.py:168-175 | the packing adapter reads back what it wrote |
| Serializers.LoadDumpAll | tests/test_dataclasses.py:17 | a packed block of valid elements reads back as exactly those elements |
| Messages.FindField | pure_protobuf/dataclasses_.py:128-132 | a field is found by number only if declared with it, and no later declaration has that number (a later entry replaces an earlier one in the dictionary); not found means no field has that number |
| Messages.FindDeclared | pure_protobuf/dataclasses_.py:129-132 | with unique numbers, each declared field is the one found by its number |
| Messages.Validate | pure_protobuf/dataclasses_.py:41-42 | validation passes exactly for a record of the class whose every field holds a valid value |
| Messages.ValidateField | tests/test_dataclasses.py:30-38 | a field passes exactly when its value is valid, and a required singular field holding None fails with RequiredFieldIsNone |
| Messages.WriteField | tests/test_dataclasses.py:15-27 | a field writes nothing exactly when it holds None (singular) or an empty list (repeated) |
| Messages.Dumps | pure_protobuf/dataclasses_.py:51-57 | succeeds exactly for a valid record, with the record's bytes; otherwise fails with the validation error |
| Messages.Sink.constructor | pure_protobuf/dataclasses_.py:55 | a fresh output stream is empty |
| Messages.Dump | pure_protobuf/dataclasses_.py:44-49 | validates first; on success appends the record's bytes field by field, on failure writes nothing |
| Merging.MergeField | tests/test_serializers.py:226-244 | None leaves the old value; a repeated field concatenates; two embedded records merge into the first one's class with the nested class's attributes merged field by field; otherwise the new value wins |
| Merging.EmbeddedFieldMerged | tests/test_serializers.py:226-244 | merging two embedded records merges each declared field of the nested class by that field's own rule |
| Merging.EmbeddedOtherKept | pure_protobuf/dataclasses_.py:58-66 | merging two embedded records keeps the first record's undeclared attributes and adds exactly the declared names |
| Merging.MergeAttrsKeys | pure_protobuf/dataclasses_.py:63-67 | merging sets exactly the declared names in addition to those already set |
| Merging.MergeAttrsUntouched | pure_protobuf/dataclasses_.py:63-67 | an undeclared attribute is left as it was |
| Merging.MergeAttrsDeclared | pure_protobuf/dataclasses_.py:63-67 | each declared attribute becomes its field's merge of the two records' original values |
| Merging.Record.constructor | pure_protobuf/dataclasses_.py:30-39 | a record holds its class and its attributes |
| Merging.Record.MergeFrom | pure_protobuf/dataclasses_.py:59-67 | the new attributes are the merge of the old ones with the other's; the other record is unchanged |
| Merging.FirstSet | pure_protobuf/dataclasses_.py:83-87 | the position of a set field with every earlier one None, or nothing exactly when all are None |
| Merging.OneOfGet | pure_protobuf/dataclasses_.py:79-87 | None exactly when every field is None; otherwise the value of the first field, in declaration order, that is not None |
| Decoding.ParseDeclared | tests/test_serializers.py:226-256 | an occurrence of a declared field is loaded and merged into that field's attribute |
| Decoding.ParseUnknown | tests/test_serializers.py:190-197 | an occurrence of an undeclared number is skipped and the attributes are unchanged |
| Decoding.LoadField | tests/test_serializers.py:247-256 | a read ends inside the input, and a repeated field always yields a list |
| Decoding.LoadFieldPacked | tests/test_serializers.py:168-175 | a delimited occurrence of a packed field yields all elements of its block |
| Decoding.LoadFieldSingle | tests/test_serializers.py:247-256 | a singular field yields its value; an unpacked occurrence, also of a packed field, yields a one-element list |
| Decoding.LoadSerEmbedded | tests/test_serializers.py:212-221 | an embedded record is decoded from the block its length prefix delimits |
| Decoding.Decode | pure_protobuf/dataclasses_.py:97-102 | a successful decode gives a record of the class holding every declared attribute |
| Decoding.Fill | tests/test_serializers.py:185 | a field takes the value read, else the class default; with neither, the first such field fails as a missing argument |
| Decoding.Loads | pure_protobuf/dataclasses_.py:90-102 | the cursor loop returns exactly the decode of its input |
| RoundTrip.DecodeWrite | tests/test_serializers.py:178-221 | for a class whose defaults are what the writer omits, decoding the bytes of any valid record gives the record back |
| RoundTrip.FillAcc | tests/test_serializers.py:185-187 | the attributes read from a record's bytes, completed by defaults, are the record's attributes |
| RoundTrip.ParseSteps | tests/test_serializers.py:178-221 | reading the bytes of the first n fields collects exactly what those fields wrote |
| Schema.DataclassField | pure_protobuf/dataclasses_.py:105-110 | `field(number)` records the number and is packed unless told otherwise |
| Schema.OptionalField | pure_protobuf/dataclasses_.py:113-117 | `optional_field(number)` defaults to None |
| Schema.FirstNotNone | pure_protobuf/dataclasses_.py:191-193 | picks a union member other than NoneType, or none exactly when all are NoneType |
| Schema.GetOptional | pure_protobuf/dataclasses_.py:182-196 | unwraps exactly a two-member union containing NoneType into its other member; anything else is returned unchanged |
| Schema.GetRepeated | pure_protobuf/dataclasses_.py:199-207 | unwraps one level of list, List, Iterable or abc.Iterable; anything else is returned unchanged |
| Schema.SerializerFor | pure_protobuf/dataclasses_.py:155-168 | record classes are embedded, IntEnums use the enum serializer, and other types use the table entry; anything else is not serializable |
| Schema.MakeField | pure_protobuf/dataclasses_.py:147-179 | the field carries the number and name; a packed field was asked to be packed and is off the BYTES wire type; a singular field keeps the optional flag |
| Schema.Variant | pure_protobuf/dataclasses_.py:170-179 | singular exactly when not repeated; packed exactly when repeated, off BYTES and packing is asked for; unpacked otherwise; and the exact field built, with the element's serializer (or its kind when packed) and the optional flag |
| Schema.NoSerializerFails | pure_protobuf/dataclasses_.py:163-168 | an element type with no serializer fails with the type error naming that type |
| Schema.WrongArityFails | pure_protobuf/dataclasses_.py:199-205 | a list or iterable annotation without exactly one argument fails while unpacking it, with that argument count |
| Schema.BytesNeverPacked | pure_protobuf/dataclasses_.py:173-179 | a repeated bytes, string or record element is unpacked whatever the preference |
| Schema.DefaultPacked | pure_protobuf/dataclasses_.py:105-110 | a list of numbers under `field(n)` is packed, and under `field(n, packed=False)` unpacked |
| Schema.OptionalBeforeRepeated | pure_protobuf/dataclasses_.py:152-153 | Optional is stripped before repetition: Optional[List[T]] makes the same field as List[T], and List[Optional[T]] is not serializable |
| Schema.NestedRepetition | pure_protobuf/dataclasses_.py:199-207 | only one level of repetition is unwrapped: a list of lists is not serializable |
| Schema.OptionalSingular | pure_protobuf/dataclasses_.py:182-196 | Optional[T] gives the same singular field as T, but flagged optional |
| Schema.TupleNotSerializable | tests/test_dataclasses.py:41-46 | Tuple[int, str] raises the type error naming Tuple[int, str] |
| OneOfs.PartNames | pure_protobuf/oneof.py:30 | the name set holds every part's name and nothing else |
| OneOfs.OneOf.constructor | pure_protobuf/oneof.py:28-32 | a fresh oneof has nothing selected, and every part name reads None |
| OneOfs.OneOf.Get | pure_protobuf/oneof.py:34-44 | fails exactly for an undeclared name; the selected part reads its value and any other part reads None |
| OneOfs.OneOf.WhichOneOf | pure_protobuf/oneof.py:52-59 | None exactly when nothing is selected, otherwise the selected name |
| OneOfs.OneOf.Set | pure_protobuf/oneof.py:46-50 | an undeclared name fails and changes nothing; otherwise the name is selected (even with None), reads back its value, and every other part reads None |
| OneOfs.OneOf.EqualIffSameReads | pure_protobuf/oneof.py:61-71 | two oneofs are equal exactly when they have the same parts, the same selected name and the same value under every name |
| Vectors.UnsignedVarintVectors | tests/test_serializers.py:86-103 | 0, 3, 270 and 86942 give 00, 03, 8E 02 and 9E A7 05, and each reads back |
| Vectors.SignedVarintVectors | tests/test_serializers.py:106-123 | 0, -1, 1 and -2 give 00, 01, 02 and 03, and each reads back |
| Vectors.BytesVectors | tests/test_serializers.py:126-134 | `testing` gives 07 followed by its bytes, and reads back |
| Vectors.StringVectors | tests/test_serializers.py:137-143 | "Привет" gives 0C followed by its twelve UTF-8 bytes |
| Vectors.StringLoad | tests/test_serializers.py:137-143 | those thirteen bytes read back as "Привет", consuming all of them |
| Vectors.BoolVectors | tests/test_serializers.py:146-153 | true and false give 01 and 00 and read back |
| Vectors.EnumVectors | tests/test_serializers.py:156-165 | the enum members 0, 1, 2 and 5 (VARINT, LONG_LONG, BYTES, LONG) give 00, 01, 02 and 05 |
| Vectors.EnumReads | tests/test_serializers.py:156-165 | 00, 01, 02 and 05 read back as those members; 03, no member's value, fails |
| Vectors.PackingVectors | tests/test_serializers.py:168-175 | 2 and 270 packed give 01 02 and 02 8E 02, and each reads back |
| Vectors.RangeVectors | tests/test_serializers.py:65-83 | uint32 2^32, uint64 -1, sint32 2^31, sint64 2^63 and bool 42 are invalid; so are 'hello' for the plain int, the four fixed-width kinds, float and double, and 42 for bytes and str |
| Vectors.SimpleRecordDump | tests/test_serializers.py:178-187 | a = 150 is written 08 96 01 |
| Vectors.SimpleRecordDecode | tests/test_serializers.py:178-187 | 08 96 01 reads a = 150 |
| Vectors.EmptySimpleRecord | tests/test_serializers.py:185 | an empty input reads the default record a = 0 |
| Vectors.UnknownFieldsVector | tests/test_serializers.py:190-197 | unknown 64-bit, 32-bit, bytes and varint fields are skipped and a = 150 is still read |
| Vectors.StringRecordDump | tests/test_serializers.py:200-209 | b = "testing" is written 12 07 followed by the bytes |
| Vectors.StringRecordDecode | tests/test_serializers.py:200-209 | those bytes read back b = "testing" |
| Vectors.EmptyOptionalRecord | tests/test_serializers.py:207 | an empty input reads b = None |
| Vectors.EmbeddedRecordDump | tests/test_serializers.py:212-221 | c = Test1(a = 150) is written 1A 03 08 96 01 |
| Vectors.EmbeddedRecordDecode | tests/test_serializers.py:212-221 | 1A 03 08 96 01 reads c = Test1(a = 150) |
| Vectors.EmptyEmbeddedRecord | tests/test_serializers.py:219 | an empty input reads the default nested record |
| Vectors.EmbeddedWrongClass | tests/test_serializers.py:222-223 | a record of another class in the embedded field fails validation |
| Vectors.EmbeddedMerge | tests/test_serializers.py:226-244 | two occurrences foo = [0] and foo = [150] of the embedded field merge into foo = [0, 150] |
| Vectors.UnpackedAsPacked | tests/test_serializers.py:247-256 | 08 01 08 02 reads the packed field foo = [1, 2] |
| Vectors.EnumRecord | tests/test_serializers.py:259-272 | an enum field holding BAR = 1 is written 08 01 and reads back |
| Vectors.PackedInt32Write | tests/test_dataclasses.py:17 | the packed int32 list [1, 150, 2] is written 0A 04 01 96 01 02 |
| Vectors.BytesListField | tests/test_dataclasses.py:18 | List[bytes] gives an unpacked field |
| Vectors.BytesListWrite | tests/test_dataclasses.py:18 | [42, 43] as unpacked bytes is written 0A 01 42 0A 01 43 |
| Vectors.OptionalBytesField | tests/test_dataclasses.py:19 | Optional[bytes] gives an optional singular field, and None writes nothing |
| Vectors.ByteStringField | tests/test_dataclasses.py:20 | ByteString gives the bytes serializer, and `Testing` is written 0A 07 followed by the bytes |
| Vectors.RequiredInt32IsNotNone | tests/test_dataclasses.py:30-38 | a required int32 field holding None fails validation |
| Vectors.UnpackedUInt32Field | tests/test_dataclasses.py:49-55 | List[uint32] with packed=False gives an unpacked field, and [4, 5] is written 08 04 08 05 |

## Left out

- Python reflection and class patching are not modelled: `message()`, `get_type_hints`, `dataclasses.fields`, `Message.register` and `type_url`. A record class is given as an explicit `MessageType` whose fields are written out directly. Some of them are the results of `make_field`. Others, such as the `int32` fields of the `Test1` fixture in `vectors.dfy`, use `Int32Kind` to stand for the `int32` annotation, which has no entry in the `SERIALIZERS` table.
- Stream I/O is not modelled. `BytesIO` in `dumps`, `load` and `loads` becomes a byte sequence with a position, or a `Sink` object that collects the written bytes.
- Floats and doubles are carried as their IEEE-754 bit patterns (`Float(bits)`). There is no floating-point arithmetic and no conversion from Python floats.
- `__hash__` and `__repr__` of `OneOf_` are not modelled. Neither are `scheme()` (it returns the `parts` constant) and the `_OneOfAttrs` names.
- The `one_of`/`part` helpers used by the oneof tests in `tests/test_serializers.py` are not defined in `pure_protobuf/dataclasses_.py`, so those oneof record tests are not modelled. Deleting a part has no `__delattr__`. Tuple-argument construction of `OneOf_` does not match its variadic `__init__`.
- `bytearray` and `memoryview` inputs are the same byte sequence as `bytes`.
- `map` fields are not modelled; the source does not implement them either.
- `pure_protobuf/types.py` is not part of this model.
  - `int32` and `int64` are modelled directly as `Int32Kind`/`Int64Kind`: a two's-complement varint over 64 bits, with range checks.
  - They are not entries of the `SERIALIZERS` table, which lists only the names that appear at `pure_protobuf/dataclasses_.py:210-226`.
- `pure_protobuf/serializers.py`, `fields.py`, `io_.py` and `enums.py` are not part of this model. Where their behaviour is not fixed by a test vector, the model makes these choices:
  - A singular field reads its value whatever wire type its tag carries.
  - An unpacked repeated field reads one element per occurrence, whatever wire type its tag carries. A packed block sent to it is not recognised: its length prefix is read as an element.
  - A stream that ends inside a value, or a tag with wire type 3, 4, 6 or 7, is a decode error.
- The plain `int` annotation maps to `signed_varint_serializer` (`pure_protobuf/dataclasses_.py:215`), which the tests at `tests/test_serializers.py:106-123` show is zigzag. The model uses zigzag.
- Io.ReadVarint: accepts any number of continuation bytes. There is no 10-byte limit.
- Serializers.FromVarint: a decoded varint is not checked against the kind's width. A `uint32` field may read a value of 2^32 or more.
- Merging.MergeMessage: `merge_from` on a nested record changes that record in place, through a reference the outer record shares. The model builds a new value instead, so that aliasing is not captured.
- Messages.FindField: the class's field table is a dictionary keyed by number, so a later declaration with a repeated number replaces an earlier one. The lookup by number keeps that rule (the last match wins). Writing, validating and merging walk the declared list, which matches the dictionary only when numbers are unique. `RoundTrip.DecodeWrite` and `Merging.Record` assume unique numbers or names.
- Schema.MakeField: the embedded-record case stands for `PackingSerializer(type_.serializer)` as the `Embedded` serializer. The record class's own serializer object is not modelled separately.
- RoundTrip.DecodeWrite is stated for canonical classes only. Those are classes with unique numbers and names, where an optional field defaults to None and a repeated field to the empty list. Otherwise a record that holds the default-omitted value reads back as the class default, which the source does the same way.
- Decoding.LoadField: a length-delimited payload that is a nested record is decoded whole. There is no limit on nesting depth.
- Merging.Record.MergeFrom: `getattr(other, name)` raises AttributeError when the other record lacks a declared attribute. The model's `Get` reads a missing attribute as None, so the old value is kept instead of failing.
- OneOfs.OneOf.Equal: the source compares the internal tuples with Python `==`, where `1 == True` and `1 == 1.0`. The model's values are structural, so `Int(1)` and `Bool(true)` differ.
- Serializers.IntEnumKind: enum member values are modelled as naturals only (`Schema.EnumClass` likewise). An IntEnum with a negative member cannot be represented, so a record holding such a member fails validation in the model. How the source writes a negative member is fixed by `pure_protobuf/serializers.py`, which is not part of this model.
