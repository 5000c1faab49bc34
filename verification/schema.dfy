/**
 * Field selection: how a record class's annotation turns into one of the
 * three field variants. The annotation is given as an abstract type
 * descriptor; the reflection that produces it is not part of this model.
 */
module Schema {
  import opened Wrappers
  import opened Serializers
  import opened Messages
  import Wire

  /** The origin of a parameterised annotation. */
  datatype Origin =
    | BuiltinList        // list[T] (and typing.List[T], whose origin is list)
    | TypingList         // typing.List, as an origin of its own
    | TypingIterable     // typing.Iterable
    | AbcIterable        // collections.abc.Iterable
    | OtherOrigin(name: string)   // any other generic, such as Tuple

  /** A type annotation, as far as field selection inspects it. */
  datatype TypeExpr =
    | Class(name: string)                        // a plain class, looked up in the serializer table
    | MessageClass(message: MessageType)         // a record class
    | EnumClass(members: set<nat>)               // an IntEnum subclass, by its members' values
    | NoneType
    | Union(args: seq<TypeExpr>)                 // typing.Union[...]; Optional[T] is Union[T, None]
    | Generic(origin: Origin, args: seq<TypeExpr>)

  /** Why a field cannot be made from an annotation. */
  datatype SchemaError =
    | NotSerializable(t: TypeExpr)   // the TypeError for a type with no serializer
    | WrongArity(count: nat)         // unpacking the arguments of a repeated annotation fails

  /** The `metadata` that `field(...)` attaches to a dataclass field, with the default it sets. */
  datatype FieldSpec = FieldSpec(number: nat, packed: bool, default: Option<Value>)

  /** `field(number, packed=True)`: the number and the packing preference; no default. */
  function DataclassField(number: nat, packed: bool := true): (r: FieldSpec)
    ensures r.number == number && r.packed == packed && r.default.None?
  {
    FieldSpec(number, packed, None)
  }

  /** `optional_field(number)`: a field whose default is None, packed by default. */
  function OptionalField(number: nat): (r: FieldSpec)
    ensures r.number == number && r.packed && r.default == Some(NoneValue)
  {
    var f := DataclassField(number);
    FieldSpec(f.number, f.packed, Some(NoneValue))
  }

  /** The set of a Union's arguments, as `set(type_.__args__)` builds it. */
  function Members(args: seq<TypeExpr>): set<TypeExpr> {
    set a | a in args
  }

  /** The first argument that is not NoneType. */
  function FirstNotNone(args: seq<TypeExpr>): (r: Option<TypeExpr>)
    ensures r.Some? ==> r.value in args && !r.value.NoneType?
    ensures r.None? <==> forall a :: a in args ==> a.NoneType?
  {
    if args == [] then None
    else if !args[0].NoneType? then Some(args[0])
    else FirstNotNone(args[1..])
  }

  /**
   * `get_optional`: a Union of exactly two distinct members, one of them
   * NoneType, is unwrapped to the other member with the flag set; every
   * other annotation comes back unchanged with the flag clear.
   */
  function GetOptional(t: TypeExpr): (r: (bool, TypeExpr))
    ensures r.0 ==> t.Union? && Members(t.args) == {NoneType, r.1} && !r.1.NoneType?
    ensures !r.0 ==> r.1 == t
    ensures t.Union? && |Members(t.args)| == 2 && NoneType in Members(t.args) ==> r.0
  {
    if t.Union? && |Members(t.args)| == 2 && NoneType in Members(t.args) then
      var inner := FirstNotNone(t.args);
      assert NoneType in t.args;
      if inner.None? then
        assert Members(t.args) <= {NoneType};
        CardinalityOfSubset(Members(t.args), {NoneType});
        assert false;
        (false, t)
      else
        PairOfMembers(Members(t.args), NoneType, inner.value);
        (true, inner.value)
    else (false, t)
  }

  /** A subset is no larger than its superset. */
  lemma {:induction false} CardinalityOfSubset(a: set<TypeExpr>, b: set<TypeExpr>)
    requires a <= b
    ensures |a| <= |b|
  {
    assert b == a + (b - a);
  }

  /** A two-member set is the pair of any two distinct members of it. */
  lemma PairOfMembers(s: set<TypeExpr>, x: TypeExpr, y: TypeExpr)
    requires |s| == 2 && x in s && y in s && x != y
    ensures s == {x, y}
  {
    if z :| z in s && z != x && z != y {
      CardinalityOfSubset({x, y, z}, s);
    }
  }

  /** The origins `get_repeated` treats as repetition. */
  predicate RepeatedOrigin(o: Origin) {
    !o.OtherOrigin?
  }

  /**
   * `get_repeated`: a list or iterable annotation is unwrapped, one level,
   * to its single argument with the flag set; unpacking fails when it does
   * not have exactly one argument. Everything else comes back unchanged.
   */
  function GetRepeated(t: TypeExpr): (r: Result<(bool, TypeExpr), SchemaError>)
    ensures r.Failure? <==> t.Generic? && RepeatedOrigin(t.origin) && |t.args| != 1
    ensures r.Success? && r.value.0 ==> t.Generic? && RepeatedOrigin(t.origin) && t.args == [r.value.1]
    ensures r.Success? && !r.value.0 ==> r.value.1 == t && !(t.Generic? && RepeatedOrigin(t.origin))
  {
    if t.Generic? && RepeatedOrigin(t.origin) then
      if |t.args| == 1 then Success((true, t.args[0])) else Failure(WrongArity(|t.args|))
    else Success((false, t))
  }

  /** The `SERIALIZERS` table: predefined classes by name. */
  const SERIALIZERS: map<string, ScalarKind> := map[
    "bool" := BoolKind,
    "bytes" := BytesKind,
    "ByteString" := BytesKind,
    "float" := FloatKind,
    "int" := SignedVarintKind,
    "str" := StringKind,
    "double" := DoubleKind,
    "fixed32" := Fixed32Kind,
    "fixed64" := Fixed64Kind,
    "sfixed32" := SFixed32Kind,
    "sfixed64" := SFixed64Kind,
    "sint32" := SInt32Kind,
    "sint64" := SInt64Kind,
    "uint32" := UInt32Kind,
    "uint64" := UInt64Kind,
    "uint" := UnsignedVarintKind
  ]

  /**
   * The serializer of an element type: a record class is framed as an
   * embedded message, an IntEnum gets the enum serializer, and any other
   * type must be a key of the table or it is not serializable.
   */
  function SerializerFor(t: TypeExpr): (r: Result<Serializer, SchemaError>)
    ensures r.Success? ==> (t.MessageClass? <==> r.value.Embedded?)
    ensures r.Success? && t.MessageClass? ==> r.value.message == t.message
    ensures r.Success? && t.EnumClass? ==> r.value == Scalar(IntEnumKind(t.members))
    ensures r.Success? && t.Class? ==> t.name in SERIALIZERS && r.value == Scalar(SERIALIZERS[t.name])
    ensures r.Failure? <==> !(t.MessageClass? || t.EnumClass? || (t.Class? && t.name in SERIALIZERS))
    ensures r.Failure? ==> r.error == NotSerializable(t)
  {
    match t
    case MessageClass(m) => Success(Embedded(m))
    case EnumClass(members) => Success(Scalar(IntEnumKind(members)))
    case Class(name) => if name in SERIALIZERS then Success(Scalar(SERIALIZERS[name])) else Failure(NotSerializable(t))
    case _ => Failure(NotSerializable(t))
  }

  /**
   * `make_field`: strips Optional, then repetition, picks the element's
   * serializer and chooses the variant: singular (keeping the optional
   * flag), packed for a repeated element off the BYTES wire type when
   * packing is asked for, unpacked otherwise.
   */
  function MakeField(number: nat, name: string, t: TypeExpr, packed: bool := true): (r: Result<(nat, Field), SchemaError>)
    ensures r.Success? ==> r.value.0 == number && r.value.1.number == number && r.value.1.name == name
    ensures r.Success? && r.value.1.PackedRepeated? ==> packed && WireTypeOf(r.value.1.kind) != Wire.Bytes
    ensures r.Success? && r.value.1.NonRepeated? ==> r.value.1.isOptional == GetOptional(t).0
  {
    var (isOptional, t1) := GetOptional(t);
    var (isRepeated, elem) :- GetRepeated(t1);
    var ser :- SerializerFor(elem);
    if !isRepeated then Success((number, NonRepeated(number, name, ser, isOptional)))
    else if WireOf(ser) != Wire.Bytes && packed then Success((number, PackedRepeated(number, name, ser.kind)))
    else Success((number, UnpackedRepeated(number, name, ser)))
  }

  // ---------------------------------------------------------------------
  // Properties of the selection
  // ---------------------------------------------------------------------

  /**
   * The variant follows the repeated flag, the element's wire type and the
   * packing preference: singular exactly when the annotation is not
   * repeated; packed exactly when it is repeated, its element is off the
   * BYTES wire type and packing is asked for; unpacked in every other
   * repeated case.
   */
  lemma Variant(number: nat, name: string, t: TypeExpr, packed: bool, elem: TypeExpr, ser: Serializer, repeated: bool)
    requires GetRepeated(GetOptional(t).1) == Success((repeated, elem)) && SerializerFor(elem) == Success(ser)
    ensures MakeField(number, name, t, packed).Success?
    ensures MakeField(number, name, t, packed).value.1.NonRepeated? <==> !repeated
    ensures MakeField(number, name, t, packed).value.1.PackedRepeated? <==>
      repeated && WireOf(ser) != Wire.Bytes && packed
    ensures MakeField(number, name, t, packed).value.1.UnpackedRepeated? <==>
      repeated && (WireOf(ser) == Wire.Bytes || !packed)
    ensures MakeField(number, name, t, packed).value.1 ==
      if !repeated then NonRepeated(number, name, ser, GetOptional(t).0)
      else if WireOf(ser) != Wire.Bytes && packed then PackedRepeated(number, name, ser.kind)
      else UnpackedRepeated(number, name, ser)
  {
  }

  /** An element type with no serializer makes `make_field` raise the TypeError naming that type. */
  lemma NoSerializerFails(number: nat, name: string, t: TypeExpr, packed: bool, elem: TypeExpr, repeated: bool)
    requires GetRepeated(GetOptional(t).1) == Success((repeated, elem)) && SerializerFor(elem).Failure?
    ensures MakeField(number, name, t, packed) == Failure(NotSerializable(elem))
  {
  }

  /** A list or iterable annotation without exactly one argument fails while unpacking it. */
  lemma WrongArityFails(number: nat, name: string, t: TypeExpr, packed: bool)
    requires GetOptional(t).1.Generic? && RepeatedOrigin(GetOptional(t).1.origin) && |GetOptional(t).1.args| != 1
    ensures MakeField(number, name, t, packed) == Failure(WrongArity(|GetOptional(t).1.args|))
  {
  }

  /** A repeated element on the BYTES wire type (bytes, str, a record) is never packed, whatever the preference. */
  lemma BytesNeverPacked(number: nat, name: string, elem: TypeExpr, packed: bool, origin: Origin)
    requires RepeatedOrigin(origin)
    requires SerializerFor(elem).Success? && WireOf(SerializerFor(elem).value) == Wire.Bytes
    ensures MakeField(number, name, Generic(origin, [elem]), packed)
         == Success((number, UnpackedRepeated(number, name, SerializerFor(elem).value)))
  {
    assert GetOptional(Generic(origin, [elem])).1 == Generic(origin, [elem]);
  }

  /**
   * A repeated numeric element is packed under the default metadata of
   * `field(number)` and unpacked under `field(number, packed=False)`, with
   * the same serializer either way.
   */
  lemma DefaultPacked(number: nat, name: string, elem: TypeExpr, k: ScalarKind)
    requires SerializerFor(elem) == Success(Scalar(k)) && WireTypeOf(k) != Wire.Bytes
    ensures MakeField(number, name, Generic(BuiltinList, [elem]), DataclassField(number).packed)
         == Success((number, PackedRepeated(number, name, k)))
    ensures MakeField(number, name, Generic(BuiltinList, [elem]), DataclassField(number, false).packed)
         == Success((number, UnpackedRepeated(number, name, Scalar(k))))
  {
    assert GetOptional(Generic(BuiltinList, [elem])).1 == Generic(BuiltinList, [elem]);
  }

  /**
   * Optional is stripped before repetition: `Optional[List[T]]` makes the
   * same field as `List[T]`, while `List[Optional[T]]` has a Union element
   * and is not serializable.
   */
  lemma OptionalBeforeRepeated(number: nat, name: string, elem: TypeExpr, packed: bool)
    requires !elem.NoneType?
    ensures MakeField(number, name, Union([Generic(BuiltinList, [elem]), NoneType]), packed)
         == MakeField(number, name, Generic(BuiltinList, [elem]), packed)
    ensures MakeField(number, name, Generic(BuiltinList, [Union([elem, NoneType])]), packed)
         == Failure(NotSerializable(Union([elem, NoneType])))
  {
    var list := Generic(BuiltinList, [elem]);
    assert Members([list, NoneType]) == {list, NoneType};
    assert GetOptional(Union([list, NoneType])) == (true, list);
    var opt := Union([elem, NoneType]);
    assert GetOptional(Generic(BuiltinList, [opt])).1 == Generic(BuiltinList, [opt]);
  }

  /** Only one level of repetition is unwrapped: a list of lists has a list element, which is not serializable. */
  lemma NestedRepetition(number: nat, name: string, elem: TypeExpr, packed: bool)
    ensures MakeField(number, name, Generic(BuiltinList, [Generic(BuiltinList, [elem])]), packed)
         == Failure(NotSerializable(Generic(BuiltinList, [elem])))
  {
    var t := Generic(BuiltinList, [Generic(BuiltinList, [elem])]);
    assert GetOptional(t).1 == t;
  }

  /** `Optional[T]` with an annotation that is not a Union unwraps to `T` and keeps the optional flag on a singular field. */
  lemma OptionalSingular(number: nat, name: string, elem: TypeExpr, ser: Serializer)
    requires !elem.NoneType? && !elem.Union? && !elem.Generic? && SerializerFor(elem) == Success(ser)
    ensures MakeField(number, name, Union([elem, NoneType])) == Success((number, NonRepeated(number, name, ser, true)))
    ensures MakeField(number, name, elem) == Success((number, NonRepeated(number, name, ser, false)))
  {
    assert Members([elem, NoneType]) == {elem, NoneType};
    assert GetOptional(Union([elem, NoneType])) == (true, elem);
  }

  /** `Tuple[int, str]` has no serializer: a TypeError. */
  lemma TupleNotSerializable()
    ensures MakeField(1, "a", Generic(OtherOrigin("Tuple"), [Class("int"), Class("str")]))
         == Failure(NotSerializable(Generic(OtherOrigin("Tuple"), [Class("int"), Class("str")])))
  {
    var t := Generic(OtherOrigin("Tuple"), [Class("int"), Class("str")]);
    assert GetOptional(t).1 == t;
  }
}
