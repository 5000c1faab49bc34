/**
 * Message types, their field variants, record validation and the writer.
 *
 * A message type is the field map of a record class: its fields in
 * declaration order (the order of the field dictionary), the class name
 * and the defaults the constructor falls back on. A record is a
 * `Value.Message` holding one attribute per declared field.
 */
module Messages {
  import opened Wrappers
  import opened Io
  import Wire
  import opened Serializers

  /** What a field hands its values to: a scalar serializer, or a nested message framed by its length. */
  datatype Serializer =
    | Scalar(kind: ScalarKind)
    | Embedded(message: MessageType)

  /** The three repetition variants of a field. */
  datatype Field =
    | NonRepeated(number: nat, name: string, ser: Serializer, isOptional: bool)
    | PackedRepeated(number: nat, name: string, kind: ScalarKind)
    | UnpackedRepeated(number: nat, name: string, ser: Serializer)

  /** A record class: its name, its fields in declaration order and its constructor defaults. */
  datatype MessageType = MessageType(name: string, fields: seq<Field>, defaults: map<string, Value>)

  /** Why `validate` refuses a record. */
  datatype ValueError =
    | NotAnInstance(typeName: string)     // an embedded value is not a record of the declared class
    | RequiredFieldIsNone(field: string)  // a non-optional singular field holds None
    | InvalidValue(field: string)         // a value its serializer does not accept

  /** An attribute of a record; `getattr` of an absent name is modelled as None. */
  function Get(attrs: map<string, Value>, name: string): (x: Value)
    ensures name !in attrs ==> x == NoneValue
    ensures name in attrs ==> x == attrs[name]
  {
    if name in attrs then attrs[name] else NoneValue
  }

  function WireOf(ser: Serializer): Wire.WireType {
    match ser
    case Scalar(k) => WireTypeOf(k)
    case Embedded(_) => Wire.Bytes
  }

  /** The names of the first `n` declared fields. */
  function NamesUpTo(fields: seq<Field>, n: nat): set<string>
    requires n <= |fields|
  {
    if n == 0 then {} else NamesUpTo(fields, n - 1) + {fields[n - 1].name}
  }

  function FieldNames(t: MessageType): set<string> {
    NamesUpTo(t.fields, |t.fields|)
  }

  lemma NameUpTo(fields: seq<Field>, n: nat, i: nat)
    requires i < n <= |fields|
    ensures fields[i].name in NamesUpTo(fields, n)
  {
    if i < n - 1 {
      NameUpTo(fields, n - 1, i);
    }
  }

  /** Every name among the first `n` is the name of one of them. */
  lemma NameIndex(fields: seq<Field>, n: nat, name: string)
    requires n <= |fields| && name in NamesUpTo(fields, n)
    ensures exists j :: 0 <= j < n && fields[j].name == name
  {
    if fields[n - 1].name != name {
      NameIndex(fields, n - 1, name);
    }
  }

  /**
   * The field registered under a number: the lookup `fields[number]` in the
   * class's field dictionary. The dictionary is built in declaration order,
   * so a later declaration with the same number replaces an earlier one:
   * the last match wins.
   */
  function FindField(fields: seq<Field>, number: nat): (r: Option<Field>)
    ensures r.Some? ==> r.value in fields && r.value.number == number
    ensures r.None? ==> forall i :: 0 <= i < |fields| ==> fields[i].number != number
    ensures r.Some? ==> exists i :: 0 <= i < |fields| && fields[i] == r.value &&
                                    forall j :: i < j < |fields| ==> fields[j].number != number
  {
    if fields == [] then None
    else if fields[|fields| - 1].number == number then Some(fields[|fields| - 1])
    else FindField(fields[..|fields| - 1], number)
  }

  predicate UniqueNumbers(fields: seq<Field>) {
    forall i, j :: 0 <= i < j < |fields| ==> fields[i].number != fields[j].number
  }

  predicate UniqueNames(fields: seq<Field>) {
    forall i, j :: 0 <= i < j < |fields| ==> fields[i].name != fields[j].name
  }

  /** With unique numbers, looking a declared field's number up finds that field. */
  lemma FindDeclared(fields: seq<Field>, i: nat)
    requires UniqueNumbers(fields) && i < |fields|
    ensures FindField(fields, fields[i].number) == Some(fields[i])
  {
    if i < |fields| - 1 {
      var init := fields[..|fields| - 1];
      assert init[i] == fields[i];
      FindDeclared(init, i);
    }
  }

  // ---------------------------------------------------------------------
  // Validation
  // ---------------------------------------------------------------------

  /** A record of class `t`: the class matches and every declared attribute is present. */
  predicate IsInstance(t: MessageType, v: Value) {
    v.Message? && v.typeName == t.name && v.attrs.Keys == FieldNames(t)
  }

  /** What `validate` accepts, as a property of the whole record. */
  predicate ValidMessage(t: MessageType, v: Value)
    decreases t, 0
  {
    IsInstance(t, v)
    && forall i :: 0 <= i < |t.fields| ==> ValidField(t.fields[i], Get(v.attrs, t.fields[i].name))
  }

  predicate ValidField(f: Field, x: Value)
    decreases f, 0
  {
    match f
    case NonRepeated(_, _, ser, isOptional) => if x.NoneValue? then isOptional else ValidSer(ser, x)
    case PackedRepeated(_, _, k) => x.List? && AllValid(k, x.items)
    case UnpackedRepeated(_, _, ser) => x.List? && forall j :: 0 <= j < |x.items| ==> ValidSer(ser, x.items[j])
  }

  predicate ValidSer(ser: Serializer, x: Value)
    decreases ser, 0
  {
    match ser
    case Scalar(k) => Valid(k, x)
    case Embedded(m) => ValidMessage(m, x)
  }

  /** `validate`: the class check, then every field in declaration order; the first failure is raised. */
  function Validate(t: MessageType, v: Value): (r: Outcome<ValueError>)
    ensures r.Pass? <==> ValidMessage(t, v)
    decreases t, 2
  {
    if !IsInstance(t, v) then Fail(NotAnInstance(t.name))
    else ValidateFields(t, v.attrs, |t.fields|)
  }

  /** Validates the first `n` fields. */
  function ValidateFields(t: MessageType, attrs: map<string, Value>, n: nat): (r: Outcome<ValueError>)
    requires n <= |t.fields|
    ensures r.Pass? <==> forall i :: 0 <= i < n ==> ValidField(t.fields[i], Get(attrs, t.fields[i].name))
    decreases t, 1, n
  {
    if n == 0 then Pass
    else
      var earlier := ValidateFields(t, attrs, n - 1);
      if earlier.Fail? then earlier else ValidateField(t.fields[n - 1], Get(attrs, t.fields[n - 1].name))
  }

  function ValidateField(f: Field, x: Value): (r: Outcome<ValueError>)
    ensures r.Pass? <==> ValidField(f, x)
    ensures r.Fail? && f.NonRepeated? && x.NoneValue? ==> r.error == RequiredFieldIsNone(f.name)
    decreases f, 2
  {
    match f
    case NonRepeated(_, name, ser, isOptional) =>
      if x.NoneValue? then (if isOptional then Pass else Fail(RequiredFieldIsNone(name)))
      else ValidateSer(name, ser, x)
    case PackedRepeated(_, name, k) =>
      if x.List? && AllValid(k, x.items) then Pass else Fail(InvalidValue(name))
    case UnpackedRepeated(_, name, ser) =>
      if !x.List? then Fail(InvalidValue(name)) else ValidateItems(f, x.items, |x.items|)
  }

  /** Validates the first `n` elements of an unpacked repeated field. */
  function ValidateItems(f: Field, items: seq<Value>, n: nat): (r: Outcome<ValueError>)
    requires f.UnpackedRepeated? && n <= |items|
    ensures r.Pass? <==> forall j :: 0 <= j < n ==> ValidSer(f.ser, items[j])
    decreases f, 1, n
  {
    if n == 0 then Pass
    else
      var earlier := ValidateItems(f, items, n - 1);
      if earlier.Fail? then earlier else ValidateSer(f.name, f.ser, items[n - 1])
  }

  function ValidateSer(name: string, ser: Serializer, x: Value): (r: Outcome<ValueError>)
    ensures r.Pass? <==> ValidSer(ser, x)
    decreases ser, 2
  {
    match ser
    case Scalar(k) => if Valid(k, x) then Pass else Fail(InvalidValue(name))
    case Embedded(m) => Validate(m, x)
  }

  // ---------------------------------------------------------------------
  // Writing
  // ---------------------------------------------------------------------

  /** The bytes a serializer writes for one validated value, without the tag. */
  function DumpSer(ser: Serializer, x: Value): (r: seq<byte>)
    requires ValidSer(ser, x)
    ensures |r| >= 1
    decreases ser, 0
  {
    match ser
    case Scalar(k) => Serializers.Dump(k, x)
    case Embedded(m) => EncodeDelimited(Write(m, x))
  }

  /** The serialization of a validated record: every field in declaration order. */
  function Write(t: MessageType, v: Value): seq<byte>
    requires ValidMessage(t, v)
    decreases t, 2
  {
    WriteFields(t, v.attrs, |t.fields|)
  }

  /** What the first `n` fields write, one after another. */
  function WriteFields(t: MessageType, attrs: map<string, Value>, n: nat): seq<byte>
    requires n <= |t.fields|
    requires forall i :: 0 <= i < |t.fields| ==> ValidField(t.fields[i], Get(attrs, t.fields[i].name))
    decreases t, 1, n
  {
    if n == 0 then []
    else WriteFields(t, attrs, n - 1) + WriteField(t.fields[n - 1], Get(attrs, t.fields[n - 1].name))
  }

  /**
   * One field's contribution: nothing for None or an empty list; one tag and
   * payload for a singular value; one tag and one block for a packed list;
   * one tag and payload per element for an unpacked list.
   */
  function WriteField(f: Field, x: Value): (r: seq<byte>)
    requires ValidField(f, x)
    ensures f.NonRepeated? ==> (r == [] <==> x.NoneValue?)
    ensures !f.NonRepeated? ==> (r == [] <==> x.items == [])
    decreases f, 1
  {
    match f
    case NonRepeated(number, _, ser, _) =>
      if x.NoneValue? then [] else Wire.EncodeTag(number, WireOf(ser)) + DumpSer(ser, x)
    case PackedRepeated(number, _, k) =>
      if x.items == [] then []
      else Wire.EncodeTag(number, Wire.Bytes) + EncodeDelimited(DumpAll(k, x.items))
    case UnpackedRepeated(number, _, ser) =>
      WriteItems(f, x.items, |x.items|)
  }

  /** The first `n` elements of an unpacked field, each with its own tag. */
  function WriteItems(f: Field, items: seq<Value>, n: nat): (r: seq<byte>)
    requires f.UnpackedRepeated? && n <= |items|
    requires forall j :: 0 <= j < |items| ==> ValidSer(f.ser, items[j])
    ensures r == [] <==> n == 0
    decreases f, 0, n
  {
    if n == 0 then []
    else WriteItems(f, items, n - 1) + (Wire.EncodeTag(f.number, WireOf(f.ser)) + DumpSer(f.ser, items[n - 1]))
  }

  /** `dumps`: validate first, then write; a record that fails validation produces no bytes at all. */
  function Dumps(t: MessageType, v: Value): (r: Result<seq<byte>, ValueError>)
    ensures r.Success? <==> ValidMessage(t, v)
    ensures r.Success? ==> r.value == Write(t, v)
    ensures r.Failure? ==> Validate(t, v) == Fail(r.error)
  {
    match Validate(t, v)
    case Fail(e) => Failure(e)
    case Pass => Success(Write(t, v))
  }

  /** An output stream: the bytes written to it so far. */
  class Sink {
    var written: seq<byte>

    constructor()
      ensures written == []
    {
      written := [];
    }
  }

  /**
   * `Message.dump`: validates the record, then appends each field's bytes to
   * the sink in declaration order. On a validation error nothing is written.
   */
  method Dump(t: MessageType, v: Value, sink: Sink) returns (r: Outcome<ValueError>)
    modifies sink
    ensures r == Validate(t, v)
    ensures r.Pass? ==> sink.written == old(sink.written) + Write(t, v)
    ensures r.Fail? ==> sink.written == old(sink.written)
  {
    r := Validate(t, v);
    if r.Fail? {
      return;
    }
    var i := 0;
    while i < |t.fields|
      invariant 0 <= i <= |t.fields| && ValidMessage(t, v)
      invariant sink.written == old(sink.written) + WriteFields(t, v.attrs, i)
    {
      var f := t.fields[i];
      var bytes := WriteField(f, Get(v.attrs, f.name));
      assert WriteFields(t, v.attrs, i + 1) == WriteFields(t, v.attrs, i) + bytes;
      assert (old(sink.written) + WriteFields(t, v.attrs, i)) + bytes == old(sink.written) + WriteFields(t, v.attrs, i + 1);
      sink.written := sink.written + bytes;
      i := i + 1;
    }
  }
}
