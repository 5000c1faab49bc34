/**
 * The message decoder: the cursor loop that reads a tag, hands the payload
 * to the declared field or skips it, merges each occurrence into the
 * attributes read so far, and finally builds the record, falling back on
 * the class defaults for fields that never occurred.
 */
module Decoding {
  import opened Wrappers
  import opened Io
  import Wire
  import opened Serializers
  import opened Messages
  import opened Merging

  /**
   * Reads fields from `pos` to the end of `s`, merging each occurrence of a
   * declared field into `acc` with that field's merge rule. Unknown field
   * numbers are skipped by wire type. Input must end exactly at a tag
   * boundary.
   */
  function ParseFields(t: MessageType, s: seq<byte>, pos: nat, acc: map<string, Value>)
    : (r: Result<map<string, Value>, DecodeError>)
    requires pos <= |s|
    decreases t, 1, |s| - pos
  {
    if pos == |s| then Success(acc)
    else
      var tag :- Wire.ReadTag(s, pos);
      var found := FindField(t.fields, tag.0);
      if found.None? then
        var next :- Wire.SkipField(tag.1, s, tag.2);
        ParseFields(t, s, next, acc)
      else
        var f := found.value;
        var loaded :- LoadField(f, tag.1, s, tag.2);
        ParseFields(t, s, loaded.1, acc[f.name := MergeField(f, Get(acc, f.name), loaded.0)])
  }

  /** An occurrence of a declared field is loaded by that field and merged into its attribute. */
  lemma ParseDeclared(t: MessageType, s: seq<byte>, pos: nat, acc: map<string, Value>, f: Field,
                      w: Wire.WireType, p: nat, x: Value, next: nat)
    requires pos < |s| && FindField(t.fields, f.number) == Some(f)
    requires Wire.ReadTag(s, pos) == Success((f.number, w, p))
    requires LoadField(f, w, s, p) == Success((x, next))
    ensures ParseFields(t, s, pos, acc) == ParseFields(t, s, next, acc[f.name := MergeField(f, Get(acc, f.name), x)])
  {
  }

  /** A length-delimited occurrence of a packed field yields every element of its block. */
  lemma LoadFieldPacked(f: Field, s: seq<byte>, p: nat, block: seq<byte>, items: seq<Value>, next: nat)
    requires f.PackedRepeated?
    requires ReadDelimited(s, p) == Success((block, next)) && LoadAll(f.kind, block) == Success(items)
    ensures LoadField(f, Wire.Bytes, s, p) == Success((List(items), next))
  {
  }

  /** An occurrence of a singular or unpacked field yields the one value its serializer reads. */
  lemma LoadFieldSingle(f: Field, w: Wire.WireType, s: seq<byte>, p: nat, x: Value, next: nat)
    requires !f.PackedRepeated? && LoadSer(f.ser, s, p) == Success((x, next))
    ensures LoadField(f, w, s, p) == Success((if f.NonRepeated? then x else List([x]), next))
  {
  }

  /** An embedded record is read from the block its length prefix delimits. */
  lemma LoadSerEmbedded(ser: Serializer, s: seq<byte>, p: nat, block: seq<byte>, next: nat, x: Value)
    requires ser.Embedded? && ReadDelimited(s, p) == Success((block, next))
    requires Decode(ser.message, block) == Success(x)
    ensures LoadSer(ser, s, p) == Success((x, next))
  {
  }

  /** An occurrence of an undeclared field number is skipped and leaves the attributes as they were. */
  lemma ParseUnknown(t: MessageType, s: seq<byte>, pos: nat, acc: map<string, Value>,
                     number: nat, w: Wire.WireType, p: nat, next: nat)
    requires pos < |s| && forall i :: 0 <= i < |t.fields| ==> t.fields[i].number != number
    requires Wire.ReadTag(s, pos) == Success((number, w, p))
    requires Wire.SkipField(w, s, p) == Success(next)
    ensures ParseFields(t, s, pos, acc) == ParseFields(t, s, next, acc)
  {
  }

  /**
   * One wire occurrence of a declared field. A singular field reads one
   * value. A packed field reads a whole block when the occurrence is
   * length-delimited and a single element otherwise; an unpacked field reads
   * a single element. Repeated fields yield the list of what they read.
   */
  function LoadField(f: Field, w: Wire.WireType, s: seq<byte>, pos: nat): (r: Result<(Value, nat), DecodeError>)
    ensures r.Success? ==> pos < r.value.1 <= |s|
    ensures r.Success? && !f.NonRepeated? ==> r.value.0.List?
    decreases f, 1, 0
  {
    match f
    case NonRepeated(_, _, ser, _) => LoadSer(ser, s, pos)
    case PackedRepeated(_, _, k) =>
      if w == Wire.Bytes then
        var read :- ReadDelimited(s, pos);
        var items :- LoadAll(k, read.0);
        Success((List(items), read.1))
      else
        var one :- Load(k, s, pos);
        Success((List([one.0]), one.1))
    case UnpackedRepeated(_, _, ser) =>
      var one :- LoadSer(ser, s, pos);
      Success((List([one.0]), one.1))
  }

  /** One value of a serializer: a scalar payload, or a length-prefixed nested record. */
  function LoadSer(ser: Serializer, s: seq<byte>, pos: nat): (r: Result<(Value, nat), DecodeError>)
    ensures r.Success? ==> pos < r.value.1 <= |s|
    decreases ser, 1, 0
  {
    match ser
    case Scalar(k) => Load(k, s, pos)
    case Embedded(m) =>
      var read :- ReadDelimited(s, pos);
      var x :- Decode(m, read.0);
      Success((x, read.1))
  }

  /**
   * `loads`: parses the whole input, then constructs the record from the
   * attributes read, falling back on the class defaults.
   */
  function Decode(t: MessageType, s: seq<byte>): (r: Result<Value, DecodeError>)
    ensures r.Success? ==> IsInstance(t, r.value)
    decreases t, 2, 0
  {
    var acc :- ParseFields(t, s, 0, map[]);
    var attrs :- Fill(t, acc, |t.fields|);
    Success(Message(t.name, attrs))
  }

  /** A declared field that neither occurred nor has a default. */
  predicate Missing(t: MessageType, acc: map<string, Value>, j: nat)
    requires j < |t.fields|
  {
    t.fields[j].name !in acc && t.fields[j].name !in t.defaults
  }

  /**
   * The constructor call on the attributes read: each of the first `n`
   * declared fields takes its value read, else its default; the first field
   * with neither is a missing argument.
   */
  function Fill(t: MessageType, acc: map<string, Value>, n: nat): (r: Result<map<string, Value>, DecodeError>)
    requires n <= |t.fields|
    ensures r.Success? ==> r.value.Keys == NamesUpTo(t.fields, n)
    ensures r.Success? ==> forall k :: k in r.value ==>
      (k in acc && r.value[k] == acc[k]) || (k !in acc && k in t.defaults && r.value[k] == t.defaults[k])
    ensures r.Failure? <==> exists j :: 0 <= j < n && Missing(t, acc, j)
    ensures r.Failure? ==>
      exists j :: (0 <= j < n && Missing(t, acc, j) && r.error == MissingArgument(t.fields[j].name)
                   && forall i :: 0 <= i < j ==> !Missing(t, acc, i))
  {
    if n == 0 then Success(map[])
    else
      var earlier := Fill(t, acc, n - 1);
      var name := t.fields[n - 1].name;
      if earlier.Failure? then earlier
      else if name in acc then Success(earlier.value[name := acc[name]])
      else if name in t.defaults then Success(earlier.value[name := t.defaults[name]])
      else
        assert Missing(t, acc, n - 1);
        Failure(MissingArgument(name))
  }

  /**
   * `loads` as a cursor loop: reads a tag, dispatches the payload to the
   * declared field or skips it, and merges the value into the attribute
   * map, until the input is exhausted; then constructs the record.
   */
  method Loads(t: MessageType, s: seq<byte>) returns (r: Result<Value, DecodeError>)
    ensures r == Decode(t, s)
  {
    var pos := 0;
    var acc: map<string, Value> := map[];
    while pos < |s|
      invariant pos <= |s|
      invariant ParseFields(t, s, pos, acc) == ParseFields(t, s, 0, map[])
      decreases |s| - pos
    {
      var tag := Wire.ReadTag(s, pos);
      if tag.Failure? {
        return Failure(tag.error);
      }
      var (number, w, p) := tag.value;
      var found := FindField(t.fields, number);
      if found.None? {
        var next := Wire.SkipField(w, s, p);
        if next.Failure? {
          return Failure(next.error);
        }
        pos := next.value;
      } else {
        var f := found.value;
        var loaded := LoadField(f, w, s, p);
        if loaded.Failure? {
          return Failure(loaded.error);
        }
        acc := acc[f.name := MergeField(f, Get(acc, f.name), loaded.value.0)];
        pos := loaded.value.1;
      }
    }
    var attrs := Fill(t, acc, |t.fields|);
    if attrs.Failure? {
      return Failure(attrs.error);
    }
    r := Success(Message(t.name, attrs.value));
  }
}
