/**
 * Decoding what the writer produced gives back the record, provided the
 * class defaults stand for what the writer leaves out (None for an optional
 * field, the empty list for a repeated one).
 *
 * The proof follows the writer field by field: the bytes of each declared
 * field carry the decoder from the attributes collected so far (`Acc`) to
 * those with that field added, and the constructor call at the end then
 * rebuilds the record from them and the defaults.
 */
module RoundTrip {
  import opened Wrappers
  import opened Io
  import Wire
  import opened Serializers
  import opened Messages
  import opened Merging
  import opened Decoding

  /** Whether the writer emits anything for a field's value. */
  predicate Written(f: Field, x: Value) {
    if f.NonRepeated? then !x.NoneValue? else x.List? && x.items != []
  }

  /** The default of a field is what the writer omits: None when optional, the empty list when repeated. */
  predicate DefaultFor(defaults: map<string, Value>, f: Field) {
    match f
    case NonRepeated(_, name, _, isOptional) => isOptional ==> name in defaults && defaults[name] == NoneValue
    case _ => f.name in defaults && defaults[f.name] == List([])
  }

  /**
   * A class whose field numbers and names are unique, whose defaults agree
   * with the writer's omissions, and whose embedded classes are such too.
   */
  predicate Canonical(t: MessageType)
    decreases t, 1
  {
    UniqueNumbers(t.fields) && UniqueNames(t.fields)
    && forall i :: 0 <= i < |t.fields| ==> DefaultFor(t.defaults, t.fields[i]) && FieldCanonical(t.fields[i])
  }

  predicate FieldCanonical(f: Field)
    decreases f, 0
  {
    match f
    case NonRepeated(_, _, ser, _) => SerCanonical(ser)
    case PackedRepeated(_, _, _) => true
    case UnpackedRepeated(_, _, ser) => SerCanonical(ser)
  }

  predicate SerCanonical(ser: Serializer)
    decreases ser, 0
  {
    match ser
    case Scalar(_) => true
    case Embedded(m) => Canonical(m)
  }

  /** The attributes the decoder has collected once it has read what the first `n` fields wrote. */
  function Acc(t: MessageType, attrs: map<string, Value>, n: nat): (r: map<string, Value>)
    requires n <= |t.fields|
    ensures r.Keys <= NamesUpTo(t.fields, n)
  {
    if n == 0 then map[]
    else
      var r := Acc(t, attrs, n - 1);
      var f := t.fields[n - 1];
      var x := Get(attrs, f.name);
      if Written(f, x) then r[f.name := x] else r
  }

  /** With unique names, a declared field is collected exactly when it was written, with its own value. */
  lemma {:induction false} AccDeclared(t: MessageType, attrs: map<string, Value>, n: nat, j: nat)
    requires UniqueNames(t.fields) && j < n <= |t.fields|
    ensures var name := t.fields[j].name;
      (name in Acc(t, attrs, n) <==> Written(t.fields[j], Get(attrs, name)))
      && (name in Acc(t, attrs, n) ==> Acc(t, attrs, n)[name] == Get(attrs, name))
  {
    if j == n - 1 {
      NotDeclaredEarlier(t.fields, j);
    } else {
      AccDeclared(t, attrs, n - 1, j);
    }
  }

  /** Decoding the serialization of a valid record of a canonical class yields the record. */
  lemma {:induction false} DecodeWrite(t: MessageType, v: Value)
    requires Canonical(t) && ValidMessage(t, v)
    ensures Decode(t, Write(t, v)) == Success(v)
    decreases t, 4, 0
  {
    var s := Write(t, v);
    HasAtSelf(s);
    FieldsBytes(t, v.attrs, s, |t.fields|);
    ParseSteps(t, v.attrs, s, |t.fields|);
    FillAcc(t, v);
  }

  /** The constructor call rebuilds the record from the collected attributes and the defaults. */
  lemma FillAcc(t: MessageType, v: Value)
    requires Canonical(t) && ValidMessage(t, v)
    ensures Fill(t, Acc(t, v.attrs, |t.fields|), |t.fields|) == Success(v.attrs)
  {
    var n := |t.fields|;
    var a := Acc(t, v.attrs, n);
    forall j | 0 <= j < n
      ensures !Missing(t, a, j)
      ensures t.fields[j].name !in a ==>
        (t.fields[j].name in t.defaults && t.defaults[t.fields[j].name] == Get(v.attrs, t.fields[j].name))
      ensures t.fields[j].name in a ==> a[t.fields[j].name] == Get(v.attrs, t.fields[j].name)
    {
      AccDeclared(t, v.attrs, n, j);
      assert DefaultFor(t.defaults, t.fields[j]) && ValidField(t.fields[j], Get(v.attrs, t.fields[j].name));
    }
    var r := Fill(t, a, n);
    assert r.Success?;
    var m := r.value;
    forall k | k in m
      ensures k in v.attrs && m[k] == v.attrs[k]
    {
      NameIndex(t.fields, n, k);
      var j :| 0 <= j < n && t.fields[j].name == k;
    }
    assert m == v.attrs;
  }

  // ---------------------------------------------------------------------
  // Where the decoder's reads land. These predicates speak of the reading
  // functions only, never of the bytes the writer produced, so the decoder
  // steps below can be proved without unfolding the encodings.
  // ---------------------------------------------------------------------

  /** At `pos` sits a tag of field `f` with its serializer's wire type, then a payload read as `x`, ending at `next`. */
  ghost predicate ElemAt(s: seq<byte>, pos: nat, f: Field, x: Value, next: nat)
    requires !f.PackedRepeated?
  {
    pos < |s|
    && var tag := Wire.ReadTag(s, pos);
    tag.Success? && tag.value.0 == f.number && tag.value.1 == WireOf(f.ser)
    && LoadSer(f.ser, s, tag.value.2) == Success((x, next))
  }

  /** Where the tagged element of `f` starting at `pos` ends; `pos` itself when none can be read there. */
  ghost function ElemNext(s: seq<byte>, pos: nat, f: Field): (r: nat)
    requires !f.PackedRepeated?
    ensures pos <= r && (pos <= |s| ==> r <= |s|)
  {
    var tag := Wire.ReadTag(s, pos);
    if tag.Failure? then pos
    else
      var one := LoadSer(f.ser, s, tag.value.2);
      if one.Failure? then pos else one.value.1
  }

  /** At `pos` sits a length-delimited tag of packed field `f`, then a block whose payloads read as `items`. */
  ghost predicate BlockAtPos(s: seq<byte>, pos: nat, f: Field, items: seq<Value>, next: nat)
    requires f.PackedRepeated?
  {
    pos < |s|
    && var tag := Wire.ReadTag(s, pos);
    tag.Success? && tag.value.0 == f.number && tag.value.1 == Wire.Bytes
    && var read := ReadDelimited(s, tag.value.2);
    read.Success? && read.value.1 == next && LoadAll(f.kind, read.value.0) == Success(items)
  }

  /** Where the tagged block starting at `pos` ends; `pos` itself when none can be read there. */
  ghost function BlockNext(s: seq<byte>, pos: nat): (r: nat)
    ensures pos <= r && (pos <= |s| ==> r <= |s|)
  {
    var tag := Wire.ReadTag(s, pos);
    if tag.Failure? then pos
    else
      var read := ReadDelimited(s, tag.value.2);
      if read.Failure? then pos else read.value.1
  }

  /** Where `n` tagged elements of `f` read one after another from `pos` end. */
  ghost function ItemsEnd(s: seq<byte>, pos: nat, f: Field, n: nat): (r: nat)
    requires !f.PackedRepeated?
    ensures pos <= r && (pos <= |s| ==> r <= |s|)
  {
    if n == 0 then pos else ElemNext(s, ItemsEnd(s, pos, f, n - 1), f)
  }

  /** From `pos` on sit the first `n` of `items`, each as its own tagged element of `f`. */
  ghost predicate ItemsAt(s: seq<byte>, pos: nat, f: Field, items: seq<Value>, n: nat)
    requires f.UnpackedRepeated? && n <= |items|
  {
    n > 0 ==>
      ItemsAt(s, pos, f, items, n - 1)
      && ElemAt(s, ItemsEnd(s, pos, f, n - 1), f, items[n - 1], ItemsEnd(s, pos, f, n))
  }

  /** Where what field `f` writes for `x` ends, when it starts at `pos`. */
  ghost function FieldNext(s: seq<byte>, pos: nat, f: Field, x: Value): (r: nat)
    ensures pos <= r && (pos <= |s| ==> r <= |s|)
  {
    match f
    case NonRepeated(_, _, _, _) => if x.NoneValue? then pos else ElemNext(s, pos, f)
    case PackedRepeated(_, _, _) => if x.List? && x.items != [] then BlockNext(s, pos) else pos
    case UnpackedRepeated(_, _, _) => if x.List? then ItemsEnd(s, pos, f, |x.items|) else pos
  }

  /** From `pos` on sits what field `f` writes for the value `x`. */
  ghost predicate FieldAt(s: seq<byte>, pos: nat, f: Field, x: Value) {
    match f
    case NonRepeated(_, _, _, _) => !x.NoneValue? ==> ElemAt(s, pos, f, x, ElemNext(s, pos, f))
    case PackedRepeated(_, _, _) => x.List? && (x.items != [] ==> BlockAtPos(s, pos, f, x.items, BlockNext(s, pos)))
    case UnpackedRepeated(_, _, _) => x.List? && ItemsAt(s, pos, f, x.items, |x.items|)
  }

  /** Where what the first `n` fields of `t` write for `attrs` ends. */
  ghost function FieldsEnd(t: MessageType, attrs: map<string, Value>, s: seq<byte>, n: nat): (r: nat)
    requires n <= |t.fields|
    ensures r <= |s|
  {
    if n == 0 then 0
    else FieldNext(s, FieldsEnd(t, attrs, s, n - 1), t.fields[n - 1], Get(attrs, t.fields[n - 1].name))
  }

  /** From the start of `s` on sits what the first `n` fields of `t` write for `attrs`. */
  ghost predicate FieldsAt(t: MessageType, attrs: map<string, Value>, s: seq<byte>, n: nat)
    requires n <= |t.fields|
  {
    n > 0 ==>
      FieldsAt(t, attrs, s, n - 1)
      && FieldAt(s, FieldsEnd(t, attrs, s, n - 1), t.fields[n - 1], Get(attrs, t.fields[n - 1].name))
  }

  // ---------------------------------------------------------------------
  // The decoder's steps, from read facts.
  // ---------------------------------------------------------------------

  /** Reading the first `n` fields' occurrences carries the decoder from nothing to `Acc(n)`. */
  lemma {:induction false} ParseSteps(t: MessageType, attrs: map<string, Value>, s: seq<byte>, n: nat)
    requires UniqueNumbers(t.fields) && UniqueNames(t.fields) && n <= |t.fields|
    requires FieldsAt(t, attrs, s, n)
    ensures ParseFields(t, s, 0, map[]) == ParseFields(t, s, FieldsEnd(t, attrs, s, n), Acc(t, attrs, n))
  {
    if n > 0 {
      var f := t.fields[n - 1];
      ParseSteps(t, attrs, s, n - 1);
      NotDeclaredEarlier(t.fields, n - 1);
      FindDeclared(t.fields, n - 1);
      FieldStep(t, s, FieldsEnd(t, attrs, s, n - 1), Acc(t, attrs, n - 1), f, Get(attrs, f.name));
    }
  }

  /** The occurrences of one field carry the decoder from `acc` to `acc` with that field's value added. */
  lemma FieldStep(t: MessageType, s: seq<byte>, pos: nat, acc: map<string, Value>, f: Field, x: Value)
    requires FindField(t.fields, f.number) == Some(f) && f.name !in acc
    requires FieldAt(s, pos, f, x) && pos <= |s|
    ensures ParseFields(t, s, pos, acc)
      == ParseFields(t, s, FieldNext(s, pos, f, x), if Written(f, x) then acc[f.name := x] else acc)
  {
    match f
    case NonRepeated(_, _, _, _) =>
      if !x.NoneValue? {
        ElemStep(t, s, pos, acc, f, x, ElemNext(s, pos, f));
      }
    case PackedRepeated(_, _, _) =>
      if x.items != [] {
        BlockStep(t, s, pos, acc, f, x.items, BlockNext(s, pos));
      }
    case UnpackedRepeated(_, _, _) =>
      ItemsStep(t, s, pos, acc, f, x.items, |x.items|);
      assert x.items[..|x.items|] == x.items;
  }

  /** The first `n` tagged elements of an unpacked field build up the list of those elements. */
  lemma {:induction false} ItemsStep(t: MessageType, s: seq<byte>, pos: nat, acc: map<string, Value>,
                                     f: Field, items: seq<Value>, n: nat)
    requires FindField(t.fields, f.number) == Some(f) && f.UnpackedRepeated? && f.name !in acc
    requires n <= |items| && ItemsAt(s, pos, f, items, n) && pos <= |s|
    ensures ParseFields(t, s, pos, acc)
      == ParseFields(t, s, ItemsEnd(s, pos, f, n), if n == 0 then acc else acc[f.name := List(items[..n])])
  {
    if n > 0 {
      ItemsStep(t, s, pos, acc, f, items, n - 1);
      var acc' := if n == 1 then acc else acc[f.name := List(items[..n - 1])];
      ElemStep(t, s, ItemsEnd(s, pos, f, n - 1), acc', f, items[n - 1], ItemsEnd(s, pos, f, n));
      AppendElement(f, acc, items, n);
    }
  }

  /** Merging the next element into the list collected so far extends that list by it. */
  lemma AppendElement(f: Field, acc: map<string, Value>, items: seq<Value>, n: nat)
    requires f.UnpackedRepeated? && 0 < n <= |items| && f.name !in acc
    ensures var acc' := if n == 1 then acc else acc[f.name := List(items[..n - 1])];
      acc'[f.name := MergeField(f, Get(acc', f.name), List([items[n - 1]]))] == acc[f.name := List(items[..n])]
  {
    var name := f.name;
    if n == 1 {
      assert items[..1] == [items[0]];
    } else {
      assert items[..n - 1] + [items[n - 1]] == items[..n];
      var acc' := acc[name := List(items[..n - 1])];
      assert MergeField(f, Get(acc', name), List([items[n - 1]])) == List(items[..n]);
    }
  }

  /** One tagged element of a singular or unpacked field is merged into the field's attribute. */
  lemma ElemStep(t: MessageType, s: seq<byte>, pos: nat, acc: map<string, Value>, f: Field, x: Value, next: nat)
    requires FindField(t.fields, f.number) == Some(f) && !f.PackedRepeated?
    requires ElemAt(s, pos, f, x, next)
    ensures next <= |s|
    ensures ParseFields(t, s, pos, acc)
      == ParseFields(t, s, next, acc[f.name := MergeField(f, Get(acc, f.name), if f.NonRepeated? then x else List([x]))])
  {
    var p := Wire.ReadTag(s, pos).value.2;
    LoadFieldSingle(f, WireOf(f.ser), s, p, x, next);
    ParseDeclared(t, s, pos, acc, f, WireOf(f.ser), p, if f.NonRepeated? then x else List([x]), next);
  }

  /** One packed block: the decoder merges the list its payloads read as. */
  lemma BlockStep(t: MessageType, s: seq<byte>, pos: nat, acc: map<string, Value>, f: Field,
                  items: seq<Value>, next: nat)
    requires FindField(t.fields, f.number) == Some(f) && f.PackedRepeated?
    requires BlockAtPos(s, pos, f, items, next)
    ensures next <= |s|
    ensures ParseFields(t, s, pos, acc) == ParseFields(t, s, next, acc[f.name := MergeField(f, Get(acc, f.name), List(items))])
  {
    var p := Wire.ReadTag(s, pos).value.2;
    var block := ReadDelimited(s, p).value.0;
    LoadFieldPacked(f, s, p, block, items, next);
    ParseDeclared(t, s, pos, acc, f, Wire.Bytes, p, List(items), next);
  }

  // ---------------------------------------------------------------------
  // What the writer's bytes read as.
  // ---------------------------------------------------------------------

  /** The bytes of the first `n` fields read as those fields' values, field after field. */
  lemma {:induction false} FieldsBytes(t: MessageType, attrs: map<string, Value>, s: seq<byte>, n: nat)
    requires Canonical(t) && n <= |t.fields|
    requires forall i :: 0 <= i < |t.fields| ==> ValidField(t.fields[i], Get(attrs, t.fields[i].name))
    requires HasAt(s, 0, WriteFields(t, attrs, n))
    ensures FieldsAt(t, attrs, s, n) && FieldsEnd(t, attrs, s, n) == |WriteFields(t, attrs, n)|
    decreases t, 3, n
  {
    if n > 0 {
      var f := t.fields[n - 1];
      var x := Get(attrs, f.name);
      var before := WriteFields(t, attrs, n - 1);
      HasAtAppend(s, 0, before, WriteField(f, x));
      FieldsBytes(t, attrs, s, n - 1);
      FieldBytes(s, |before|, f, x);
    }
  }

  /** The bytes one field writes read as its value. */
  lemma FieldBytes(s: seq<byte>, pos: nat, f: Field, x: Value)
    requires FieldCanonical(f) && ValidField(f, x) && HasAt(s, pos, WriteField(f, x))
    ensures FieldAt(s, pos, f, x) && FieldNext(s, pos, f, x) == pos + |WriteField(f, x)|
    decreases f, 2, 0
  {
    match f
    case NonRepeated(number, _, ser, _) =>
      if !x.NoneValue? {
        ElemBytes(s, pos, f, x);
      }
    case PackedRepeated(number, _, k) =>
      if x.items != [] {
        LoadDumpAll(k, x.items);
        BlockBytes(s, pos, f, x.items, DumpAll(k, x.items));
      }
    case UnpackedRepeated(_, _, _) =>
      ItemsBytes(s, pos, f, x.items, |x.items|);
  }

  /** The tagged elements an unpacked field writes read as its first `n` elements. */
  lemma {:induction false} ItemsBytes(s: seq<byte>, pos: nat, f: Field, items: seq<Value>, n: nat)
    requires f.UnpackedRepeated? && SerCanonical(f.ser)
    requires n <= |items| && forall j :: 0 <= j < |items| ==> ValidSer(f.ser, items[j])
    requires HasAt(s, pos, WriteItems(f, items, n))
    ensures ItemsAt(s, pos, f, items, n) && ItemsEnd(s, pos, f, n) == pos + |WriteItems(f, items, n)|
    decreases f, 1, n
  {
    if n > 0 {
      var before := WriteItems(f, items, n - 1);
      var d := DumpSer(f.ser, items[n - 1]);
      HasAtAppend(s, pos, before, Wire.EncodeTag(f.number, WireOf(f.ser)) + d);
      ItemsBytes(s, pos, f, items, n - 1);
      ElemBytes(s, pos + |before|, f, items[n - 1]);
      ItemsAtNext(s, pos, f, items, n, pos + |before|);
    }
  }

  /** An element read where the first `n - 1` end extends them to the first `n`. */
  lemma ItemsAtNext(s: seq<byte>, pos: nat, f: Field, items: seq<Value>, n: nat, mid: nat)
    requires f.UnpackedRepeated? && 0 < n <= |items|
    requires ItemsAt(s, pos, f, items, n - 1) && ItemsEnd(s, pos, f, n - 1) == mid
    requires ElemAt(s, mid, f, items[n - 1], ElemNext(s, mid, f))
    ensures ItemsAt(s, pos, f, items, n) && ItemsEnd(s, pos, f, n) == ElemNext(s, mid, f)
  {
  }

  /** A tag of `f` followed by what its serializer writes for `x` is an element of `f` holding `x`. */
  lemma ElemBytes(s: seq<byte>, pos: nat, f: Field, x: Value)
    requires !f.PackedRepeated? && SerCanonical(f.ser) && ValidSer(f.ser, x)
    requires HasAt(s, pos, Wire.EncodeTag(f.number, WireOf(f.ser)) + DumpSer(f.ser, x))
    ensures ElemNext(s, pos, f) == pos + |Wire.EncodeTag(f.number, WireOf(f.ser)) + DumpSer(f.ser, x)|
    ensures ElemAt(s, pos, f, x, ElemNext(s, pos, f))
    decreases f, 0, 0
  {
    var d := DumpSer(f.ser, x);
    var p := pos + |Wire.EncodeTag(f.number, WireOf(f.ser))|;
    Wire.TagThen(s, pos, f.number, WireOf(f.ser), d);
    LoadSerDump(f.ser, x, s, p);
    ElemRead(s, pos, f, x, p, p + |d|);
  }

  /** A tag of `f` read at `pos`, then its payload read as `x`, make an element ending where the payload does. */
  lemma ElemRead(s: seq<byte>, pos: nat, f: Field, x: Value, p: nat, next: nat)
    requires !f.PackedRepeated? && pos < |s| && Wire.ReadTag(s, pos) == Success((f.number, WireOf(f.ser), p))
    requires LoadSer(f.ser, s, p) == Success((x, next))
    ensures ElemAt(s, pos, f, x, next) && ElemNext(s, pos, f) == next
  {
  }

  /** A length-delimited tag followed by a block whose payloads read as `items` is a packed occurrence. */
  lemma BlockBytes(s: seq<byte>, pos: nat, f: Field, items: seq<Value>, block: seq<byte>)
    requires f.PackedRepeated? && LoadAll(f.kind, block) == Success(items)
    requires HasAt(s, pos, Wire.EncodeTag(f.number, Wire.Bytes) + EncodeDelimited(block))
    ensures BlockAtPos(s, pos, f, items, pos + |Wire.EncodeTag(f.number, Wire.Bytes)| + |EncodeDelimited(block)|)
    ensures BlockNext(s, pos) == pos + |Wire.EncodeTag(f.number, Wire.Bytes)| + |EncodeDelimited(block)|
  {
    var p := pos + |Wire.EncodeTag(f.number, Wire.Bytes)|;
    Wire.TagThen(s, pos, f.number, Wire.Bytes, EncodeDelimited(block));
    ReadEncodedDelimited(block, s, p);
    BlockRead(s, pos, f, items, p, block, p + |EncodeDelimited(block)|);
  }

  /** A length-delimited tag of `f` read at `pos`, then a block whose payloads read as `items`, make one packed occurrence. */
  lemma BlockRead(s: seq<byte>, pos: nat, f: Field, items: seq<Value>, p: nat, block: seq<byte>, next: nat)
    requires f.PackedRepeated? && pos < |s| && Wire.ReadTag(s, pos) == Success((f.number, Wire.Bytes, p))
    requires ReadDelimited(s, p) == Success((block, next)) && LoadAll(f.kind, block) == Success(items)
    ensures BlockAtPos(s, pos, f, items, next) && BlockNext(s, pos) == next
  {
  }

  /** A serializer reads back the value it wrote, nested records included. */
  lemma LoadSerDump(ser: Serializer, x: Value, s: seq<byte>, pos: nat)
    requires SerCanonical(ser) && ValidSer(ser, x)
    requires HasAt(s, pos, DumpSer(ser, x))
    ensures LoadSer(ser, s, pos) == Success((x, pos + |DumpSer(ser, x)|))
    decreases ser, 1, 0
  {
    if ser.Scalar? {
      ScalarRead(ser, x, s, pos);
    } else {
      EmbeddedDump(ser, x, s, pos);
    }
  }

  /** The embedded serializer reads back the record it wrote. */
  lemma EmbeddedDump(ser: Serializer, x: Value, s: seq<byte>, pos: nat)
    requires ser.Embedded? && SerCanonical(ser) && ValidSer(ser, x)
    requires HasAt(s, pos, DumpSer(ser, x))
    ensures LoadSer(ser, s, pos) == Success((x, pos + |DumpSer(ser, x)|))
    decreases ser, 0, 0
  {
    DumpEmbedded(ser, x);
    DecodeWrite(ser.message, x);
    EmbeddedRead(ser, s, pos, Write(ser.message, x), x, DumpSer(ser, x));
  }

  /** A scalar serializer reads back the payload it wrote. */
  lemma ScalarRead(ser: Serializer, x: Value, s: seq<byte>, pos: nat)
    requires ser.Scalar? && ValidSer(ser, x) && HasAt(s, pos, DumpSer(ser, x))
    ensures LoadSer(ser, s, pos) == Success((x, pos + |DumpSer(ser, x)|))
  {
    LoadDump(ser.kind, x, s, pos);
  }

  /** A length prefix, then a block that decodes as `x`: the embedded serializer reads `x`. */
  lemma EmbeddedRead(ser: Serializer, s: seq<byte>, pos: nat, block: seq<byte>, x: Value, d: seq<byte>)
    requires ser.Embedded? && d == EncodeDelimited(block) && HasAt(s, pos, d)
    requires Decode(ser.message, block) == Success(x)
    ensures LoadSer(ser, s, pos) == Success((x, pos + |d|))
  {
    ReadEncodedDelimited(block, s, pos);
    LoadSerEmbedded(ser, s, pos, block, pos + |d|, x);
  }

  /** An embedded record is written as its serialization, length-prefixed. */
  lemma DumpEmbedded(ser: Serializer, x: Value)
    requires ser.Embedded? && ValidSer(ser, x)
    ensures DumpSer(ser, x) == EncodeDelimited(Write(ser.message, x))
  {
  }
}
