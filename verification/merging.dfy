/**
 * Merge rules of the field variants, `merge_from` on a record, and the
 * read side of the `OneOf` descriptor.
 */
module Merging {
  import opened Wrappers
  import opened Serializers
  import opened Messages

  /**
   * `field.merge(old, new)`. A singular field keeps `old` when `new` is None,
   * merges two embedded records field by field, and otherwise takes `new`
   * (last one wins). A repeated field concatenates.
   */
  function MergeField(f: Field, a: Value, b: Value): (r: Value)
    ensures b.NoneValue? ==> r == a
    ensures f.NonRepeated? && !(f.ser.Embedded? && a.Message? && b.Message?) && !b.NoneValue? ==> r == b
    ensures !f.NonRepeated? && a.List? && b.List? ==> r == List(a.items + b.items)
    ensures !f.NonRepeated? && !a.List? && !b.NoneValue? ==> r == b
    ensures f.NonRepeated? && f.ser.Embedded? && a.Message? && b.Message? ==>
      r == Message(a.typeName, MergeAttrs(f.ser.message, |f.ser.message.fields|, a.attrs, b.attrs))
    decreases f, 1, 0
  {
    match f
    case NonRepeated(_, _, ser, _) =>
      if b.NoneValue? then a
      else if ser.Embedded? && a.Message? && b.Message? then MergeMessage(ser.message, a, b)
      else b
    case _ =>
      if a.List? && b.List? then List(a.items + b.items)
      else if b.NoneValue? then a
      else b
  }

  /** `a.merge_from(b)` on records of class `m`, as a value. */
  function MergeMessage(m: MessageType, a: Value, b: Value): (r: Value)
    requires a.Message? && b.Message?
    ensures r.Message? && r.typeName == a.typeName
    decreases m, 2, 0
  {
    Message(a.typeName, MergeAttrs(m, |m.fields|, a.attrs, b.attrs))
  }

  /**
   * The attributes after the first `n` iterations of the `merge_from` loop:
   * each declared field in turn is set to the merge of its current value and
   * the other record's value.
   */
  function MergeAttrs(m: MessageType, n: nat, a: map<string, Value>, b: map<string, Value>)
    : (r: map<string, Value>)
    requires n <= |m.fields|
    decreases m, 1, n
  {
    if n == 0 then a
    else
      var r := MergeAttrs(m, n - 1, a, b);
      var f := m.fields[n - 1];
      r[f.name := MergeField(f, Get(r, f.name), Get(b, f.name))]
  }

  /** The first `n` iterations set exactly the first `n` declared names, beside those already set. */
  lemma {:induction false} MergeAttrsKeys(m: MessageType, n: nat, a: map<string, Value>, b: map<string, Value>)
    requires n <= |m.fields|
    ensures MergeAttrs(m, n, a, b).Keys == a.Keys + NamesUpTo(m.fields, n)
  {
    if n > 0 {
      MergeAttrsKeys(m, n - 1, a, b);
    }
  }

  /** An attribute none of the first `n` fields names keeps its value through their iterations. */
  lemma {:induction false} MergeAttrsUntouched(m: MessageType, n: nat, a: map<string, Value>, b: map<string, Value>, k: string)
    requires n <= |m.fields| && k !in NamesUpTo(m.fields, n)
    ensures Get(MergeAttrs(m, n, a, b), k) == Get(a, k)
  {
    if n > 0 {
      MergeAttrsUntouched(m, n - 1, a, b, k);
    }
  }

  /** A name no field among the first `n` carries is not among their names. */
  lemma {:induction false} NotAmongNames(fields: seq<Field>, n: nat, name: string)
    requires n <= |fields|
    requires forall j :: 0 <= j < n ==> fields[j].name != name
    ensures name !in NamesUpTo(fields, n)
  {
    if n > 0 {
      NotAmongNames(fields, n - 1, name);
    }
  }

  /** A declared name is not among the names declared before it. */
  lemma NotDeclaredEarlier(fields: seq<Field>, i: nat)
    requires UniqueNames(fields) && i < |fields|
    ensures fields[i].name !in NamesUpTo(fields, i)
  {
    NotAmongNames(fields, i, fields[i].name);
  }

  /** With unique names, every declared field ends up holding the merge of the two original values. */
  lemma {:induction false} MergeAttrsDeclared(m: MessageType, n: nat, a: map<string, Value>, b: map<string, Value>, i: nat)
    requires UniqueNames(m.fields) && i < n <= |m.fields|
    ensures Get(MergeAttrs(m, n, a, b), m.fields[i].name)
      == MergeField(m.fields[i], Get(a, m.fields[i].name), Get(b, m.fields[i].name))
    decreases n
  {
    var f, g := m.fields[i], m.fields[n - 1];
    var prev := MergeAttrs(m, n - 1, a, b);
    GetUpdated(prev, g.name, MergeField(g, Get(prev, g.name), Get(b, g.name)), f.name);
    if i == n - 1 {
      NotYetMerged(m, i, a, b);
    } else {
      MergeAttrsDeclared(m, n - 1, a, b, i);
      assert g.name != f.name;
    }
  }

  /**
   * Merging two embedded records merges each declared field of the nested
   * class by that field's own rule.
   */
  lemma EmbeddedFieldMerged(f: Field, a: Value, b: Value, i: nat)
    requires f.NonRepeated? && f.ser.Embedded? && a.Message? && b.Message?
    requires UniqueNames(f.ser.message.fields) && i < |f.ser.message.fields|
    ensures MergeField(f, a, b).Message?
    ensures var g := f.ser.message.fields[i];
      Get(MergeField(f, a, b).attrs, g.name) == MergeField(g, Get(a.attrs, g.name), Get(b.attrs, g.name))
  {
    MergeAttrsDeclared(f.ser.message, |f.ser.message.fields|, a.attrs, b.attrs, i);
  }

  /**
   * Merging two embedded records keeps every attribute of the first record
   * that the nested class does not declare, and adds the declared names.
   */
  lemma EmbeddedOtherKept(f: Field, a: Value, b: Value, k: string)
    requires f.NonRepeated? && f.ser.Embedded? && a.Message? && b.Message?
    requires k !in FieldNames(f.ser.message)
    ensures MergeField(f, a, b).Message?
    ensures Get(MergeField(f, a, b).attrs, k) == Get(a.attrs, k)
    ensures MergeField(f, a, b).attrs.Keys == a.attrs.Keys + FieldNames(f.ser.message)
  {
    MergeAttrsUntouched(f.ser.message, |f.ser.message.fields|, a.attrs, b.attrs, k);
    MergeAttrsKeys(f.ser.message, |f.ser.message.fields|, a.attrs, b.attrs);
  }

  /** Reading an attribute after setting one. */
  lemma GetUpdated(attrs: map<string, Value>, name: string, x: Value, other: string)
    ensures Get(attrs[name := x], other) == if other == name then x else Get(attrs, other)
  {
  }

  /** The `n`-th declared field is still untouched after the first `n` iterations. */
  lemma NotYetMerged(m: MessageType, n: nat, a: map<string, Value>, b: map<string, Value>)
    requires UniqueNames(m.fields) && n < |m.fields|
    ensures Get(MergeAttrs(m, n, a, b), m.fields[n].name) == Get(a, m.fields[n].name)
  {
    NotDeclaredEarlier(m.fields, n);
    MergeAttrsUntouched(m, n, a, b, m.fields[n].name);
  }

  /** A record object: its class's field map and its current attributes. */
  class Record {
    const schema: MessageType
    var attrs: map<string, Value>

    /** Field names are unique within a class (they are its attribute names). */
    ghost predicate Valid()
      reads this
    {
      UniqueNames(schema.fields)
    }

    constructor(schema: MessageType, attrs: map<string, Value>)
      requires UniqueNames(schema.fields)
      ensures Valid() && this.schema == schema && this.attrs == attrs
    {
      this.schema := schema;
      this.attrs := attrs;
    }

    /**
     * `merge_from(other)`: sets every declared attribute to its field's merge
     * of this record's value and the other's. Also correct when `other` is
     * this record itself. `MergeAttrsDeclared` and `MergeAttrsUntouched`
     * say what that leaves in each attribute.
     */
    method MergeFrom(other: Record)
      requires Valid()
      modifies this
      ensures Valid()
      ensures attrs == MergeAttrs(schema, |schema.fields|, old(attrs), old(other.attrs))
      ensures other != this ==> other.attrs == old(other.attrs)
    {
      var i := 0;
      while i < |schema.fields|
        invariant 0 <= i <= |schema.fields|
        invariant attrs == MergeAttrs(schema, i, old(attrs), old(other.attrs))
        invariant other != this ==> other.attrs == old(other.attrs)
      {
        var f := schema.fields[i];
        // Reading `other` sees its original value, even when it is this record.
        NotYetMerged(schema, i, old(attrs), old(other.attrs));
        attrs := attrs[f.name := MergeField(f, Get(attrs, f.name), Get(other.attrs, f.name))];
        i := i + 1;
      }
    }
  }

  // ---------------------------------------------------------------------
  // The OneOf descriptor
  // ---------------------------------------------------------------------

  /** The position of the first of `fields` whose attribute is not None. */
  function FirstSet(fields: seq<Field>, attrs: map<string, Value>): (r: Option<nat>)
    ensures r.Some? ==> r.value < |fields| && !Get(attrs, fields[r.value].name).NoneValue?
    ensures r.Some? ==> forall j :: 0 <= j < r.value ==> Get(attrs, fields[j].name).NoneValue?
    ensures r.None? <==> forall j :: 0 <= j < |fields| ==> Get(attrs, fields[j].name).NoneValue?
  {
    if fields == [] then None
    else if !Get(attrs, fields[0].name).NoneValue? then Some(0)
    else
      match FirstSet(fields[1..], attrs)
      case None => None
      case Some(i) => Some(i + 1)
  }

  /**
   * `OneOf.__get__`: the value of the first field, in declaration order,
   * whose attribute is not None; None when all of them are None.
   */
  function OneOfGet(fields: seq<Field>, attrs: map<string, Value>): (r: Value)
    ensures r.NoneValue? <==> forall j :: 0 <= j < |fields| ==> Get(attrs, fields[j].name).NoneValue?
    ensures !r.NoneValue? ==> exists i :: 0 <= i < |fields| && r == Get(attrs, fields[i].name) &&
                                         forall j :: 0 <= j < i ==> Get(attrs, fields[j].name).NoneValue?
  {
    match FirstSet(fields, attrs)
    case None => NoneValue
    case Some(i) => Get(attrs, fields[i].name)
  }
}
