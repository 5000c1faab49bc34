/**
 * The stand-alone oneof object `OneOf_`: a fixed set of part names and one
 * mutable selection slot holding the last part set and its value.
 */
module OneOfs {
  import opened Wrappers
  import opened Serializers

  /** One alternative of a oneof group: its attribute name, its declared type (by name) and its field number. */
  datatype PartInfo = PartInfo(name: string, typeName: string, number: int)

  /** The AttributeError raised for a name that is not one of the parts. */
  datatype AttrError = FieldNotFound(name: string)

  /** The frozen set of the parts' names. */
  function PartNames(parts: seq<PartInfo>): (r: set<string>)
    ensures forall i :: 0 <= i < |parts| ==> parts[i].name in r
    ensures forall n :: n in r ==> exists i :: 0 <= i < |parts| && parts[i].name == n
  {
    set i | 0 <= i < |parts| :: parts[i].name
  }

  /**
   * A oneof value. `fields` and `parts` are fixed at construction; only
   * `selected`, the pair (name, value) last set, ever changes. A value is a
   * Python object, with `NoneValue` for None.
   */
  class OneOf {
    const fields: set<string>
    const parts: seq<PartInfo>
    var selected: Option<(string, Value)>

    /** The name set is the parts' names, and only a declared part is ever selected. */
    ghost predicate Valid()
      reads this
    {
      fields == PartNames(parts) && (selected.Some? ==> selected.value.0 in fields)
    }

    /** `__init__`: nothing is selected yet. */
    constructor(parts: seq<PartInfo>)
      ensures Valid() && this.parts == parts && selected == None
      ensures WhichOneOf() == None
      ensures forall n :: n in fields ==> Get(n) == Success(NoneValue)
    {
      this.fields := PartNames(parts);
      this.parts := parts;
      this.selected := None;
    }

    /**
     * `__getattr__`: a name outside the parts is an AttributeError; the
     * selected part reads its stored value and every other part reads None.
     */
    function Get(name: string): (r: Result<Value, AttrError>)
      reads this
      ensures r.Failure? <==> name !in fields
      ensures r.Failure? ==> r.error == FieldNotFound(name)
      ensures r.Success? && WhichOneOf() != Some(name) ==> r.value == NoneValue
      ensures r.Success? && WhichOneOf() == Some(name) ==> r.value == selected.value.1
    {
      if name !in fields then Failure(FieldNotFound(name))
      else if selected.Some? && selected.value.0 == name then Success(selected.value.1)
      else Success(NoneValue)
    }

    /** `which_one_of`: the name of the selected part, None when nothing was set. */
    function WhichOneOf(): (r: Option<string>)
      reads this
      ensures r.None? <==> selected.None?
      ensures r.Some? ==> selected == Some((r.value, selected.value.1))
    {
      match selected
      case None => None
      case Some((name, _)) => Some(name)
    }

    /**
     * `__setattr__`: a declared part becomes the selection with its value,
     * replacing any earlier one, even when the value is None; a name outside
     * the parts is an AttributeError and changes nothing.
     */
    method Set(name: string, value: Value) returns (r: Outcome<AttrError>)
      requires Valid()
      modifies this
      ensures Valid()
      ensures r.Fail? <==> name !in fields
      ensures r.Fail? ==> r.error == FieldNotFound(name) && selected == old(selected)
      ensures r.Pass? ==> selected == Some((name, value))
      ensures r.Pass? ==> WhichOneOf() == Some(name) && Get(name) == Success(value)
      ensures r.Pass? ==> forall n :: n in fields && n != name ==> Get(n) == Success(NoneValue)
    {
      if name !in fields {
        return Fail(FieldNotFound(name));
      }
      selected := Some((name, value));
      r := Pass;
    }

    /** `__eq__`: the name sets, the parts and the selections (name and value) are all equal. */
    predicate Equal(other: OneOf)
      reads this, other
    {
      (fields, parts, selected) == (other.fields, other.parts, other.selected)
    }

    /**
     * Equality as an observer sees it: two valid oneofs are equal exactly
     * when they have the same parts, report the same selected part and read
     * the same value under every name.
     */
    lemma EqualIffSameReads(other: OneOf)
      requires Valid() && other.Valid()
      ensures Equal(other) <==>
        (parts == other.parts && WhichOneOf() == other.WhichOneOf()
         && forall n :: n in fields ==> Get(n) == other.Get(n))
    {
      if parts == other.parts && WhichOneOf() == other.WhichOneOf()
         && forall n :: n in fields ==> Get(n) == other.Get(n)
      {
        assert fields == other.fields;
        if selected.Some? {
          var name := selected.value.0;
          assert Get(name) == Success(selected.value.1);
          assert other.Get(name) == Success(other.selected.value.1);
        }
      }
    }
  }
}
