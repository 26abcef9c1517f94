/** The field iterator of pb_common.c: it walks a field table, wraps around at the
    end, and searches from wherever the last search left it. */
module PbIter {
  import opened Common
  import opened PbSchema
  import opened PbDecode

  /** The all-zero entry that ends every field table. */
  const TERMINATOR := Field(0, Varint, Required, 0, 0, 0, None)

  function FieldAt(fields: seq<Field>, i: nat): Field {
    if i < |fields| then fields[i] else TERMINATOR
  }

  /** The room a field takes up in the structure. */
  function Extent(f: Field): nat {
    if f.rule.Array() then f.dataSize * f.arraySize else f.dataSize
  }

  /** A further member of the union of a oneof. */
  predicate SharesStorage(prev: Field, f: Field) {
    prev.rule.OneOf? && f.rule.OneOf? && f.dataOffset == PB_SIZE_MAX
  }

  /** Where field |i| of the structure is: every offset but the first is relative to
      the end of the field before. */
  function OffsetOf(fields: seq<Field>, i: nat): nat
    requires i < |fields|
  {
    if i == 0 then fields[0].dataOffset
    else if SharesStorage(fields[i - 1], fields[i]) then OffsetOf(fields, i - 1)
    else OffsetOf(fields, i - 1) + Extent(fields[i - 1]) + fields[i].dataOffset
  }

  /** The first field with the tag, going once around from |pos|. */
  ghost predicate FoundFrom(fields: seq<Field>, pos: nat, tag: nat, i: nat) {
    && i < |fields| && fields[i].tag == tag
    && if i >= pos then forall k | pos <= k < i :: fields[k].tag != tag
       else (forall k | pos <= k < |fields| :: fields[k].tag != tag) && (forall k | 0 <= k < i :: fields[k].tag != tag)
  }

  class FieldIter {
    const fields: seq<Field>
    var pos: nat
    var requiredFieldIndex: nat
    var dataOffset: nat

    /** Required index and data offset are functions of the position alone. */
    ghost predicate Valid()
      reads this
    {
      && (if fields == [] then pos == 0 else pos < |fields|)
      && requiredFieldIndex == RequiredBefore(fields, pos)
      && (fields != [] ==> dataOffset == OffsetOf(fields, pos))
    }

    constructor (fields: seq<Field>)
      ensures Valid() && this.fields == fields && pos == 0
    {
      this.fields := fields;
      pos, requiredFieldIndex := 0, 0;
      dataOffset := FieldAt(fields, 0).dataOffset;
    }

    /** pb_field_iter_begin. */
    method Begin() returns (any: bool)
      requires forall i | 0 <= i < |fields| :: fields[i].tag != 0
      modifies this
      ensures Valid() && pos == 0 && any == (fields != [])
    {
      pos, requiredFieldIndex := 0, 0;
      dataOffset := FieldAt(fields, 0).dataOffset;
      any := FieldAt(fields, 0).tag != 0;
    }

    /** pb_field_iter_next: false when it wrapped back to the first field. */
    method Next() returns (more: bool)
      requires Valid() && forall i | 0 <= i < |fields| :: fields[i].tag != 0
      modifies this
      ensures Valid()
      ensures more == (old(pos) + 1 < |fields|)
      ensures pos == if more then old(pos) + 1 else 0
    {
      var prevField := FieldAt(fields, pos);
      if prevField.tag == 0 {
        return false;
      }
      pos := pos + 1;
      var f := FieldAt(fields, pos);
      if f.tag == 0 {
        var _ := Begin();
        return false;
      }
      if SharesStorage(prevField, f) {
        return true;
      }
      if prevField.rule.Required? {
        requiredFieldIndex := requiredFieldIndex + 1;
      }
      dataOffset := dataOffset + Extent(prevField) + f.dataOffset;
      more := true;
    }

    /** pb_field_iter_find: the search goes once around from the current position;
        when it fails the iterator is back where it was. */
    method FindTag(tag: nat) returns (found: bool)
      requires Valid() && forall i | 0 <= i < |fields| :: fields[i].tag != 0
      modifies this
      ensures Valid()
      ensures fields != [] ==>
                if found then FoundFrom(fields, old(pos), tag, pos)
                else pos == old(pos) && forall k | 0 <= k < |fields| :: fields[k].tag != tag
      ensures fields == [] ==> found == (tag == 0)
    {
      var start := pos;
      if FieldAt(fields, pos).tag == tag {
        return true;
      }
      var _ := Next();
      while pos != start
        invariant Valid()
        invariant fields == [] ==> pos == start
        invariant pos > start ==> forall k | start <= k < pos :: fields[k].tag != tag
        invariant pos <= start ==> forall k | start <= k < |fields| :: fields[k].tag != tag
        invariant pos <= start ==> forall k | 0 <= k < pos :: fields[k].tag != tag
        invariant fields == [] ==> tag != 0
        decreases if pos > start then |fields| - pos + start else start - pos
      {
        if FieldAt(fields, pos).tag == tag {
          return true;
        }
        var _ := Next();
      }
      found := false;
    }
  }

  /** With unique tags it does not matter where the search started. */
  lemma FindIgnoresPosition(fields: seq<Field>, pos: nat, tag: nat, i: nat)
    requires UniqueTags(fields) && FoundFrom(fields, pos, tag, i)
    ensures i == Find(fields, tag)
  {
  }

  lemma NotFound(fields: seq<Field>, tag: nat)
    requires forall k | 0 <= k < |fields| :: fields[k].tag != tag
    ensures Find(fields, tag) == |fields|
  {
  }
}
