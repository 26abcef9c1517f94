/** Message descriptions and message structures, as the nanopb codec sees them:
    a |pb_field_t| table drives the code, and a C struct with static storage
    holds the data. */
module PbSchema {
  import opened Common

  /** Largest |pb_size_t|, for the build's 32-bit setting of that type. */
  const PB_SIZE_MAX: nat := 0xFFFF_FFFF
  /** offsetof(pb_bytes_array_t, bytes). */
  const BYTES_HEADER: nat := 4
  /** Required fields tracked by the decoder. */
  const MAX_REQUIRED: nat := 64

  const WT_VARINT: nat := 0
  const WT_64BIT: nat := 1
  const WT_STRING: nat := 2
  const WT_32BIT: nat := 5

  datatype Kind =
    | Varint | UVarint | SVarint | Fixed32 | Fixed64
    | Bytes | String | Message(fields: seq<Field>) | FixedBytes
  {
    /** Types up to PB_LTYPE_LAST_PACKABLE. */
    predicate Packable() {
      Varint? || UVarint? || SVarint? || Fixed32? || Fixed64?
    }

    function WireType(): nat {
      match this
      case Varint | UVarint | SVarint => WT_VARINT
      case Fixed32 => WT_32BIT
      case Fixed64 => WT_64BIT
      case _ => WT_STRING
    }
  }

  /** |Optional| has a has_ flag beside it, |Singular| is the proto3 field
      without one, |Repeated| has a _count beside it and |FixedCount| has none;
      the members of a |OneOf| share the which_ of their group. */
  datatype Rule = Required | Optional | Singular | Repeated | FixedCount | OneOf(group: nat)
  {
    predicate Array() { Repeated? || FixedCount? }
  }

  datatype Field = Field(tag: nat, kind: Kind, rule: Rule,
                         dataOffset: nat, dataSize: nat, arraySize: nat, dflt: Option<Value>)

  datatype Value = Int(n: int) | Blob(b: seq<byte>) | Sub(m: Msg)

  /** The storage of one field: its has_ flag, its _count, and its one entry or
      all |arraySize| entries of its array. */
  datatype Slot = Slot(has: bool, count: nat, items: seq<Value>)

  /** A struct: one slot per field, and the which_ member of every oneof. */
  datatype Msg = Msg(slots: seq<Slot>, which: map<nat, nat>)

  function WhichOf(m: Msg, group: nat): nat {
    if group in m.which then m.which[group] else 0
  }

  function SlotAt(m: Msg, i: nat): Slot {
    if i < |m.slots| then m.slots[i] else Slot(false, 0, [])
  }

  function EntryAt(items: seq<Value>, j: nat): Value {
    if j < |items| then items[j] else Int(0)
  }

  function ItemAt(s: Slot, j: nat): Value {
    EntryAt(s.items, j)
  }

  function AsInt(v: Value): int {
    if v.Int? then v.n else 0
  }

  function AsBlob(v: Value): seq<byte> {
    if v.Blob? then v.b else []
  }

  function AsMsg(v: Value): Msg {
    if v.Sub? then v.m else Msg([], map[])
  }

  /** What the C string functions see of a |char| array: everything before the first NUL. */
  function CStr(b: seq<byte>): (s: seq<byte>)
    ensures |s| <= |b| && s <= b && 0 !in s
    ensures |s| < |b| ==> b[|s|] == 0
  {
    if b == [] || b[0] == 0 then [] else [b[0]] + CStr(b[1..])
  }

  lemma {:induction false} CStrWhole(b: seq<byte>)
    requires 0 !in b
    ensures CStr(b) == b
  {
    if b != [] {
      CStrWhole(b[1..]);
    }
  }

  // ----- finding a field by tag -----

  /** Index of the field with the given tag, or the number of fields. */
  function Find(fields: seq<Field>, tag: nat): (i: nat)
    ensures i <= |fields|
    ensures i < |fields| ==> fields[i].tag == tag
    ensures forall k | 0 <= k < i :: fields[k].tag != tag
  {
    if fields == [] then 0
    else if fields[0].tag == tag then 0
    else 1 + Find(fields[1..], tag)
  }

  ghost predicate UniqueTags(fields: seq<Field>) {
    forall i, j | 0 <= i < j < |fields| :: fields[i].tag != fields[j].tag
  }

  lemma FindUnique(fields: seq<Field>, i: nat)
    requires UniqueTags(fields) && i < |fields|
    ensures Find(fields, fields[i].tag) == i
  {
  }

  // ----- default values -----

  function Zeros(n: nat): (b: seq<byte>)
    ensures |b| == n && forall i | 0 <= i < n :: b[i] == 0
  {
    seq(n, _ => 0)
  }

  /** The value a field's storage has when every byte of it is zero. */
  function ZeroValue(f: Field): Value
    decreases f, 1
  {
    match f.kind
    case Bytes | String => Blob([])
    case FixedBytes => Blob(Zeros(f.dataSize))
    case Message(sub) => Sub(ZeroMsg(sub))
    case _ => Int(0)
  }

  function Cap(f: Field): nat {
    if f.rule.Array() then f.arraySize else 1
  }

  function ZeroMsg(fields: seq<Field>): (m: Msg)
    decreases fields, 0
    ensures |m.slots| == |fields|
  {
    Msg(seq(|fields|, i requires 0 <= i < |fields| =>
          Slot(false, 0, seq(Cap(fields[i]), _ => ZeroValue(fields[i])))), map[])
  }

  /** The entries of a slot; a struct with static storage always has all of them. */
  function Storage(f: Field, s: Slot): (items: seq<Value>)
    ensures |items| == Cap(f)
    ensures |s.items| == Cap(f) ==> items == s.items
  {
    if |s.items| == Cap(f) then s.items else seq(Cap(f), _ => ZeroValue(f))
  }

  /** pb_field_set_to_default: a has_ flag is cleared and the entry beside it
      initialised; an array is emptied and a oneof reset without touching the contents. */
  function DefaultSlot(f: Field, prev: Slot): (s: Slot)
    decreases f, 1
    ensures |s.items| == Cap(f)
  {
    if f.rule.Array() then Slot(prev.has, 0, Storage(f, prev))
    else if f.rule.OneOf? then Slot(prev.has, prev.count, Storage(f, prev))
    else Slot(if f.rule.Optional? then false else prev.has, prev.count, [DefaultValue(f, ItemAt(prev, 0))])
  }

  function DefaultValue(f: Field, prev: Value): Value
    decreases f, 0
  {
    match f.kind
    case Message(sub) => Sub(Defaults(sub, AsMsg(prev)))
    case _ => if f.dflt.Some? then f.dflt.value else ZeroValue(f)
  }

  /** pb_message_set_to_defaults. */
  function Defaults(fields: seq<Field>, prev: Msg): (m: Msg)
    decreases fields, 0
    ensures |m.slots| == |fields|
  {
    Msg(seq(|fields|, i requires 0 <= i < |fields| => DefaultSlot(fields[i], SlotAt(prev, i))), map[])
  }
}
