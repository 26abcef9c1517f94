/** What the nanopb encoder writes, as functions of the description and the message. */
module PbEncode {
  import opened Common
  import opened PbWire
  import opened PbSchema

  function EncodeTag(tag: nat, wireType: nat): seq<byte> {
    EncodeVarint(tag * 8 + wireType)
  }

  function LenPrefixed(b: seq<byte>): seq<byte> {
    EncodeVarint(|b|) + b
  }

  function FieldTag(f: Field): seq<byte> {
    EncodeTag(f.tag, f.kind.WireType())
  }

  /** The entry of a packable field on the wire. */
  function EncodeScalar(f: Field, n: int): seq<byte>
    requires f.kind.Packable()
  {
    match f.kind
    case SVarint => EncodeVarint(ZigZag(n))
    case Fixed32 => LittleEndian(n % TWO32, 4)
    case Fixed64 => LittleEndian(n % TWO64, 8)
    case _ => EncodeVarint(U64(n))
  }

  function EncodeItem(f: Field, v: Value): seq<byte>
    decreases f, 0
  {
    match f.kind
    case Bytes | FixedBytes => LenPrefixed(AsBlob(v))
    case String => LenPrefixed(CStr(AsBlob(v)))
    case Message(sub) => LenPrefixed(EncodeMsg(sub, AsMsg(v)))
    case _ => EncodeScalar(f, AsInt(v))
  }

  /** pb_check_proto3_default_value: whether the field counts as not set. */
  predicate IsDefault(f: Field, s: Slot, which: map<nat, nat>)
    decreases f, 0
  {
    match f.rule
    case Required => false
    case Repeated => s.count == 0
    case FixedCount => false
    case OneOf(g) => WhichOf(Msg([], which), g) == 0
    case Optional => !s.has
    case Singular =>
      var v := ItemAt(s, 0);
      match f.kind
      case Bytes => AsBlob(v) == []
      case String => CStr(AsBlob(v)) == []
      case FixedBytes => f.dataSize == 0
      case Message(sub) => AllDefault(sub, AsMsg(v), 0)
      case _ => AsInt(v) == 0
  }

  predicate AllDefault(fields: seq<Field>, m: Msg, i: nat)
    decreases fields, |fields| - i
  {
    i >= |fields| || (IsDefault(fields[i], SlotAt(m, i), m.which) && AllDefault(fields, m, i + 1))
  }

  lemma {:induction false} AllDefaultMeans(fields: seq<Field>, m: Msg, i: nat)
    ensures AllDefault(fields, m, i) <==>
            forall k | i <= k < |fields| :: IsDefault(fields[k], SlotAt(m, k), m.which)
    decreases |fields| - i
  {
    if i < |fields| {
      AllDefaultMeans(fields, m, i + 1);
    }
  }

  /** Whether the field goes out as one tag and one entry. */
  predicate Present(f: Field, s: Slot, which: map<nat, nat>) {
    match f.rule
    case Required => true
    case Optional => s.has
    case Singular => !IsDefault(f, s, which)
    case OneOf(g) => WhichOf(Msg([], which), g) == f.tag
    case _ => false
  }

  /** The entries of an array that are in use. */
  function Used(f: Field, s: Slot): seq<Value> {
    if f.rule.Repeated? && s.count <= |s.items| then s.items[..s.count] else s.items
  }

  function EncodePacked(f: Field, items: seq<Value>): seq<byte>
    requires f.kind.Packable()
  {
    if items == [] then [] else EncodeScalar(f, AsInt(items[0])) + EncodePacked(f, items[1..])
  }

  function EncodeUnpacked(f: Field, items: seq<Value>): seq<byte>
    decreases f, 1, |items|
  {
    if items == [] then [] else FieldTag(f) + EncodeItem(f, items[0]) + EncodeUnpacked(f, items[1..])
  }

  function EncodeArray(f: Field, items: seq<Value>): seq<byte>
    decreases f, 2
  {
    if items == [] then []
    else if f.kind.Packable() then EncodeTag(f.tag, WT_STRING) + LenPrefixed(EncodePacked(f, items))
    else EncodeUnpacked(f, items)
  }

  function EncodeField(f: Field, s: Slot, which: map<nat, nat>): seq<byte>
    decreases f, 3
  {
    if f.rule.Array() then EncodeArray(f, Used(f, s))
    else if Present(f, s, which) then FieldTag(f) + EncodeItem(f, ItemAt(s, 0))
    else []
  }

  function EncodeFrom(fields: seq<Field>, m: Msg, i: nat): seq<byte>
    decreases fields, 0, |fields| - i
  {
    if i >= |fields| then []
    else EncodeField(fields[i], SlotAt(m, i), m.which) + EncodeFrom(fields, m, i + 1)
  }

  /** The bytes pb_encode writes for |m|. */
  function EncodeMsg(fields: seq<Field>, m: Msg): seq<byte>
    decreases fields, 1
  {
    EncodeFrom(fields, m, 0)
  }

  // ----- what the encoder refuses -----

  predicate IntSize(n: nat) {
    n == 1 || n == 2 || n == 4 || n == 8
  }

  predicate ItemOk(f: Field, v: Value)
    decreases f, 0
  {
    match f.kind
    case Varint | UVarint | SVarint => IntSize(f.dataSize)
    case Bytes => |AsBlob(v)| + BYTES_HEADER <= f.dataSize
    case Message(sub) => MsgOkFrom(sub, AsMsg(v), 0)
    case _ => true
  }

  predicate ItemsOk(f: Field, items: seq<Value>)
    decreases f, 1
  {
    forall j | 0 <= j < |items| :: ItemOk(f, items[j])
  }

  predicate FieldOk(f: Field, s: Slot, which: map<nat, nat>)
    decreases f, 2
  {
    if f.rule.Array() then (f.rule.Repeated? ==> s.count <= f.arraySize) && ItemsOk(f, Used(f, s))
    else Present(f, s, which) ==> ItemOk(f, ItemAt(s, 0))
  }

  predicate MsgOkFrom(fields: seq<Field>, m: Msg, i: nat)
    decreases fields, |fields| - i
  {
    i >= |fields| || (FieldOk(fields[i], SlotAt(m, i), m.which) && MsgOkFrom(fields, m, i + 1))
  }

  /** The encoder finds no fault with |m| itself; only room in the stream can fail it. */
  predicate MsgOk(fields: seq<Field>, m: Msg) {
    MsgOkFrom(fields, m, 0)
  }
}
