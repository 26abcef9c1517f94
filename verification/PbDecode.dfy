/** What the nanopb decoder does to a message structure, as functions of the bytes.
    Every function is total: on any input it yields a result or an error. */
module PbDecode {
  import opened Common
  import opened PbWire
  import opened PbSchema

  // ----- scalars -----

  /** 2^(8n - 1) for the integer sizes a field may have, 0 for any other size. */
  function HalfRange(size: nat): int {
    match size
    case 1 => 0x80
    case 2 => 0x8000
    case 4 => TWO31
    case 8 => TWO63
    case _ => 0
  }

  predicate FitsSigned(n: int, size: nat) {
    -HalfRange(size) <= n < HalfRange(size)
  }

  predicate FitsUnsigned(n: int, size: nat) {
    0 <= n < 2 * HalfRange(size)
  }

  /** The C cast |(int32_t)value|. */
  function Int32(u: nat): int {
    var low := u % TWO32;
    if low < TWO31 then low else low - TWO32
  }

  function Take(bs: seq<byte>, n: nat): (r: Res<seq<byte>>)
    ensures r.Ok? <==> n <= |bs|
    ensures r.Ok? ==> |r.v| == n && bs == r.v + r.rest
  {
    if |bs| < n then Bad else Ok(bs[..n], bs[n..])
  }

  function Keep(ok: bool, n: int, rest: seq<byte>): Res<int> {
    if ok then Ok(n, rest) else Bad
  }

  /** pb_dec_varint: up to 32 bits the value is cast to |int32_t| before its range is checked. */
  function DecodeSigned(size: nat, bs: seq<byte>): (r: Res<int>)
    ensures r.Ok? ==> |r.rest| < |bs|
  {
    match Varint64(bs)
    case Bad => Bad
    case Ok(u, rest) =>
      var n := if size == 8 then Int64(u) else Int32(u);
      Keep(FitsSigned(n, size), n, rest)
  }

  function Word(bs: seq<byte>, len: nat): (r: Res<int>)
    requires len > 0
    ensures r.Ok? ==> |r.rest| < |bs|
  {
    match Take(bs, len)
    case Bad => Bad
    case Ok(word, rest) => Ok(FromLittleEndian(word), rest)
  }

  function DecodeScalar(f: Field, bs: seq<byte>): (r: Res<int>)
    requires f.kind.Packable()
    ensures r.Ok? ==> |r.rest| < |bs|
  {
    match f.kind
    case Varint => DecodeSigned(f.dataSize, bs)
    case UVarint =>
      (match Varint64(bs)
       case Bad => Bad
       case Ok(u, rest) => Keep(FitsUnsigned(u, f.dataSize), u, rest))
    case SVarint =>
      (match Varint64(bs)
       case Bad => Bad
       case Ok(u, rest) => Keep(FitsSigned(UnZigZag(u), f.dataSize), UnZigZag(u), rest))
    case Fixed32 => Word(bs, 4)
    case _ => Word(bs, 8)
  }

  /** A length prefix and the bytes it announces: the substream of a
      length-delimited field, and what is left of the stream after it. */
  function Payload(bs: seq<byte>): (r: Res<seq<byte>>)
    ensures r.Ok? ==> |r.v| + |r.rest| < |bs|
  {
    match Varint32(bs)
    case Bad => Bad
    case Ok(n, rest) => Take(rest, n)
  }

  // ----- skipping unknown fields -----

  function SkipVarint(bs: seq<byte>): (r: Res<()>)
    ensures r.Ok? ==> |r.rest| < |bs|
  {
    if bs == [] then Bad
    else if bs[0] < 128 then Ok((), bs[1..])
    else SkipVarint(bs[1..])
  }

  function Skip(wireType: nat, bs: seq<byte>): (r: Res<()>)
    ensures r.Ok? ==> |r.rest| < |bs|
  {
    if wireType == WT_VARINT then SkipVarint(bs)
    else if wireType == WT_64BIT then Drop(Take(bs, 8))
    else if wireType == WT_STRING then Drop(Payload(bs))
    else if wireType == WT_32BIT then Drop(Take(bs, 4))
    else Bad
  }

  function Drop<T>(r: Res<T>): Res<()> {
    if r.Ok? then Ok((), r.rest) else Bad
  }

  // ----- fields -----

  /** The decoder's working state: the structure being filled in, the fields
      that have occurred, and how far the current fixed-count array has come. */
  datatype DState = DState(m: Msg, seen: set<nat>, fixedField: Option<nat>, fixedSize: nat)

  function Start(m: Msg): DState {
    DState(m, {}, None, 0)
  }

  function PutSlot(m: Msg, i: nat, s: Slot): (r: Msg)
    ensures |r.slots| == |m.slots|
  {
    if i < |m.slots| then m.(slots := m.slots[i := s]) else m
  }

  function SetItem(items: seq<Value>, j: nat, v: Value): (r: seq<Value>)
    ensures |r| == |items|
  {
    if j < |items| then items[j := v] else items
  }

  datatype Run = Run(items: seq<Value>, count: nat)

  /** The entries of a packed array, appended after the first |count|. */
  function PackedLoop(f: Field, items: seq<Value>, count: nat, bs: seq<byte>): (r: Res<Run>)
    requires f.kind.Packable()
    decreases |bs|
    ensures r.Ok? ==> count <= r.v.count
  {
    if bs == [] then Ok(Run(items, count), [])
    else if count >= f.arraySize then Bad
    else
      match DecodeScalar(f, bs)
      case Bad => Bad
      case Ok(n, rest) => PackedLoop(f, SetItem(items, count, Int(n)), count + 1, rest)
  }

  /** One entry, decoded over the storage |prev|.  An array entry that is a
      submessage is initialised first; any other submessage is merged into. */
  function DecodeItem(f: Field, prev: Value, bs: seq<byte>): (r: Res<Value>)
    decreases |bs|, 0
    ensures r.Ok? ==> |r.rest| < |bs|
  {
    if f.kind.Packable() then
      match DecodeScalar(f, bs)
      case Bad => Bad
      case Ok(n, rest) => Ok(Int(n), rest)
    else
      match Payload(bs)
      case Bad => Bad
      case Ok(b, rest) =>
        match f.kind
        case Bytes =>
          if |b| + BYTES_HEADER <= f.dataSize then Ok(Blob(b), rest) else Bad
        case String =>
          if |b| + 1 <= f.dataSize then Ok(Blob(b), rest) else Bad
        case Message(sub) =>
          (match DecodeMsg(sub, if f.rule.Array() then Defaults(sub, AsMsg(prev)) else AsMsg(prev), b)
           case Bad => Bad
           case Ok(m, _) => Ok(Sub(m), rest))
        case _ =>
          if |b| == 0 then Ok(Blob(Zeros(f.dataSize)), rest)
          else if |b| == f.dataSize then Ok(Blob(b), rest)
          else Bad
  }

  /** decode_static_field for a field stored as a single entry. */
  function DecodeSingle(f: Field, m: Msg, i: nat, bs: seq<byte>): (r: Res<Msg>)
    decreases |bs|, 1
    ensures r.Ok? ==> |r.rest| < |bs|
  {
    var s := SlotAt(m, i);
    var prev := if f.rule.OneOf? && f.kind.Message? then Sub(Defaults(f.kind.fields, ZeroMsg(f.kind.fields)))
                else ItemAt(s, 0);
    match DecodeItem(f, prev, bs)
    case Bad => Bad
    case Ok(v, rest) =>
      var m' := PutSlot(m, i, Slot(f.rule.Optional? || s.has, s.count, SetItem(s.items, 0, v)));
      Ok(if f.rule.OneOf? then m'.(which := m'.which[f.rule.group := f.tag]) else m', rest)
  }

  /** decode_static_field for an array holding |count| entries so far. */
  function DecodeEntries(f: Field, items: seq<Value>, count: nat, wireType: nat, bs: seq<byte>): (r: Res<Run>)
    decreases |bs|, 1
    ensures r.Ok? ==> |r.rest| < |bs|
  {
    if wireType == WT_STRING && f.kind.Packable() then
      match Payload(bs)
      case Bad => Bad
      case Ok(b, rest) =>
        (match PackedLoop(f, items, count, b)
         case Bad => Bad
         case Ok(run, _) => Ok(run, rest))
    else if count >= f.arraySize then Bad
    else
      match DecodeItem(f, EntryAt(items, count), bs)
      case Bad => Bad
      case Ok(v, rest) => Ok(Run(SetItem(items, count, v), count + 1), rest)
  }

  /** Turning to fixed-count array |i|: the array decoded before it must be complete. */
  function SwitchFixed(fields: seq<Field>, st: DState, i: nat): Option<DState> {
    if st.fixedField == Some(i) then Some(st)
    else if !FixedComplete(fields, st) then None
    else Some(st.(fixedField := Some(i), fixedSize := 0))
  }

  predicate FixedComplete(fields: seq<Field>, st: DState) {
    match st.fixedField
    case None => true
    case Some(k) => k < |fields| && st.fixedSize == fields[k].arraySize
  }

  function DecodeField(fields: seq<Field>, st0: DState, i: nat, wireType: nat, bs: seq<byte>): (r: Res<DState>)
    requires i < |fields|
    decreases |bs|, 2
    ensures r.Ok? ==> |r.rest| < |bs|
  {
    var f := fields[i];
    var st := st0.(seen := st0.seen + {i});
    var s := SlotAt(st.m, i);
    match f.rule
    case Repeated =>
      (match DecodeEntries(f, s.items, s.count, wireType, bs)
       case Bad => Bad
       case Ok(run, rest) => Ok(st.(m := PutSlot(st.m, i, Slot(s.has, run.count, run.items))), rest))
    case FixedCount =>
      (match SwitchFixed(fields, st, i)
       case None => Bad
       case Some(st') =>
         match DecodeEntries(f, s.items, st'.fixedSize, wireType, bs)
         case Bad => Bad
         case Ok(run, rest) =>
           Ok(st'.(m := PutSlot(st.m, i, s.(items := run.items)), fixedSize := run.count), rest))
    case _ =>
      match DecodeSingle(f, st.m, i, bs)
      case Bad => Bad
      case Ok(m, rest) => Ok(st.(m := m), rest)
  }

  // ----- messages -----

  /** One field off the front of |bs|: known fields are stored, others skipped.  In a
      message type without fields the tag 0 matches the end marker, which cannot be decoded. */
  function Step(fields: seq<Field>, st: DState, key: nat, bs: seq<byte>): (r: Res<DState>)
    decreases |bs|, 3
    ensures r.Ok? ==> |r.rest| < |bs|
  {
    var i := Find(fields, key / 8);
    if i < |fields| then DecodeField(fields, st, i, key % 8, bs)
    else if fields == [] && key / 8 == 0 then Bad
    else
      match Skip(key % 8, bs)
      case Bad => Bad
      case Ok(_, rest) => Ok(st, rest)
  }

  /** The loop of pb_decode_noinit; a key of zero ends the message early. */
  function DecodeLoop(fields: seq<Field>, st: DState, bs: seq<byte>): (r: Res<DState>)
    decreases |bs|, 4
    ensures r.Ok? ==> |r.rest| <= |bs|
  {
    if bs == [] then Ok(st, [])
    else
      match Varint32(bs)
      case Bad => Bad
      case Ok(key, body) =>
        if key == 0 then Ok(st, body)
        else
          match Step(fields, st, key, body)
          case Bad => Bad
          case Ok(st', rest) => DecodeLoop(fields, st', rest)
  }

  /** Number of required fields before field |i|. */
  function RequiredBefore(fields: seq<Field>, i: nat): (n: nat)
    requires i <= |fields|
    ensures n <= i
  {
    if i == 0 then 0
    else RequiredBefore(fields, i - 1) + if fields[i - 1].rule.Required? then 1 else 0
  }

  predicate TrackedRequired(fields: seq<Field>, i: nat) {
    i < |fields| && fields[i].rule.Required? && RequiredBefore(fields, i) < MAX_REQUIRED
  }

  predicate RequiredSeen(fields: seq<Field>, seen: set<nat>) {
    forall i | 0 <= i < |fields| :: TrackedRequired(fields, i) ==> i in seen
  }

  /** pb_decode_noinit. */
  function DecodeMsg(fields: seq<Field>, m: Msg, bs: seq<byte>): (r: Res<Msg>)
    decreases |bs|, 5
    ensures r.Ok? ==> |r.rest| <= |bs|
  {
    match DecodeLoop(fields, Start(m), bs)
    case Bad => Bad
    case Ok(st, rest) =>
      if FixedComplete(fields, st) && RequiredSeen(fields, st.seen) then Ok(st.m, rest) else Bad
  }
}
