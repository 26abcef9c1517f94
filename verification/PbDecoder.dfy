/** The decoder of pb_decode.c, running on a stream.  Each method is proved
    against the function of module PbDecode that says what it reads; together
    with modules PbProject and PbLaws this carries the laws over to the code. */
module PbDecoder {
  import opened Common
  import opened Bits
  import opened PbWire
  import opened PbSchema
  import opened PbDecode
  import opened PbInput
  import opened PbIter
  import opened PbSeen

  /** What a generated field table guarantees: tags are unique and not zero. */
  ghost predicate Table(fields: seq<Field>)
    decreases fields, 0
  {
    UniqueTags(fields) && forall i | 0 <= i < |fields| :: fields[i].tag != 0 && SubTable(fields[i])
  }

  ghost predicate SubTable(f: Field)
    decreases f, 0
  {
    f.kind.Message? ==> Table(f.kind.fields)
  }

  // ----- defaults -----

  /** pb_field_set_to_default. */
  method SetFieldToDefault(f: Field, slot: Slot) returns (s: Slot)
    requires SubTable(f)
    ensures s == DefaultSlot(f, slot)
    decreases f, 1
  {
    var initData := true;
    s := slot;
    if f.rule.Optional? {
      s := s.(has := false);
    } else if f.rule.Array() || f.rule.OneOf? {
      if f.rule.Array() {
        s := s.(count := 0);
      }
      s := s.(items := Storage(f, slot));
      initData := false;
    }
    if initData {
      if f.kind.Message? {
        var sub := SetToDefaults(f.kind.fields, AsMsg(ItemAt(slot, 0)));
        s := s.(items := [Sub(sub)]);
      } else if f.dflt.Some? {
        s := s.(items := [f.dflt.value]);
      } else {
        s := s.(items := [ZeroValue(f)]);
      }
    }
  }

  /** pb_message_set_to_defaults. */
  method SetToDefaults(fields: seq<Field>, dest: Msg) returns (m: Msg)
    requires Table(fields)
    ensures m == Defaults(fields, dest)
    decreases fields, 0
  {
    var iter := new FieldIter(fields);
    var any := iter.Begin();
    m := Msg([], map[]);
    while any
      invariant iter.Valid() && iter.fields == fields
      invariant if any then iter.pos < |fields| && |m.slots| == iter.pos else |m.slots| == |fields|
      invariant m.which == map[]
      invariant forall i | 0 <= i < |m.slots| :: m.slots[i] == DefaultSlot(fields[i], SlotAt(dest, i))
      decreases if any then 1 else 0, |fields| - iter.pos
    {
      assert fields[iter.pos] in fields;
      var s := SetFieldToDefault(fields[iter.pos], SlotAt(dest, iter.pos));
      m := m.(slots := m.slots + [s]);
      any := iter.Next();
    }
  }

  // ----- entries -----

  /** pb_dec_varint. */
  method DecVarint(s: IStream, dataSize: nat) returns (ok: bool, n: int)
    requires s.Valid()
    modifies s
    ensures s.Valid() && s.state + s.bytesLeft == old(s.state + s.bytesLeft)
    ensures ok == DecodeSigned(dataSize, old(s.Left())).Ok?
    ensures ok ==> DecodeSigned(dataSize, old(s.Left())) == Ok(n, s.Left())
  {
    var got, value := s.DecodeVarint();
    if !got {
      return false, 0;
    }
    n := if dataSize == 8 then Int64(value) else Int32(value);
    ok := (dataSize == 8 || dataSize == 4 || dataSize == 2 || dataSize == 1) && FitsSigned(n, dataSize);
  }

  /** pb_dec_uvarint. */
  method DecUVarint(s: IStream, f: Field) returns (ok: bool, n: int)
    requires s.Valid() && f.kind.UVarint?
    modifies s
    ensures s.Valid() && s.state + s.bytesLeft == old(s.state + s.bytesLeft)
    ensures ok == DecodeScalar(f, old(s.Left())).Ok?
    ensures ok ==> DecodeScalar(f, old(s.Left())) == Ok(n, s.Left())
  {
    var got, value := s.DecodeVarint();
    if !got {
      return false, 0;
    }
    n := value;
    ok := FitsUnsigned(n, f.dataSize);
  }

  /** pb_dec_svarint. */
  method DecSVarint(s: IStream, f: Field) returns (ok: bool, n: int)
    requires s.Valid() && f.kind.SVarint?
    modifies s
    ensures s.Valid() && s.state + s.bytesLeft == old(s.state + s.bytesLeft)
    ensures ok == DecodeScalar(f, old(s.Left())).Ok?
    ensures ok ==> DecodeScalar(f, old(s.Left())) == Ok(n, s.Left())
  {
    var got, value := s.DecodeVarint();
    if !got {
      return false, 0;
    }
    n := if value % 2 == 1 then Int64(TWO64 - 1 - value / 2) else Int64(value / 2);
    ok := FitsSigned(n, f.dataSize);
  }

  /** Four bytes shifted into place. */
  function Join(b0: nat, b1: nat, b2: nat, b3: nat): nat {
    b0 + 0x100 * b1 + 0x1_0000 * b2 + 0x100_0000 * b3
  }

  lemma FourBytes(b: seq<byte>)
    requires |b| == 4
    ensures FromLittleEndian(b) == Join(b[0], b[1], b[2], b[3])
  {
    assert b[1..][1..] == b[2..] && b[2..][1..] == b[3..] && b[3..][1..] == [];
    assert FromLittleEndian(b[3..]) == b[3];
    assert FromLittleEndian(b[2..]) == b[2] + 0x100 * FromLittleEndian(b[3..]);
  }

  lemma EightBytes(b: seq<byte>)
    requires |b| == 8
    ensures FromLittleEndian(b) == FromLittleEndian(b[..4]) + TWO32 * FromLittleEndian(b[4..])
  {
    FourBytes(b[..4]);
    assert b[1..][1..] == b[2..] && b[2..][1..] == b[3..] && b[3..][1..] == b[4..];
    assert FromLittleEndian(b[3..]) == b[3] + 0x100 * FromLittleEndian(b[4..]);
    assert FromLittleEndian(b[2..]) == b[2] + 0x100 * FromLittleEndian(b[3..]);
    assert FromLittleEndian(b[1..]) == b[1] + 0x100 * FromLittleEndian(b[2..]);
  }

  /** pb_decode_fixed32 and pb_decode_fixed64. */
  method DecFixed(s: IStream, len: nat) returns (ok: bool, n: int)
    requires s.Valid() && (len == 4 || len == 8)
    modifies s
    ensures s.Valid() && s.state + s.bytesLeft == old(s.state + s.bytesLeft)
    ensures ok == Word(old(s.Left()), len).Ok?
    ensures ok ==> Word(old(s.Left()), len) == Ok(n, s.Left())
  {
    var got, b := s.Read(len);
    if !got {
      return false, 0;
    }
    ok := true;
    n := Join(b[0], b[1], b[2], b[3]);
    FourBytes(b[..4]);
    if len == 8 {
      n := n + TWO32 * Join(b[4], b[5], b[6], b[7]);
      FourBytes(b[4..]);
      EightBytes(b);
    } else {
      assert b[..4] == b;
    }
  }

  /** The decoder of a packable type. */
  method DecScalar(s: IStream, f: Field) returns (ok: bool, n: int)
    requires s.Valid() && f.kind.Packable()
    modifies s
    ensures s.Valid() && s.state + s.bytesLeft == old(s.state + s.bytesLeft)
    ensures ok == DecodeScalar(f, old(s.Left())).Ok?
    ensures ok ==> DecodeScalar(f, old(s.Left())) == Ok(n, s.Left())
  {
    if f.kind.Varint? {
      ok, n := DecVarint(s, f.dataSize);
    } else if f.kind.UVarint? {
      ok, n := DecUVarint(s, f);
    } else if f.kind.SVarint? {
      ok, n := DecSVarint(s, f);
    } else {
      ok, n := DecFixed(s, if f.kind.Fixed32? then 4 else 8);
    }
  }

  /** pb_dec_bytes, pb_dec_string and pb_dec_fixed_length_bytes. */
  method DecBlob(s: IStream, f: Field, prev: Value) returns (ok: bool, v: Value)
    requires s.Valid() && (f.kind.Bytes? || f.kind.String? || f.kind.FixedBytes?)
    modifies s
    ensures s.Valid() && s.state + s.bytesLeft == old(s.state + s.bytesLeft)
    ensures ok == DecodeItem(f, prev, old(s.Left())).Ok?
    ensures ok ==> DecodeItem(f, prev, old(s.Left())) == Ok(v, s.Left())
  {
    var got, size, _ := s.DecodeVarint32Eof();
    v := Blob([]);
    if !got {
      return false, v;
    }
    if f.kind.FixedBytes? && size == 0 {
      return true, Blob(Zeros(f.dataSize));
    }
    if if f.kind.FixedBytes? then size != f.dataSize
       else (if f.kind.Bytes? then BYTES_HEADER else 1) + size > f.dataSize {
      return false, v;
    }
    var whole, b := s.Read(size);
    return whole, Blob(b);
  }

  /** The decoder of any type; a submessage runs the message decoder on a substream. */
  method DecItem(s: IStream, f: Field, prev: Value) returns (ok: bool, v: Value)
    requires s.Valid() && SubTable(f)
    modifies s
    ensures s.Valid() && s.state + s.bytesLeft <= old(s.state + s.bytesLeft)
    ensures ok == DecodeItem(f, prev, old(s.Left())).Ok?
    ensures ok ==> DecodeItem(f, prev, old(s.Left())) == Ok(v, s.Left())
    ensures ok ==> s.state + s.bytesLeft == old(s.state + s.bytesLeft)
    decreases s.bytesLeft, 2
  {
    if f.kind.Packable() {
      var n;
      ok, n := DecScalar(s, f);
      v := Int(n);
    } else if f.kind.Message? {
      ok, v := DecSubmessage(s, f, prev);
    } else {
      ok, v := DecBlob(s, f, prev);
    }
  }

  /** Where the decoder of a submessage starts from: a new array entry is initialised,
      other submessages have been already and are merged into. */
  function SubmessageStart(f: Field, prev: Value): Msg
    requires f.kind.Message?
  {
    if f.rule.Array() then Defaults(f.kind.fields, AsMsg(prev)) else AsMsg(prev)
  }

  method DecodeSubstream(substream: IStream, f: Field, prev: Value) returns (ok: bool, m: Msg)
    requires substream.Valid() && f.kind.Message? && SubTable(f)
    modifies substream
    ensures substream.Valid()
    ensures substream.state + substream.bytesLeft <= old(substream.state + substream.bytesLeft)
    ensures var r := DecodeMsg(f.kind.fields, SubmessageStart(f, prev), old(substream.Left()));
            ok == r.Ok? && (ok ==> m == r.v)
    ensures ok ==> substream.state + substream.bytesLeft == old(substream.state + substream.bytesLeft)
    decreases substream.bytesLeft, 10
  {
    if f.rule.Array() {
      ok, m := Decode(substream, f.kind.fields, AsMsg(prev));
    } else {
      ok, m := DecodeNoinit(substream, f.kind.fields, AsMsg(prev));
    }
  }

  lemma MessageItem(f: Field, prev: Value, bs: seq<byte>)
    requires f.kind.Message?
    ensures Payload(bs).Bad? ==> DecodeItem(f, prev, bs).Bad?
    ensures Payload(bs).Ok? ==>
              var r := DecodeMsg(f.kind.fields, SubmessageStart(f, prev), Payload(bs).v);
              DecodeItem(f, prev, bs) == if r.Ok? then Ok(Sub(r.v), Payload(bs).rest) else Bad
  {
  }

  /** The substream is opened, decoded from, and closed whatever came of it. */
  method DecodeDelimited(s: IStream, f: Field, prev: Value) returns (ok: bool, m: Msg)
    requires s.Valid() && f.kind.Message? && SubTable(f)
    modifies s
    ensures s.Valid() && s.state + s.bytesLeft <= old(s.state + s.bytesLeft)
    ensures var p := Payload(old(s.Left()));
            if p.Bad? then !ok
            else var r := DecodeMsg(f.kind.fields, SubmessageStart(f, prev), p.v);
              ok == r.Ok? && (ok ==> m == r.v && s.Left() == p.rest)
    ensures ok ==> s.state + s.bytesLeft == old(s.state + s.bytesLeft)
    decreases s.bytesLeft, 0
  {
    m := AsMsg(prev);
    var made, substream := s.MakeSubstream();
    if !made {
      return false, m;
    }
    var status;
    status, m := DecodeSubstream(substream, f, prev);
    var closed := s.CloseSubstream(substream);
    return closed && status, m;
  }

  /** pb_dec_submessage. */
  method DecSubmessage(s: IStream, f: Field, prev: Value) returns (ok: bool, v: Value)
    requires s.Valid() && f.kind.Message? && SubTable(f)
    modifies s
    ensures s.Valid() && s.state + s.bytesLeft <= old(s.state + s.bytesLeft)
    ensures ok == DecodeItem(f, prev, old(s.Left())).Ok?
    ensures ok ==> DecodeItem(f, prev, old(s.Left())) == Ok(v, s.Left())
    ensures ok ==> s.state + s.bytesLeft == old(s.state + s.bytesLeft)
    decreases s.bytesLeft, 1
  {
    MessageItem(f, prev, s.Left());
    var m;
    ok, m := DecodeDelimited(s, f, prev);
    v := Sub(m);
  }

  /** pb_decode. */
  method Decode(s: IStream, fields: seq<Field>, dest: Msg) returns (ok: bool, m: Msg)
    requires s.Valid() && Table(fields)
    modifies s
    ensures s.Valid() && s.state + s.bytesLeft <= old(s.state + s.bytesLeft)
    ensures ok == DecodeMsg(fields, Defaults(fields, dest), old(s.Left())).Ok?
    ensures ok ==> DecodeMsg(fields, Defaults(fields, dest), old(s.Left())) == Ok(m, s.Left())
    ensures ok ==> s.state + s.bytesLeft == old(s.state + s.bytesLeft)
    decreases s.bytesLeft, 9
  {
    m := SetToDefaults(fields, dest);
    ok, m := DecodeNoinit(s, fields, m);
  }

  // ----- fields -----

  lemma PackedPayload(f: Field, items: seq<Value>, size: nat, bs: seq<byte>)
    requires f.kind.Packable()
    ensures var p, r := Payload(bs), DecodeEntries(f, items, size, WT_STRING, bs);
            if p.Bad? then r.Bad?
            else r == if PackedLoop(f, items, size, p.v).Ok? then Ok(PackedLoop(f, items, size, p.v).v, p.rest) else Bad
  {
  }

  /** The packed branch of decode_static_field: |size| entries are in use so far. */
  method DecodePacked(s: IStream, f: Field, items0: seq<Value>, size0: nat)
      returns (ok: bool, items: seq<Value>, size: nat)
    requires s.Valid() && f.kind.Packable()
    modifies s
    ensures s.Valid() && s.state + s.bytesLeft <= old(s.state + s.bytesLeft)
    ensures ok == DecodeEntries(f, items0, size0, WT_STRING, old(s.Left())).Ok?
    ensures ok ==> DecodeEntries(f, items0, size0, WT_STRING, old(s.Left())) == Ok(Run(items, size), s.Left())
    ensures ok ==> s.state + s.bytesLeft == old(s.state + s.bytesLeft)
  {
    items, size := items0, size0;
    var made, substream := s.MakeSubstream();
    PackedPayload(f, items0, size0, old(s.Left()));
    if !made {
      return false, items, size;
    }
    var status;
    status, items, size := PackedEntries(substream, f, items0, size0);
    if substream.bytesLeft != 0 {
      return false, items, size;
    }
    var closed := s.CloseSubstream(substream);
    return closed && status, items, size;
  }

  /** The loop over the substream of a packed array. */
  method PackedEntries(substream: IStream, f: Field, items0: seq<Value>, size0: nat)
      returns (status: bool, items: seq<Value>, size: nat)
    requires substream.Valid() && f.kind.Packable()
    modifies substream
    ensures substream.Valid()
    ensures substream.state + substream.bytesLeft == old(substream.state + substream.bytesLeft)
    ensures var r := PackedLoop(f, items0, size0, old(substream.Left()));
            && r.Ok? == (status && substream.bytesLeft == 0)
            && (r.Ok? ==> r.v == Run(items, size))
  {
    items, size, status := items0, size0, true;
    while substream.bytesLeft > 0 && size < f.arraySize
      invariant substream.Valid()
      invariant substream.state + substream.bytesLeft == old(substream.state + substream.bytesLeft)
      invariant PackedLoop(f, items0, size0, old(substream.Left())) == PackedLoop(f, items, size, substream.Left())
      decreases substream.bytesLeft
    {
      var got, n := DecScalar(substream, f);
      if !got {
        status := false;
        break;
      }
      items := SetItem(items, size, Int(n));
      size := size + 1;
    }
  }

  /** The new structure, and the new count of an array. */
  function StaticField(f: Field, m: Msg, i: nat, size: nat, wireType: nat, bs: seq<byte>): Res<(Msg, nat)> {
    if f.rule.Array() then
      var slot := SlotAt(m, i);
      match DecodeEntries(f, slot.items, size, wireType, bs)
      case Bad => Bad
      case Ok(run, rest) => Ok((PutSlot(m, i, slot.(items := run.items)), run.count), rest)
    else
      match DecodeSingle(f, m, i, bs)
      case Bad => Bad
      case Ok(m', rest) => Ok((m', size), rest)
  }

  /** decode_static_field for field |i|, whose count is |size| entries if it is an array. */
  method DecodeStaticField(s: IStream, f: Field, m0: Msg, i: nat, size0: nat, wireType: nat)
      returns (ok: bool, m: Msg, size: nat)
    requires s.Valid() && SubTable(f)
    modifies s
    ensures s.Valid() && s.state + s.bytesLeft <= old(s.state + s.bytesLeft)
    ensures ok == StaticField(f, m0, i, size0, wireType, old(s.Left())).Ok?
    ensures ok ==> StaticField(f, m0, i, size0, wireType, old(s.Left())) == Ok((m, size), s.Left())
    ensures ok ==> s.state + s.bytesLeft == old(s.state + s.bytesLeft)
    decreases s.bytesLeft, 3
  {
    m, size := m0, size0;
    var slot := SlotAt(m0, i);
    if f.rule.Array() {
      if wireType == WT_STRING && f.kind.Packable() {
        var items;
        ok, items, size := DecodePacked(s, f, slot.items, size0);
        m := PutSlot(m0, i, slot.(items := items));
      } else {
        if size0 >= f.arraySize {
          return false, m, size;
        }
        var v;
        ok, v := DecItem(s, f, EntryAt(slot.items, size0));
        m := PutSlot(m0, i, slot.(items := SetItem(slot.items, size0, v)));
        size := size0 + 1;
      }
    } else {
      var prev := ItemAt(slot, 0);
      if f.rule.OneOf? && f.kind.Message? {
        var blank := SetToDefaults(f.kind.fields, ZeroMsg(f.kind.fields));
        prev := Sub(blank);
      }
      var v;
      ok, v := DecItem(s, f, prev);
      m := PutSlot(m0, i, Slot(f.rule.Optional? || slot.has, slot.count, SetItem(slot.items, 0, v)));
      if f.rule.OneOf? {
        m := m.(which := m.which[f.rule.group := f.tag]);
      }
    }
  }

  // ----- the required fields -----

  lemma {:induction false} RequiredMonotone(fields: seq<Field>, i: nat, k: nat)
    requires i <= k <= |fields|
    ensures RequiredBefore(fields, i) <= RequiredBefore(fields, k)
  {
    if i < k {
      RequiredMonotone(fields, i, k - 1);
    }
  }

  /** Required fields have their own index each ... */
  lemma RequiredDistinct(fields: seq<Field>, i: nat, k: nat)
    requires i < k <= |fields| && fields[i].rule.Required?
    ensures RequiredBefore(fields, i) < RequiredBefore(fields, k)
  {
    RequiredMonotone(fields, i + 1, k);
  }

  /** ... and together use all of them. */
  lemma {:induction false} RequiredOnto(fields: seq<Field>, n: nat, r: nat) returns (i: nat)
    requires n <= |fields| && r < RequiredBefore(fields, n)
    ensures i < n && fields[i].rule.Required? && RequiredBefore(fields, i) == r
  {
    if r == RequiredBefore(fields, n - 1) {
      i := n - 1;
    } else {
      i := RequiredOnto(fields, n - 1, r);
    }
  }

  /** |words| records which tracked required fields are in |seen|. */
  ghost predicate Records(fields: seq<Field>, seen: set<nat>, words: seq<nat>) {
    && Words(words)
    && (forall i | 0 <= i < |fields| ::
          TrackedRequired(fields, i) ==> Noted(words, RequiredBefore(fields, i)) == (i in seen))
    && (forall r | RequiredBefore(fields, |fields|) <= r < 64 :: !Noted(words, r))
  }

  lemma Recorded(fields: seq<Field>, seen: set<nat>, words: seq<nat>, i: nat)
    requires Records(fields, seen, words) && TrackedRequired(fields, i)
    ensures Records(fields, seen + {i}, Note(words, RequiredBefore(fields, i)))
  {
    var r := RequiredBefore(fields, i);
    forall j | 0 <= j < 64
      ensures Words(Note(words, r)) && (Noted(Note(words, r), j) <==> Noted(words, j) || j == r)
    {
      NoteAdds(words, r, j);
    }
    RequiredDistinct(fields, i, |fields|);
    forall k | 0 <= k < |fields| && TrackedRequired(fields, k) && k != i
      ensures RequiredBefore(fields, k) != r
    {
      if k < i {
        RequiredDistinct(fields, k, i);
      } else {
        RequiredDistinct(fields, i, k);
      }
    }
  }

  lemma NotRecorded(fields: seq<Field>, seen: set<nat>, words: seq<nat>, i: nat)
    requires Records(fields, seen, words) && !TrackedRequired(fields, i)
    ensures Records(fields, seen + {i}, words)
  {
  }

  /** The required fields have all been seen exactly when they are noted. */
  lemma AllRecorded(fields: seq<Field>, seen: set<nat>, words: seq<nat>)
    requires Records(fields, seen, words)
    ensures RequiredSeen(fields, seen) <==>
            forall r | 0 <= r < 64 :: r < RequiredBefore(fields, |fields|) ==> Noted(words, r)
  {
    forall i | 0 <= i < |fields| && TrackedRequired(fields, i)
      ensures RequiredBefore(fields, i) < RequiredBefore(fields, |fields|)
    {
      RequiredDistinct(fields, i, |fields|);
    }
    forall r | 0 <= r < 64 && r < RequiredBefore(fields, |fields|)
      ensures RequiredSeen(fields, seen) ==> Noted(words, r)
    {
      var i := RequiredOnto(fields, |fields|, r);
      assert TrackedRequired(fields, i);
    }
  }

  /** The final check of pb_decode_noinit, from whatever position |iter| was left at. */
  method CheckRequired(iter: FieldIter, words: seq<nat>, ghost seen: set<nat>) returns (ok: bool)
    requires iter.Valid() && forall i | 0 <= i < |iter.fields| :: iter.fields[i].tag != 0
    requires Records(iter.fields, seen, words)
    modifies iter
    ensures ok == RequiredSeen(iter.fields, seen)
  {
    var count := CountRequired(iter);
    if count > MAX_REQUIRED {
      count := MAX_REQUIRED;
    }
    AllRecorded(iter.fields, seen, words);
    ok := CheckWords(words, count);
  }

  /** Seeking to the end of the table gives the number of required fields. */
  method CountRequired(iter: FieldIter) returns (count: nat)
    requires iter.Valid() && forall i | 0 <= i < |iter.fields| :: iter.fields[i].tag != 0
    modifies iter
    ensures count == RequiredBefore(iter.fields, |iter.fields|)
  {
    count := iter.requiredFieldIndex;
    var last := FieldAt(iter.fields, iter.pos);
    var more := iter.Next();
    ghost var at := if iter.fields == [] then 0 else if more then iter.pos - 1 else |iter.fields| - 1;
    while more
      invariant iter.Valid() && (more ==> iter.pos == at + 1 < |iter.fields|)
      invariant iter.fields != [] ==> at < |iter.fields| && (!more ==> at + 1 == |iter.fields|)
      invariant iter.fields == [] ==> !more && at == 0
      invariant count == RequiredBefore(iter.fields, at) && last == FieldAt(iter.fields, at)
      decreases if more then |iter.fields| - at else 0
    {
      count := iter.requiredFieldIndex;
      last := FieldAt(iter.fields, iter.pos);
      at := iter.pos;
      more := iter.Next();
    }
    if last.rule.Required? && FieldAt(iter.fields, iter.pos).tag != 0 {
      count := count + 1;
    }
  }

  /** The whole words first, then the remaining bits. */
  method CheckWords(words: seq<nat>, count: nat) returns (ok: bool)
    requires Words(words) && count <= 64 && forall r | count <= r < 64 :: !Noted(words, r)
    ensures ok <==> forall r | 0 <= r < count :: Noted(words, r)
  {
    var i := 0;
    while i < count / 32
      invariant i <= count / 32
      invariant forall r | 0 <= r < 32 * i :: Noted(words, r)
    {
      WordTest(words, i, 32);
      if words[i] != ALL_BITS {
        return false;
      }
      i := i + 1;
    }
    if count % 32 != 0 {
      WordTest(words, i, count % 32);
      if words[i] != Shr(ALL_BITS, 32 - count % 32) {
        return false;
      }
    }
    ok := true;
  }

  lemma WordTest(words: seq<nat>, i: nat, n: nat)
    requires Words(words) && i < 2 && n <= 32 && forall r | 32 * i + n <= r < 32 * i + 32 :: !Noted(words, r)
    ensures words[i] == Shr(ALL_BITS, 32 - n) <==> forall r | 32 * i <= r < 32 * i + n :: Noted(words, r)
    ensures Shr(ALL_BITS, 0) == ALL_BITS
  {
    forall j | n <= j < 32 ensures !Bit(words[i], j) {
      assert !Noted(words, 32 * i + j);
    }
    MaskTest(words[i], n);
    if forall j | 0 <= j < n :: Bit(words[i], j) {
      forall r | 32 * i <= r < 32 * i + n ensures Noted(words, r) {
        assert Bit(words[i], r - 32 * i);
      }
    }
    if forall r | 32 * i <= r < 32 * i + n :: Noted(words, r) {
      forall j | 0 <= j < n ensures Bit(words[i], j) {
        assert Noted(words, 32 * i + j);
      }
    }
  }

  // ----- messages -----

  function WithCount(m: Msg, i: nat, n: nat): Msg {
    PutSlot(m, i, SlotAt(m, i).(count := n))
  }

  /** Where the count of an array is kept makes the only difference between fields. */
  lemma FieldIsStatic(fields: seq<Field>, st: DState, i: nat, wireType: nat, bs: seq<byte>)
    requires i < |fields| && st.seen + {i} == st.seen
    ensures var f := fields[i];
            var size := SlotAt(st.m, i).count;
            var r := StaticField(f, st.m, i, size, wireType, bs);
            !f.rule.FixedCount? ==>
              DecodeField(fields, st, i, wireType, bs) ==
              if r.Bad? then Bad
              else Ok(st.(m := if f.rule.Repeated? then WithCount(r.v.0, i, r.v.1) else r.v.0), r.rest)
    ensures var f := fields[i];
            var st' := SwitchFixed(fields, st, i);
            f.rule.FixedCount? ==>
              DecodeField(fields, st, i, wireType, bs) ==
              if st'.None? then Bad
              else var r := StaticField(f, st.m, i, st'.value.fixedSize, wireType, bs);
                if r.Bad? then Bad else Ok(st'.value.(m := r.v.0, fixedSize := r.v.1), r.rest)
  {
    var f, slot := fields[i], SlotAt(st.m, i);
    if f.rule.Repeated? && i < |st.m.slots| {
      var r := DecodeEntries(f, slot.items, slot.count, wireType, bs);
      if r.Ok? {
        var a, b := slot.(items := r.v.items), Slot(slot.has, r.v.count, r.v.items);
        assert st.m.slots[i := a][i := b] == st.m.slots[i := b];
      }
    }
  }

  /** The local variables of pb_decode_noinit. */
  class Locals {
    const fields: seq<Field>
    var m: Msg
    var fieldsSeen: seq<nat>
    var fixedField: Option<nat>
    var fixedSize: nat
    ghost var seen: set<nat>

    ghost predicate Valid()
      reads this
    {
      && Table(fields)
      && (fixedField.Some? ==> fixedField.value < |fields|)
      && Records(fields, seen, fieldsSeen)
    }

    ghost function State(): DState
      reads this
    {
      DState(m, seen, fixedField, fixedSize)
    }

    constructor (fields: seq<Field>, dest: Msg)
      requires Table(fields)
      ensures Valid() && this.fields == fields && State() == Start(dest)
    {
      this.fields, m := fields, dest;
      fieldsSeen, fixedField, fixedSize := [0, 0], None, 0;
      seen := {};
      new;
      NothingSeen(fields);
    }

    /** Notes the field |iter| is at, if it is a required one that is tracked. */
    method MarkSeen(iter: FieldIter)
      requires Valid() && iter.Valid() && iter.fields == fields != []
      modifies this
      ensures Valid() && State() == old(State()).(seen := old(seen) + {iter.pos})
    {
      var r := iter.requiredFieldIndex;
      if fields[iter.pos].rule.Required? && r < MAX_REQUIRED {
        Recorded(fields, seen, fieldsSeen, iter.pos);
        fieldsSeen := Note(fieldsSeen, r);
      } else {
        NotRecorded(fields, seen, fieldsSeen, iter.pos);
      }
      seen := seen + {iter.pos};
    }

    /** Turns to fixed-count array |i|, unless another one is not complete yet. */
    method SwitchToFixed(i: nat) returns (ok: bool)
      requires Valid() && i < |fields|
      modifies this
      ensures Valid()
      ensures SwitchFixed(fields, old(State()), i) == if ok then Some(State()) else None
    {
      if fixedField != Some(i) {
        if fixedField.Some? && fixedSize != fields[fixedField.value].arraySize {
          return false;
        }
        fixedField, fixedSize := Some(i), 0;
      }
      ok := true;
    }

    /** Stores the entry or entries read for field |i| of the table; the count of a
        fixed-count array is kept in |fixedSize|. */
    method DecodeKnown(s: IStream, i: nat, wireType: nat) returns (ok: bool)
      requires Valid() && s.Valid() && i < |fields| && i in seen
      modifies this, s
      ensures Valid() && s.Valid() && s.state + s.bytesLeft <= old(s.state + s.bytesLeft)
      ensures var r := DecodeField(fields, old(State()), i, wireType, old(s.Left()));
              ok == r.Ok? && (ok ==> r == Ok(State(), s.Left()))
      ensures ok ==> s.state + s.bytesLeft == old(s.state + s.bytesLeft)
      decreases s.bytesLeft, 4
    {
      var f, size := fields[i], SlotAt(m, i).count;
      assert seen == seen + {i};
      FieldIsStatic(fields, State(), i, wireType, s.Left());
      if f.rule.FixedCount? {
        ok := SwitchToFixed(i);
        if !ok {
          return;
        }
        size := fixedSize;
      }
      ok, m, size := DecodeStaticField(s, f, m, i, size, wireType);
      if f.rule.FixedCount? {
        fixedSize := size;
      } else if f.rule.Repeated? {
        m := WithCount(m, i, size);
      }
    }

    /** The part of the loop after the key of a field in the table: |iter| is at the
        field, or at the terminator of a table without fields. */
    method DecodeFound(s: IStream, iter: FieldIter, ghost key: nat, wireType: nat) returns (ok: bool)
      requires Valid() && s.Valid() && iter.Valid() && iter.fields == fields && wireType == key % 8
      requires if fields == [] then key / 8 == 0 else iter.pos == Find(fields, key / 8)
      modifies this, s
      ensures Valid() && s.Valid() && s.state + s.bytesLeft <= old(s.state + s.bytesLeft)
      ensures var r := Step(fields, old(State()), key, old(s.Left()));
              ok == r.Ok? && (ok ==> r == Ok(State(), s.Left()))
      ensures ok ==> s.state + s.bytesLeft == old(s.state + s.bytesLeft)
      decreases s.bytesLeft, 5
    {
      if fields == [] {
        TerminatorCannotBeDecoded(m, wireType, s.Left());
        var size;
        ok, m, size := DecodeStaticField(s, TERMINATOR, m, 0, 0, wireType);
      } else {
        ghost var st := State();
        MarkSeen(iter);
        ok := DecodeKnown(s, iter.pos, wireType);
        assert st.seen + {iter.pos} + {iter.pos} == st.seen + {iter.pos};
      }
    }

    /** The part of the loop after the key: known fields are decoded, others skipped. */
    method AfterKey(s: IStream, iter: FieldIter, tag: nat, wireType: nat, ghost key: nat) returns (ok: bool)
      requires Valid() && s.Valid() && iter.Valid() && iter.fields == fields
      requires tag == key / 8 && wireType == key % 8
      modifies this, s, iter
      ensures Valid() && s.Valid() && iter.Valid() && s.state + s.bytesLeft <= old(s.state + s.bytesLeft)
      ensures var r := Step(fields, old(State()), key, old(s.Left()));
              ok == r.Ok? && (ok ==> r == Ok(State(), s.Left()))
      ensures ok ==> s.state + s.bytesLeft == old(s.state + s.bytesLeft)
      decreases s.bytesLeft, 6
    {
      ghost var from := iter.pos;
      var found := iter.FindTag(tag);
      if !found {
        NotFound(fields, tag);
        ok := s.SkipField(wireType);
      } else {
        if fields != [] {
          FindIgnoresPosition(fields, from, tag, iter.pos);
        }
        ok := DecodeFound(s, iter, key, wireType);
      }
    }

    /** The body of the loop; |more| is false when the end marker was read. */
    method DecodeOne(s: IStream, iter: FieldIter) returns (ok: bool, more: bool)
      requires Valid() && s.Valid() && iter.Valid() && iter.fields == fields && s.bytesLeft > 0
      modifies this, s, iter
      ensures Valid() && s.Valid() && iter.Valid() && s.state + s.bytesLeft <= old(s.state + s.bytesLeft)
      ensures var r := DecodeLoop(fields, old(State()), old(s.Left()));
              if !ok then r.Bad? else if more then r == DecodeLoop(fields, State(), s.Left()) else r == Ok(State(), s.Left())
      ensures ok ==> s.state + s.bytesLeft == old(s.state + s.bytesLeft) && s.bytesLeft < old(s.bytesLeft)
      decreases s.bytesLeft, 7
    {
      var got, wireType, tag, eof := s.DecodeTag();
      if !got {
        return eof, false;
      }
      LoopTakesStep(fields, old(State()), old(s.Left()));
      more := true;
      ok := AfterKey(s, iter, tag, wireType, Varint32(old(s.Left())).v);
    }
  }

  lemma LoopTakesStep(fields: seq<Field>, st: DState, bs: seq<byte>)
    requires bs != [] && Varint32(bs).Ok? && Varint32(bs).v != 0
    ensures var r := Step(fields, st, Varint32(bs).v, Varint32(bs).rest);
            DecodeLoop(fields, st, bs) == if r.Ok? then DecodeLoop(fields, r.v, r.rest) else Bad
  {
  }

  lemma NothingSeen(fields: seq<Field>)
    ensures Records(fields, {}, [0, 0])
  {
    forall r | 0 <= r < 64 ensures !Noted([0, 0], r) {
      NoneNoted(r);
    }
  }

  lemma TerminatorCannotBeDecoded(m: Msg, wireType: nat, bs: seq<byte>)
    ensures StaticField(TERMINATOR, m, 0, 0, wireType, bs).Bad?
  {
    assert DecodeItem(TERMINATOR, ItemAt(SlotAt(m, 0), 0), bs).Bad?;
  }

  /** pb_decode_noinit. */
  method DecodeNoinit(s: IStream, fields: seq<Field>, dest: Msg) returns (ok: bool, m: Msg)
    requires s.Valid() && Table(fields)
    modifies s
    ensures s.Valid() && s.state + s.bytesLeft <= old(s.state + s.bytesLeft)
    ensures ok == DecodeMsg(fields, dest, old(s.Left())).Ok?
    ensures ok ==> DecodeMsg(fields, dest, old(s.Left())) == Ok(m, s.Left())
    ensures ok ==> s.state + s.bytesLeft == old(s.state + s.bytesLeft)
    decreases s.bytesLeft, 8
  {
    var v := new Locals(fields, dest);
    var iter := new FieldIter(fields);
    var _ := iter.Begin();
    ghost var target := DecodeLoop(fields, Start(dest), s.Left());
    var more := true;
    while s.bytesLeft != 0 && more
      invariant s.Valid() && s.state + s.bytesLeft == old(s.state + s.bytesLeft)
      invariant s.bytesLeft <= old(s.bytesLeft)
      invariant v.Valid() && iter.Valid() && v.fields == iter.fields == fields
      invariant target == if more then DecodeLoop(fields, v.State(), s.Left()) else Ok(v.State(), s.Left())
      decreases s.bytesLeft
    {
      ok, more := v.DecodeOne(s, iter);
      if !ok {
        return false, v.m;
      }
    }
    m := v.m;
    if v.fixedField.Some? && v.fixedSize != fields[v.fixedField.value].arraySize {
      return false, m;
    }
    ok := CheckRequired(iter, v.fieldsSeen, v.seen);
  }
}
