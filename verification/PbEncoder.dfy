/** The encoder of pb_encode.c, running on a stream.  Every method succeeds exactly
    when the message is in order and the bytes of module PbEncode fit into the
    stream, and then has written just those bytes. */
module PbEncoder {
  import opened Common
  import opened PbWire
  import opened PbSchema
  import opened PbEncode
  import opened PbOutput
  import opened PbIter

  // ----- what a structure in memory looks like -----

  /** No fixed-count array in a proto3 singular submessage: the encoder would take
      its first bytes for a count.  Tags are not zero, as zero ends a table. */
  ghost predicate Table(fields: seq<Field>)
    decreases fields, 0
  {
    forall i | 0 <= i < |fields| :: fields[i].tag != 0 && SubTable(fields[i])
  }

  ghost predicate SubTable(f: Field)
    decreases f, 0
  {
    f.kind.Message? ==>
      && Table(f.kind.fields)
      && (f.rule.Singular? ==> forall i | 0 <= i < |f.kind.fields| :: !f.kind.fields[i].rule.FixedCount?)
  }

  /** A structure with static storage has a slot for every field, and every entry of its arrays. */
  ghost predicate Shaped(fields: seq<Field>, m: Msg)
    decreases fields, 0
  {
    |m.slots| == |fields| && forall i | 0 <= i < |fields| :: ShapedSlot(fields[i], m.slots[i])
  }

  ghost predicate ShapedSlot(f: Field, s: Slot)
    decreases f, 1
  {
    |s.items| == Cap(f) && forall j | 0 <= j < |s.items| :: ShapedItem(f, s.items[j])
  }

  ghost predicate ShapedItem(f: Field, v: Value)
    decreases f, 0
  {
    f.kind.Message? ==> Shaped(f.kind.fields, AsMsg(v))
  }

  // ----- proto3 presence -----

  /** pb_check_proto3_default_value. */
  method CheckDefault(f: Field, s: Slot, which: map<nat, nat>) returns (unset: bool)
    requires SubTable(f) && ShapedSlot(f, s)
    ensures unset == IsDefault(f, s, which)
    decreases f, 0
  {
    match f.rule
    case Required => unset := false;
    case Repeated => unset := s.count == 0;
    case FixedCount => unset := false;
    case OneOf(g) => unset := WhichOf(Msg([], which), g) == 0;
    case Optional => unset := !s.has;
    case Singular =>
      var v := s.items[0];
      match f.kind
      case Bytes => unset := |AsBlob(v)| == 0;
      case String =>
        var b := AsBlob(v);
        unset := |b| == 0 || b[0] == 0;
      case FixedBytes => unset := f.dataSize == 0;
      case Message(sub) => unset := CheckAllDefault(sub, AsMsg(v));
      case Varint | UVarint | SVarint | Fixed32 | Fixed64 => unset := AsInt(v) == 0;
  }

  /** Its loop over the fields of a submessage. */
  method CheckAllDefault(fields: seq<Field>, m: Msg) returns (unset: bool)
    requires Table(fields) && Shaped(fields, m)
    ensures unset == AllDefault(fields, m, 0)
    decreases fields, 0
  {
    var iter := new FieldIter(fields);
    var more := iter.Begin();
    while more
      invariant iter.Valid() && iter.fields == fields && (more ==> iter.pos < |fields|)
      invariant AllDefault(fields, m, 0) == if more then AllDefault(fields, m, iter.pos) else true
      decreases if more then 1 else 0, |fields| - iter.pos
    {
      assert fields[iter.pos] in fields;
      var clear := CheckDefault(fields[iter.pos], m.slots[iter.pos], m.which);
      if !clear {
        return false;
      }
      more := iter.Next();
    }
    unset := true;
  }

  // ----- entries -----

  /** pb_enc_varint, pb_enc_uvarint, pb_enc_svarint, pb_enc_fixed32 and pb_enc_fixed64. */
  method EncScalar(s: OStream, f: Field, n: int) returns (ok: bool)
    requires s.Valid() && f.kind.Packable()
    modifies s, s.buf
    ensures s.Valid() && ok == (ItemOk(f, Int(n)) && old(s.Fits(EncodeScalar(f, n))))
    ensures ok ==> s.Holds(old(s.bytesWritten), old(s.Prefix()), EncodeScalar(f, n))
  {
    if f.kind.Fixed32? {
      ok := s.EncodeFixed32(n % TWO32);
    } else if f.kind.Fixed64? {
      ok := s.EncodeFixed64(n % TWO64);
    } else if f.dataSize != 1 && f.dataSize != 2 && f.dataSize != 4 && f.dataSize != 8 {
      ok := false;
    } else if f.kind.SVarint? {
      ok := s.EncodeSVarint(n);
    } else {
      ok := s.EncodeVarint(U64(n));
    }
  }

  lemma {:induction false} CStrEnds(b: seq<byte>, n: nat)
    requires n <= |b| && (forall j | 0 <= j < n :: b[j] != 0) && (n < |b| ==> b[n] == 0)
    ensures CStr(b) == b[..n]
  {
    if n > 0 {
      CStrEnds(b[1..], n - 1);
      assert b[..n] == [b[0]] + b[1..][..n - 1];
    }
  }

  /** pb_enc_string: the length is found by looking for the NUL. */
  method EncString(s: OStream, b: seq<byte>) returns (ok: bool)
    requires s.Valid()
    modifies s, s.buf
    ensures s.Valid() && ok == old(s.Fits(LenPrefixed(CStr(b))))
    ensures ok ==> s.Holds(old(s.bytesWritten), old(s.Prefix()), LenPrefixed(CStr(b)))
  {
    var size := 0;
    while size < |b| && b[size] != 0
      invariant size <= |b| && forall j | 0 <= j < size :: b[j] != 0
    {
      size := size + 1;
    }
    CStrEnds(b, size);
    ok := s.EncodeString(b[..size]);
  }

  /** The encoder of any type. */
  method EncItem(s: OStream, f: Field, v: Value) returns (ok: bool)
    requires s.Valid() && SubTable(f) && ShapedItem(f, v)
    modifies s, s.buf
    ensures s.Valid() && ok == (ItemOk(f, v) && old(s.Fits(EncodeItem(f, v))))
    ensures ok ==> s.Holds(old(s.bytesWritten), old(s.Prefix()), EncodeItem(f, v))
    decreases f, 0
  {
    match f.kind
    case Bytes =>
      if |AsBlob(v)| + BYTES_HEADER > f.dataSize {
        return false;
      }
      ok := s.EncodeString(AsBlob(v));
    case FixedBytes => ok := s.EncodeString(AsBlob(v));
    case String => ok := EncString(s, AsBlob(v));
    case Message(sub) => ok := EncodeSubmessage(s, sub, AsMsg(v));
    case Varint | UVarint | SVarint | Fixed32 | Fixed64 => ok := EncScalar(s, f, AsInt(v));
  }

  /** pb_encode_submessage: the message is run through twice, once to find its size
      and once to write it.  The second pass writes exactly the size of the first, so
      the error for a submessage that changed size is never raised. */
  method EncodeSubmessage(s: OStream, fields: seq<Field>, m: Msg) returns (ok: bool)
    requires s.Valid() && Table(fields) && Shaped(fields, m)
    modifies s, s.buf
    ensures s.Valid() && ok == (MsgOk(fields, m) && old(s.Fits(LenPrefixed(EncodeMsg(fields, m)))))
    ensures ok ==> s.Holds(old(s.bytesWritten), old(s.Prefix()), LenPrefixed(EncodeMsg(fields, m)))
    decreases fields, 2
  {
    ghost var e := EncodeMsg(fields, m);
    var substream := new OStream.Sizing();
    ok := Encode(substream, fields, m);
    if !ok {
      return;
    }
    var size := substream.bytesWritten;
    assert size == |e|;
    ok := s.EncodeVarint(size);
    if !ok {
      return;
    }
    ghost var written, prefix := s.bytesWritten, s.Prefix();
    if s.sizing {
      ok := s.Count(e, size);
    } else {
      ok := WriteSubmessage(s, fields, m, size);
    }
    if ok {
      Appended(s, old(s.bytesWritten), old(s.Prefix()), PbWire.EncodeVarint(size), written, prefix, e);
    }
  }

  /** Its second pass. */
  method WriteSubmessage(s: OStream, fields: seq<Field>, m: Msg, size: nat) returns (ok: bool)
    requires s.Valid() && !s.sizing && Table(fields) && Shaped(fields, m)
    requires MsgOk(fields, m) && size == |EncodeMsg(fields, m)|
    modifies s, s.buf
    ensures s.Valid() && ok == old(s.Fits(EncodeMsg(fields, m)))
    ensures ok ==> s.Holds(old(s.bytesWritten), old(s.Prefix()), EncodeMsg(fields, m))
    decreases fields, 1
  {
    if s.bytesWritten + size > s.maxSize {
      return false;
    }
    var substream := new OStream.Limited(s, size);
    var status := Encode(substream, fields, m);
    s.bytesWritten := s.bytesWritten + substream.bytesWritten;
    s.state := substream.state;
    assert substream.bytesWritten == size;
    ok := status && substream.bytesWritten == size;
  }

  // ----- arrays -----

  lemma {:induction false} FixedSizes(f: Field, items: seq<Value>)
    requires f.kind.Fixed32? || f.kind.Fixed64?
    ensures |EncodePacked(f, items)| == (if f.kind.Fixed32? then 4 else 8) * |items|
  {
    if items != [] {
      FixedSizes(f, items[1..]);
    }
  }

  /** The entries of a packed array, one after the other. */
  method WriteEntries(s: OStream, f: Field, items: seq<Value>) returns (ok: bool)
    requires s.Valid() && f.kind.Packable()
    modifies s, s.buf
    ensures s.Valid() && ok == (PackedOk(f, items) && old(s.Fits(EncodePacked(f, items))))
    ensures ok ==> s.Holds(old(s.bytesWritten), old(s.Prefix()), EncodePacked(f, items))
  {
    var i := 0;
    ghost var done: seq<byte>, e := [], EncodePacked(f, items);
    while i < |items|
      invariant i <= |items| && s.Valid()
      invariant e == done + EncodePacked(f, items[i..])
      invariant s.Holds(old(s.bytesWritten), old(s.Prefix()), done)
      invariant forall j | 0 <= j < i :: ItemOk(f, Int(AsInt(items[j])))
    {
      ghost var x := EncodeScalar(f, AsInt(items[i]));
      assert items[i..][1..] == items[i + 1..];
      Assoc(done, x, EncodePacked(f, items[i + 1..]));
      ghost var written, prefix := s.bytesWritten, s.Prefix();
      ok := EncScalar(s, f, AsInt(items[i]));
      if !ok {
        return;
      }
      Appended(s, old(s.bytesWritten), old(s.Prefix()), done, written, prefix, x);
      done, i := done + x, i + 1;
    }
    ok := true;
  }

  ghost predicate PackedOk(f: Field, items: seq<Value>)
    requires f.kind.Packable()
  {
    forall j | 0 <= j < |items| :: ItemOk(f, Int(AsInt(items[j])))
  }

  lemma PackedOkIsItemsOk(f: Field, items: seq<Value>)
    requires f.kind.Packable()
    ensures PackedOk(f, items) == ItemsOk(f, items)
  {
    if PackedOk(f, items) {
      forall j | 0 <= j < |items| ensures ItemOk(f, items[j]) {
        assert ItemOk(f, Int(AsInt(items[j])));
      }
    }
  }

  /** The size of the packed data; only the fixed types need no counting pass. */
  method PackedSize(f: Field, items: seq<Value>) returns (ok: bool, size: nat)
    requires f.kind.Packable()
    ensures ok == PackedOk(f, items) && (ok ==> size == |EncodePacked(f, items)|)
  {
    if f.kind.Fixed32? || f.kind.Fixed64? {
      FixedSizes(f, items);
      return true, (if f.kind.Fixed32? then 4 else 8) * |items|;
    }
    var sizestream := new OStream.Sizing();
    ok := WriteEntries(sizestream, f, items);
    size := sizestream.bytesWritten;
  }

  method EncodePackedArray(s: OStream, f: Field, items: seq<Value>) returns (ok: bool)
    requires s.Valid() && f.kind.Packable() && items != []
    modifies s, s.buf
    ensures s.Valid() && ok == (ItemsOk(f, items) && old(s.Fits(EncodeArray(f, items))))
    ensures ok ==> s.Holds(old(s.bytesWritten), old(s.Prefix()), EncodeArray(f, items))
  {
    ghost var tag, e := PbEncode.EncodeTag(f.tag, WT_STRING), EncodePacked(f, items);
    assert EncodeArray(f, items) == tag + PbWire.EncodeVarint(|e|) + e;
    PackedOkIsItemsOk(f, items);
    ok := s.EncodeTag(f.tag, WT_STRING);
    if !ok {
      return;
    }
    var size;
    ok, size := PackedSize(f, items);
    if !ok {
      return;
    }
    ghost var written, prefix := s.bytesWritten, s.Prefix();
    ok := s.EncodeVarint(size);
    if !ok {
      return;
    }
    Appended(s, old(s.bytesWritten), old(s.Prefix()), tag, written, prefix, PbWire.EncodeVarint(size));
    written, prefix := s.bytesWritten, s.Prefix();
    if s.sizing {
      ok := s.Count(e, size);
    } else {
      ok := WriteEntries(s, f, items);
    }
    if ok {
      Appended(s, old(s.bytesWritten), old(s.Prefix()), tag + PbWire.EncodeVarint(size), written, prefix, e);
    }
  }

  lemma NextUnpacked(f: Field, items: seq<Value>, i: nat)
    requires i < |items|
    ensures EncodeUnpacked(f, items[i..]) == Keyed(f, items[i]) + EncodeUnpacked(f, items[i + 1..])
  {
    assert items[i..][1..] == items[i + 1..];
  }

  /** An unpacked entry with its key. */
  function Keyed(f: Field, v: Value): seq<byte> {
    FieldTag(f) + EncodeItem(f, v)
  }

  method EncodeUnpackedArray(s: OStream, f: Field, items: seq<Value>) returns (ok: bool)
    requires s.Valid() && SubTable(f)
    requires forall j | 0 <= j < |items| :: ShapedItem(f, items[j])
    modifies s, s.buf
    ensures s.Valid() && ok == (ItemsOk(f, items) && old(s.Fits(EncodeUnpacked(f, items))))
    ensures ok ==> s.Holds(old(s.bytesWritten), old(s.Prefix()), EncodeUnpacked(f, items))
    decreases f, 2
  {
    var i := 0;
    ghost var done: seq<byte>, e := [], EncodeUnpacked(f, items);
    while i < |items|
      invariant i <= |items| && s.Valid()
      invariant e == done + EncodeUnpacked(f, items[i..])
      invariant s.Holds(old(s.bytesWritten), old(s.Prefix()), done)
      invariant forall j | 0 <= j < i :: ItemOk(f, items[j])
    {
      ghost var x := Keyed(f, items[i]);
      NextUnpacked(f, items, i);
      Assoc(done, x, EncodeUnpacked(f, items[i + 1..]));
      ghost var written, prefix := s.bytesWritten, s.Prefix();
      ok := EncodeTagged(s, f, items[i]);
      if !ok {
        return;
      }
      Appended(s, old(s.bytesWritten), old(s.Prefix()), done, written, prefix, x);
      done, i := done + x, i + 1;
    }
    ok := true;
  }

  /** A key and one entry. */
  method EncodeTagged(s: OStream, f: Field, v: Value) returns (ok: bool)
    requires s.Valid() && SubTable(f) && ShapedItem(f, v)
    modifies s, s.buf
    ensures s.Valid() && ok == (ItemOk(f, v) && old(s.Fits(Keyed(f, v))))
    ensures ok ==> s.Holds(old(s.bytesWritten), old(s.Prefix()), Keyed(f, v))
    decreases f, 1
  {
    ok := s.EncodeTag(f.tag, f.kind.WireType());
    if !ok {
      return;
    }
    ghost var written, prefix := s.bytesWritten, s.Prefix();
    ok := EncItem(s, f, v);
    if ok {
      Appended(s, old(s.bytesWritten), old(s.Prefix()), FieldTag(f), written, prefix, EncodeItem(f, v));
    }
  }

  /** encode_array. */
  method EncodeArrayField(s: OStream, f: Field, items: seq<Value>, count: nat) returns (ok: bool)
    requires s.Valid() && SubTable(f) && |items| == f.arraySize
    requires forall j | 0 <= j < |items| :: ShapedItem(f, items[j])
    modifies s, s.buf
    ensures s.Valid()
    ensures count > f.arraySize ==> !ok
    ensures count <= f.arraySize ==>
              && ok == (ItemsOk(f, items[..count]) && old(s.Fits(EncodeArray(f, items[..count]))))
              && (ok ==> s.Holds(old(s.bytesWritten), old(s.Prefix()), EncodeArray(f, items[..count])))
    decreases f, 3
  {
    if count == 0 {
      return true;
    }
    if count > f.arraySize {
      return false;
    }
    if f.kind.Packable() {
      ok := EncodePackedArray(s, f, items[..count]);
    } else {
      ok := EncodeUnpackedArray(s, f, items[..count]);
    }
  }

  // ----- messages -----

  /** encode_basic_field. */
  method EncodeBasicField(s: OStream, f: Field, slot: Slot, which: map<nat, nat>) returns (ok: bool)
    requires s.Valid() && SubTable(f) && ShapedSlot(f, slot)
    modifies s, s.buf
    ensures s.Valid() && ok == (FieldOk(f, slot, which) && old(s.Fits(EncodeField(f, slot, which))))
    ensures ok ==> s.Holds(old(s.bytesWritten), old(s.Prefix()), EncodeField(f, slot, which))
    decreases f, 4
  {
    var implicitHas := true;
    if f.rule.Singular? {
      var unset := CheckDefault(f, slot, which);
      implicitHas := !unset;
    }
    match f.rule
    case Required => ok := EncodeTagged(s, f, slot.items[0]);
    case Optional =>
      ok := true;
      if slot.has {
        ok := EncodeTagged(s, f, slot.items[0]);
      }
    case Singular =>
      ok := true;
      if implicitHas {
        ok := EncodeTagged(s, f, slot.items[0]);
      }
    case Repeated => ok := EncodeArrayField(s, f, slot.items, slot.count);
    case FixedCount =>
      assert slot.items[..f.arraySize] == slot.items;
      ok := EncodeArrayField(s, f, slot.items, f.arraySize);
    case OneOf(g) =>
      ok := true;
      if WhichOf(Msg([], which), g) == f.tag {
        ok := EncodeTagged(s, f, slot.items[0]);
      }
  }

  /** pb_encode. */
  method Encode(s: OStream, fields: seq<Field>, m: Msg) returns (ok: bool)
    requires s.Valid() && Table(fields) && Shaped(fields, m)
    modifies s, s.buf
    ensures s.Valid() && ok == (MsgOk(fields, m) && old(s.Fits(EncodeMsg(fields, m))))
    ensures ok ==> s.Holds(old(s.bytesWritten), old(s.Prefix()), EncodeMsg(fields, m))
    decreases fields, 0
  {
    var iter := new FieldIter(fields);
    var more := iter.Begin();
    ghost var done: seq<byte>, e := [], EncodeMsg(fields, m);
    ghost var i := 0;
    while more
      invariant s.Valid() && iter.Valid() && iter.fields == fields && (more ==> iter.pos < |fields|)
      invariant i == (if more then iter.pos else |fields|) && i <= |fields|
      invariant e == done + EncodeFrom(fields, m, i) && MsgOk(fields, m) == MsgOkFrom(fields, m, i)
      invariant s.Holds(old(s.bytesWritten), old(s.Prefix()), done)
      decreases |fields| - i
    {
      assert fields[i] in fields;
      ghost var x := EncodeField(fields[i], m.slots[i], m.which);
      Assoc(done, x, EncodeFrom(fields, m, i + 1));
      ghost var written, prefix := s.bytesWritten, s.Prefix();
      ok := EncodeBasicField(s, fields[iter.pos], m.slots[iter.pos], m.which);
      if !ok {
        return;
      }
      Appended(s, old(s.bytesWritten), old(s.Prefix()), done, written, prefix, x);
      more := iter.Next();
      done, i := done + x, i + 1;
    }
    ok := true;
  }

  /** pb_get_encoded_size. */
  method GetEncodedSize(fields: seq<Field>, m: Msg) returns (ok: bool, size: nat)
    requires Table(fields) && Shaped(fields, m)
    ensures ok == MsgOk(fields, m) && (ok ==> size == |EncodeMsg(fields, m)|)
  {
    var stream := new OStream.Sizing();
    ok := Encode(stream, fields, m);
    size := stream.bytesWritten;
  }
}
