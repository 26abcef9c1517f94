/** Decoding what the encoder wrote.  The reader's description may be any
    selection of the writer's fields, at every nesting depth and in any order;
    reading with the writer's own description is the round trip. */
module PbProject {
  import opened Common
  import opened Bits
  import opened PbWire
  import opened PbSchema
  import opened PbEncode
  import opened PbDecode

  // ----- what the code asks of descriptions and data -----

  /** Tags are unique, non-zero and below 2^29; proto3 singular fields default to
      zero and hold no fixed-count array, whose data the encoder would read as a count. */
  ghost predicate WellFormed(fields: seq<Field>)
    decreases fields, 0
  {
    UniqueTags(fields) && forall i | 0 <= i < |fields| :: WellFormedField(fields[i])
  }

  ghost predicate WellFormedField(f: Field)
    decreases f, 0
  {
    && 0 < f.tag < 0x2000_0000 && f.dataSize <= PB_SIZE_MAX
    && (f.rule.Singular? ==> f.dflt.None?)
    && (f.kind.Message? ==> WellFormed(f.kind.fields))
    && (f.rule.Singular? && f.kind.Message? ==>
          forall i | 0 <= i < |f.kind.fields| :: !f.kind.fields[i].rule.FixedCount?)
  }

  /** A value its storage can hold, with strings terminated and every length in 32 bits. */
  ghost predicate ValidItem(f: Field, v: Value)
    decreases f, 0
  {
    match f.kind
    case Varint | SVarint => v.Int? && FitsSigned(v.n, f.dataSize)
    case UVarint => v.Int? && FitsUnsigned(v.n, f.dataSize)
    case Fixed32 => v.Int? && 0 <= v.n < TWO32
    case Fixed64 => v.Int? && 0 <= v.n < TWO64
    case Bytes => v.Blob?
    case String => v.Blob? && |CStr(v.b)| < f.dataSize
    case FixedBytes => v.Blob? && |v.b| == f.dataSize
    case Message(sub) => v.Sub? && ValidMsg(sub, v.m) && |EncodeMsg(sub, v.m)| < TWO32
  }

  ghost predicate ValidSlot(f: Field, s: Slot, which: map<nat, nat>)
    decreases f, 1
  {
    && |s.items| == Cap(f)
    && (f.rule.Array() ==>
          && s.count <= f.arraySize
          && (forall j | 0 <= j < |Used(f, s)| :: ValidItem(f, Used(f, s)[j]))
          && (f.kind.Packable() ==> |EncodePacked(f, Used(f, s))| < TWO32))
    && (f.rule.Singular? || Present(f, s, which) ==> ValidItem(f, s.items[0]))
  }

  ghost predicate ValidMsg(fields: seq<Field>, m: Msg)
    decreases fields, 0
  {
    |m.slots| == |fields| && forall i | 0 <= i < |fields| :: ValidSlot(fields[i], m.slots[i], m.which)
  }

  // ----- selection of fields, and agreement of messages on it -----

  ghost predicate Selects(dec: seq<Field>, enc: seq<Field>)
    decreases dec, 0
  {
    forall j | 0 <= j < |dec| ::
      Find(enc, dec[j].tag) < |enc| && FieldSelects(dec[j], enc[Find(enc, dec[j].tag)])
  }

  ghost predicate FieldSelects(d: Field, e: Field)
    decreases d, 0
  {
    && d.tag == e.tag && d.rule == e.rule && d.dataSize == e.dataSize && d.arraySize == e.arraySize
    && if d.kind.Message? then e.kind.Message? && Selects(d.kind.fields, e.kind.fields) else d.kind == e.kind
  }

  ghost predicate ItemMatches(d: Field, e: Field, u: Value, v: Value)
    decreases d, 0
  {
    if d.kind.Message? && e.kind.Message? then
      Matches(d.kind.fields, e.kind.fields, AsMsg(u), AsMsg(v))
    else if d.kind.String? then CStr(AsBlob(u)) == CStr(AsBlob(v))
    else u == v
  }

  ghost predicate SlotMatches(d: Field, e: Field, s: Slot, t: Slot, wm: nat, wd: nat)
    decreases d, 1
  {
    match d.rule
    case Required | Singular => ItemMatches(d, e, ItemAt(s, 0), ItemAt(t, 0))
    case Optional => s.has == t.has && (s.has ==> ItemMatches(d, e, ItemAt(s, 0), ItemAt(t, 0)))
    case Repeated =>
      && s.count == t.count && |t.items| == d.arraySize
      && forall x | 0 <= x < s.count :: ItemMatches(d, e, EntryAt(s.items, x), EntryAt(t.items, x))
    case FixedCount =>
      && |t.items| == d.arraySize
      && forall x | 0 <= x < d.arraySize :: ItemMatches(d, e, EntryAt(s.items, x), EntryAt(t.items, x))
    case OneOf(g) =>
      && (wm == e.tag <==> wd == d.tag)
      && (wm == e.tag ==> ItemMatches(d, e, ItemAt(s, 0), ItemAt(t, 0)))
  }

  function GroupWhich(f: Field, m: Msg): nat {
    if f.rule.OneOf? then WhichOf(m, f.rule.group) else 0
  }

  /** |d| shows the content of |m| in every field the reader knows: entries of
      absent optionals, unused array entries, inactive oneof members and string
      bytes after the NUL do not count. */
  ghost predicate Matches(dec: seq<Field>, enc: seq<Field>, m: Msg, d: Msg)
    decreases dec, 0
  {
    && |d.slots| == |dec|
    && forall j | 0 <= j < |dec| :: FieldMatches(dec[j], enc, m, d.slots[j], d)
  }

  ghost predicate FieldMatches(f: Field, enc: seq<Field>, m: Msg, t: Slot, d: Msg)
    decreases f, 2
  {
    var k := Find(enc, f.tag);
    k < |enc| && SlotMatches(f, enc[k], SlotAt(m, k), t, GroupWhich(enc[k], m), GroupWhich(f, d))
  }

  // ----- reading back one scalar, payload or key -----

  lemma ReadPayload(b: seq<byte>, tail: seq<byte>)
    requires |b| < TWO32
    ensures Payload(LenPrefixed(b) + tail) == Ok(b, tail)
  {
    assert LenPrefixed(b) + tail == EncodeVarint(|b|) + (b + tail);
    Varint32RoundTrip(|b|, b + tail);
    assert (b + tail)[..|b|] == b && (b + tail)[|b|..] == tail;
  }

  lemma CastBack(n: int)
    requires -0x8000_0000_0000_0000 <= n < 0x8000_0000_0000_0000
    ensures Int64(U64(n)) == n
    ensures -0x8000_0000 <= n < 0x8000_0000 ==> Int32(U64(n)) == n
  {
    if n < 0 {
      assert U64(n) == n + TWO64;
    }
  }

  lemma ReadSigned(size: nat, n: int, tail: seq<byte>)
    requires IntSize(size) && FitsSigned(n, size)
    ensures DecodeSigned(size, EncodeVarint(U64(n)) + tail) == Ok(n, tail)
  {
    Varint64RoundTrip(U64(n), tail);
    CastBack(n);
  }

  lemma ReadWord(v: nat, len: nat, tail: seq<byte>)
    requires len > 0 && v < Pow2(8 * len)
    ensures Word(LittleEndian(v, len) + tail, len) == Ok(v, tail)
  {
    var bs := LittleEndian(v, len) + tail;
    assert bs[..len] == LittleEndian(v, len) && bs[len..] == tail;
    LittleEndianRoundTrip(v, len);
  }

  lemma ReadZigZag(n: int, tail: seq<byte>)
    requires -0x8000_0000_0000_0000 <= n < 0x8000_0000_0000_0000
    ensures Varint64(EncodeVarint(ZigZag(n)) + tail) == Ok(ZigZag(n), tail) && UnZigZag(ZigZag(n)) == n
  {
    ZigZagBijection(n, 0);
    Varint64RoundTrip(ZigZag(n), tail);
  }

  lemma ReadFixed32(f: Field, n: int, tail: seq<byte>)
    requires f.kind.Fixed32? && 0 <= n < TWO32
    ensures DecodeScalar(f, EncodeScalar(f, n) + tail) == Ok(n, tail)
  {
    assert Pow2(8 * 4) == TWO32 by { Pow2Values(); }
    ReadWord(n, 4, tail);
  }

  lemma ReadFixed64(f: Field, n: int, tail: seq<byte>)
    requires f.kind.Fixed64? && 0 <= n < TWO64
    ensures DecodeScalar(f, EncodeScalar(f, n) + tail) == Ok(n, tail)
  {
    assert Pow2(8 * 8) == TWO64 by { Pow2Values(); }
    ReadWord(n, 8, tail);
  }

  lemma ReadUnsigned(f: Field, n: int, tail: seq<byte>)
    requires f.kind.UVarint? && FitsUnsigned(n, f.dataSize)
    ensures DecodeScalar(f, EncodeScalar(f, n) + tail) == Ok(n, tail)
  {
    assert U64(n) == n;
    Varint64RoundTrip(n, tail);
  }

  lemma ReadScalar(f: Field, v: Value, tail: seq<byte>)
    requires f.kind.Packable() && ValidItem(f, v) && ItemOk(f, v)
    ensures DecodeScalar(f, EncodeScalar(f, v.n) + tail) == Ok(v.n, tail)
  {
    match f.kind
    case Varint => ReadSigned(f.dataSize, v.n, tail);
    case UVarint => ReadUnsigned(f, v.n, tail);
    case SVarint => ReadZigZag(v.n, tail);
    case Fixed32 => ReadFixed32(f, v.n, tail);
    case Fixed64 => ReadFixed64(f, v.n, tail);
  }

  lemma LoopStep(fields: seq<Field>, st: DState, bs: seq<byte>, key: nat, body: seq<byte>, st': DState, rest: seq<byte>)
    requires Varint32(bs) == Ok(key, body) && key != 0
    requires Step(fields, st, key, body) == Ok(st', rest)
    ensures DecodeLoop(fields, st, bs) == DecodeLoop(fields, st', rest)
  {
  }

  /** A key in front of a field: the loop takes exactly one step. */
  lemma ReadKey(fields: seq<Field>, st: DState, st': DState, tag: nat, wt: nat, body: seq<byte>, tail: seq<byte>)
    requires 0 < tag < 0x2000_0000 && wt < 8
    requires Step(fields, st, tag * 8 + wt, body + tail) == Ok(st', tail)
    ensures DecodeLoop(fields, st, EncodeTag(tag, wt) + body + tail) == DecodeLoop(fields, st', tail)
  {
    var bs := EncodeTag(tag, wt) + body + tail;
    assert bs == EncodeTag(tag, wt) + (body + tail);
    Varint32RoundTrip(tag * 8 + wt, body + tail);
    LoopStep(fields, st, bs, tag * 8 + wt, body + tail, st', tail);
  }

  // ----- unknown fields -----

  lemma {:induction false} SkipsVarint(v: nat, tail: seq<byte>)
    ensures SkipVarint(EncodeVarint(v) + tail) == Ok((), tail)
  {
    var bs := EncodeVarint(v) + tail;
    if v < 128 {
      assert bs[1..] == tail;
    } else {
      assert bs[1..] == EncodeVarint(v / 128) + tail;
      SkipsVarint(v / 128, tail);
    }
  }

  lemma SkipsWord(v: nat, len: nat, tail: seq<byte>)
    ensures Drop(Take(LittleEndian(v, len) + tail, len)) == Ok((), tail)
  {
    var bs := LittleEndian(v, len) + tail;
    assert bs[len..] == tail;
  }

  lemma SkipsScalar(f: Field, n: int, tail: seq<byte>)
    requires f.kind.Packable()
    ensures Skip(f.kind.WireType(), EncodeScalar(f, n) + tail) == Ok((), tail)
  {
    match f.kind
    case Varint | UVarint => SkipsVarint(U64(n), tail);
    case SVarint => SkipsVarint(ZigZag(n), tail);
    case Fixed32 => SkipsWord(n % TWO32, 4, tail);
    case Fixed64 => SkipsWord(n % TWO64, 8, tail);
  }

  /** pb_skip_field consumes exactly the entry the encoder wrote after the key. */
  lemma SkipsItem(f: Field, v: Value, tail: seq<byte>)
    requires ValidItem(f, v) && ItemOk(f, v) && f.dataSize <= PB_SIZE_MAX
    ensures Skip(f.kind.WireType(), EncodeItem(f, v) + tail) == Ok((), tail)
  {
    if f.kind.Packable() {
      SkipsScalar(f, AsInt(v), tail);
    } else {
      match f.kind
      case Bytes | FixedBytes => ReadPayload(AsBlob(v), tail);
      case String => ReadPayload(CStr(AsBlob(v)), tail);
      case Message(sub) => ReadPayload(EncodeMsg(sub, AsMsg(v)), tail);
    }
  }

  /** Skipping one keyed entry of a field the reader does not know. */
  lemma SkipsKeyed(dec: seq<Field>, st: DState, tag: nat, wt: nat, body: seq<byte>, tail: seq<byte>)
    requires 0 < tag < 0x2000_0000 && wt < 8 && Find(dec, tag) == |dec|
    requires Skip(wt, body + tail) == Ok((), tail)
    ensures DecodeLoop(dec, st, EncodeTag(tag, wt) + body + tail) == DecodeLoop(dec, st, tail)
  {
    assert (tag * 8 + wt) / 8 == tag && (tag * 8 + wt) % 8 == wt;
    ReadKey(dec, st, st, tag, wt, body, tail);
  }

  lemma {:induction false} SkipsUnpacked(dec: seq<Field>, st: DState, f: Field, items: seq<Value>, tail: seq<byte>)
    requires WellFormedField(f) && Find(dec, f.tag) == |dec|
    requires forall j | 0 <= j < |items| :: ValidItem(f, items[j]) && ItemOk(f, items[j])
    ensures DecodeLoop(dec, st, EncodeUnpacked(f, items) + tail) == DecodeLoop(dec, st, tail)
    decreases |items|
  {
    if items == [] {
      assert EncodeUnpacked(f, items) + tail == tail;
    } else {
      var more := EncodeUnpacked(f, items[1..]) + tail;
      var body := EncodeItem(f, items[0]);
      assert EncodeUnpacked(f, items) + tail == FieldTag(f) + body + more;
      SkipsItem(f, items[0], more);
      SkipsKeyed(dec, st, f.tag, f.kind.WireType(), body, more);
      SkipsUnpacked(dec, st, f, items[1..], tail);
    }
  }

  lemma SkipsField(dec: seq<Field>, st: DState, f: Field, s: Slot, which: map<nat, nat>, tail: seq<byte>)
    requires WellFormedField(f) && Find(dec, f.tag) == |dec|
    requires ValidSlot(f, s, which) && FieldOk(f, s, which)
    ensures DecodeLoop(dec, st, EncodeField(f, s, which) + tail) == DecodeLoop(dec, st, tail)
  {
    var items := Used(f, s);
    if f.rule.Array() {
      if items == [] {
        assert EncodeField(f, s, which) + tail == tail;
      } else if f.kind.Packable() {
        ReadPayload(EncodePacked(f, items), tail);
        SkipsKeyed(dec, st, f.tag, WT_STRING, LenPrefixed(EncodePacked(f, items)), tail);
      } else {
        SkipsUnpacked(dec, st, f, items, tail);
      }
    } else if Present(f, s, which) {
      SkipsItem(f, ItemAt(s, 0), tail);
      SkipsKeyed(dec, st, f.tag, f.kind.WireType(), EncodeItem(f, ItemAt(s, 0)), tail);
    } else {
      assert EncodeField(f, s, which) + tail == tail;
    }
  }

  // ----- half-way through a message -----

  /** The writer's side of a run: what is sent, and the storage it is read into. */
  datatype Job = Job(dec: seq<Field>, enc: seq<Field>, m: Msg, start: Msg)
  {
    ghost predicate Valid() {
      && WellFormed(dec) && WellFormed(enc) && Selects(dec, enc)
      && ValidMsg(enc, m) && MsgOk(enc, m)
      && |start.slots| == |dec| && start.which == map[]
      && forall j | 0 <= j < |dec| :: Prepared(dec[j], start.slots[j])
    }

    /** The writer's index of the reader's field |j|. */
    function Source(j: nat): nat
      requires j < |dec|
    {
      Find(enc, dec[j].tag)
    }

    function Sent(k: nat): seq<byte>
      requires k < |enc|
    {
      EncodeField(enc[k], SlotAt(m, k), m.which)
    }

    /** Reader's field |j| once the writer's first |i| fields have been read. */
    ghost predicate SlotMid(i: nat, st: DState, j: nat)
      requires j < |dec| == |start.slots|
    {
      && j < |st.m.slots|
      && if Source(j) < i then
           && FieldMatches(dec[j], enc, m, st.m.slots[j], st.m)
           && (dec[j].rule.Required? ==> j in st.seen)
         else
           && st.m.slots[j] == start.slots[j]
           && (dec[j].rule.OneOf? ==> GroupWhich(dec[j], st.m) != dec[j].tag)
           && st.fixedField != Some(j)
    }

    /** Reader's field |x| after field |j| of its message was read. */
    ghost predicate Untouched(st: DState, st': DState, j: nat, x: nat)
      requires j < |dec| && x < |dec|
    {
      && x < |st.m.slots| && x < |st'.m.slots| && st'.m.slots[x] == st.m.slots[x]
      && (GroupWhich(dec[x], st'.m) == GroupWhich(dec[x], st.m)
          || GroupWhich(dec[x], st'.m) == dec[j].tag == GroupWhich(dec[x], m))
    }

    ghost predicate Mid(i: nat, st: DState) {
      && |st.m.slots| == |dec| == |start.slots|
      && (forall j | 0 <= j < |dec| :: SlotMid(i, st, j))
      && FixedComplete(dec, st)
    }
  }

  /** A slot as pb_message_set_to_defaults leaves it, as far as reading a field depends on it. */
  ghost predicate Prepared(f: Field, s: Slot) {
    && |s.items| == Cap(f)
    && (f.rule.Repeated? ==> s.count == 0)
    && (f.rule.Optional? ==> !s.has)
    && (!f.rule.Array() && !f.rule.OneOf? ==> exists prev :: s.items[0] == DefaultValue(f, prev))
  }

  lemma DefaultsArePrepared(fields: seq<Field>, prev: Msg)
    ensures forall j | 0 <= j < |fields| :: Prepared(fields[j], Defaults(fields, prev).slots[j])
  {
    forall j | 0 <= j < |fields| ensures Prepared(fields[j], Defaults(fields, prev).slots[j]) {
      var f := fields[j];
      var s := Defaults(fields, prev).slots[j];
      assert s == DefaultSlot(f, SlotAt(prev, j));
      if !f.rule.Array() && !f.rule.OneOf? {
        assert s.items[0] == DefaultValue(f, ItemAt(SlotAt(prev, j), 0));
      }
    }
  }

  /** The reader's field for the writer's field |i| is the only one it touches. */
  lemma SourceIs(job: Job, i: nat, j: nat)
    requires job.Valid() && i < |job.enc| && j < |job.dec|
    ensures job.Source(j) == i <==> Find(job.dec, job.enc[i].tag) == j
  {
    FindUnique(job.enc, i);
    FindUnique(job.dec, j);
  }

  /** Storing the writer's field |i| in its slot |j|, marking it seen, keeps the rest. */
  lemma Advance(job: Job, i: nat, st: DState, st': DState, j: nat)
    requires job.Valid() && i < |job.enc| && j < |job.dec| && job.Source(j) == i
    requires job.Mid(i, st)
    requires |st'.m.slots| == |job.dec| && FixedComplete(job.dec, st') && job.SlotMid(i + 1, st', j)
    requires st.seen <= st'.seen
    requires st'.fixedField == st.fixedField || st'.fixedField == Some(j)
    requires forall x | 0 <= x < |job.dec| && x != j :: job.Untouched(st, st', j, x)
    ensures job.Mid(i + 1, st')
  {
    forall x {:trigger job.dec[x]} | 0 <= x < |job.dec| ensures job.SlotMid(i + 1, st', x) {
      if x != j {
        AdvanceOther(job, i, st, st', j, x);
      }
    }
  }

  lemma AdvanceOther(job: Job, i: nat, st: DState, st': DState, j: nat, x: nat)
    requires job.Valid() && i < |job.enc| && j < |job.dec| && job.Source(j) == i
    requires x < |job.dec| && x != j && job.SlotMid(i, st, x)
    requires |st.m.slots| == |st'.m.slots| == |job.dec|
    requires st.seen <= st'.seen
    requires st'.fixedField == st.fixedField || st'.fixedField == Some(j)
    requires job.Untouched(st, st', j, x)
    ensures job.SlotMid(i + 1, st', x)
  {
    SourceIs(job, i, x);
    SourceIs(job, i, j);
    assert job.Source(x) != i;
    assert job.dec[x].tag != job.dec[j].tag;
    var k := job.Source(x);
    if k < i {
      assert k < |job.enc| && FieldSelects(job.dec[x], job.enc[k]);
    }
  }

  /** A field the reader does not know leaves everything as it is. */
  lemma AdvanceNone(job: Job, i: nat, st: DState)
    requires job.Valid() && i < |job.enc| && job.Mid(i, st)
    requires Find(job.dec, job.enc[i].tag) == |job.dec|
    ensures job.Mid(i + 1, st)
  {
    forall x {:trigger job.dec[x]} | 0 <= x < |job.dec| ensures job.SlotMid(i + 1, st, x) {
      SourceIs(job, i, x);
      assert job.SlotMid(i, st, x);
    }
  }

  // ----- fields that were not sent -----

  /** A proto3 field that counts as not set is shown by its default value. */
  lemma {:induction false} DefaultMatches(d: Field, e: Field, v: Value, prev: Value)
    requires WellFormedField(d) && WellFormedField(e) && FieldSelects(d, e) && d.rule.Singular?
    requires ValidItem(e, v) && IsDefault(e, Slot(false, 0, [v]), map[])
    ensures ItemMatches(d, e, v, DefaultValue(d, prev))
    decreases d, 0
  {
    if d.kind.Message? {
      var sub := d.kind.fields;
      var b := Defaults(sub, AsMsg(prev));
      AllDefaultMeans(e.kind.fields, v.m, 0);
      forall j | 0 <= j < |sub| ensures FieldMatches(sub[j], e.kind.fields, v.m, b.slots[j], b) {
        DefaultSlotMatches(sub, e.kind.fields, v.m, AsMsg(prev), j);
      }
    } else if d.kind.FixedBytes? {
      assert v.b == Zeros(0);
    }
  }

  lemma {:induction false} DefaultSlotMatches(dec: seq<Field>, enc: seq<Field>, m: Msg, prev: Msg, j: nat)
    requires WellFormed(dec) && WellFormed(enc) && Selects(dec, enc) && ValidMsg(enc, m)
    requires j < |dec| && forall k | 0 <= k < |enc| :: IsDefault(enc[k], SlotAt(m, k), m.which)
    requires forall k | 0 <= k < |enc| :: !enc[k].rule.FixedCount?
    ensures FieldMatches(dec[j], enc, m, Defaults(dec, prev).slots[j], Defaults(dec, prev))
    decreases dec[j], 1
  {
    var d := dec[j];
    var k := Find(enc, d.tag);
    var e := enc[k];
    var s := m.slots[k];
    assert FieldSelects(d, e) && IsDefault(e, s, m.which) && ValidSlot(e, s, m.which);
    assert Defaults(dec, prev).slots[j] == DefaultSlot(d, SlotAt(prev, j));
    if d.rule.Singular? {
      assert s.items == [s.items[0]];
      SingularIsDefault(e, s, m.which);
      DefaultMatches(d, e, s.items[0], ItemAt(SlotAt(prev, j), 0));
    }
  }

  /** For a proto3 field only the stored value matters. */
  lemma SingularIsDefault(f: Field, s: Slot, which: map<nat, nat>)
    requires f.rule.Singular?
    ensures IsDefault(f, s, which) == IsDefault(f, Slot(false, 0, [ItemAt(s, 0)]), map[])
  {
  }

  lemma NotSent(job: Job, i: nat, st: DState, j: nat)
    requires job.Valid() && i < |job.enc| && job.Mid(i, st) && j < |job.dec| && job.Source(j) == i
    requires !job.enc[i].rule.Array() && !Present(job.enc[i], SlotAt(job.m, i), job.m.which)
    ensures job.Mid(i + 1, st)
  {
    var d, e, s := job.dec[j], job.enc[i], job.m.slots[i];
    assert FieldSelects(d, e) && WellFormedField(d) && WellFormedField(e) && ValidSlot(e, s, job.m.which);
    assert job.SlotMid(i, st, j) && Prepared(d, job.start.slots[j]);
    if d.rule.Singular? {
      SingularIsDefault(e, s, job.m.which);
      var prev :| job.start.slots[j].items[0] == DefaultValue(d, prev);
      DefaultMatches(d, e, s.items[0], prev);
    }
    assert job.SlotMid(i + 1, st, j);
    Advance(job, i, st, st, j);
  }

  // ----- fields that were sent -----

  /** One entry, read into prepared storage. */
  lemma {:induction false} ReadItem(d: Field, e: Field, v: Value, prev: Value, tail: seq<byte>) returns (v': Value)
    requires WellFormedField(d) && WellFormedField(e) && FieldSelects(d, e)
    requires ValidItem(e, v) && ItemOk(e, v)
    requires d.kind.Message? && !d.rule.Array() ==> exists x: Msg :: AsMsg(prev) == Defaults(d.kind.fields, x)
    ensures DecodeItem(d, prev, EncodeItem(e, v) + tail) == Ok(v', tail)
    ensures ItemMatches(d, e, v, v')
    decreases e, 0
  {
    if d.kind.Packable() {
      ReadScalar(e, v, tail);
      SameScalar(d, e, EncodeItem(e, v) + tail);
      v' := v;
    } else if d.kind.Message? {
      v' := ReadMessage(d, e, v, prev, tail);
    } else {
      v' := ReadBlob(d, e, v, prev, tail);
    }
  }

  lemma SameScalar(d: Field, e: Field, bs: seq<byte>)
    requires d.kind.Packable() && d.kind == e.kind && d.dataSize == e.dataSize
    ensures DecodeScalar(d, bs) == DecodeScalar(e, bs)
  {
  }

  lemma ReadBlob(d: Field, e: Field, v: Value, prev: Value, tail: seq<byte>) returns (v': Value)
    requires d.kind.Bytes? || d.kind.String? || d.kind.FixedBytes?
    requires WellFormedField(e) && FieldSelects(d, e) && ValidItem(e, v) && ItemOk(e, v)
    ensures DecodeItem(d, prev, EncodeItem(e, v) + tail) == Ok(v', tail)
    ensures ItemMatches(d, e, v, v')
  {
    if d.kind.String? {
      ReadPayload(CStr(v.b), tail);
      CStrWhole(CStr(v.b));
      v' := Blob(CStr(v.b));
    } else {
      ReadPayload(v.b, tail);
      v' := v;
      if d.kind.FixedBytes? && v.b == [] {
        assert Zeros(0) == [];
      }
    }
  }

  lemma {:induction false} ReadMessage(d: Field, e: Field, v: Value, prev: Value, tail: seq<byte>) returns (v': Value)
    requires d.kind.Message? && WellFormedField(d) && WellFormedField(e) && FieldSelects(d, e)
    requires ValidItem(e, v) && ItemOk(e, v)
    requires !d.rule.Array() ==> exists x: Msg :: AsMsg(prev) == Defaults(d.kind.fields, x)
    ensures DecodeItem(d, prev, EncodeItem(e, v) + tail) == Ok(v', tail)
    ensures ItemMatches(d, e, v, v')
    decreases e, 0, 0
  {
    var sub := d.kind.fields;
    var x: Msg := AsMsg(prev);
    if !d.rule.Array() {
      x :| AsMsg(prev) == Defaults(sub, x);
    }
    DefaultsArePrepared(sub, x);
    var m' := ReadMsg(Job(sub, e.kind.fields, v.m, Defaults(sub, x)));
    ReadPayload(EncodeMsg(e.kind.fields, v.m), tail);
    v' := Sub(m');
  }

  /** The whole message. */
  lemma {:induction false} ReadMsg(job: Job) returns (m': Msg)
    requires job.Valid()
    ensures DecodeMsg(job.dec, job.start, EncodeMsg(job.enc, job.m)) == Ok(m', [])
    ensures Matches(job.dec, job.enc, job.m, m')
    decreases job.enc, 4
  {
    var st := Start(job.start);
    forall j {:trigger job.dec[j]} | 0 <= j < |job.dec| ensures job.SlotMid(0, st, j) {
      assert WellFormedField(job.dec[j]);
    }
    var st' := ReadFrom(job, 0, st);
    m' := st'.m;
    forall j | 0 <= j < |job.dec| ensures FieldMatches(job.dec[j], job.enc, job.m, m'.slots[j], m') {
      assert job.SlotMid(|job.enc|, st', j);
    }
    forall j | 0 <= j < |job.dec| && TrackedRequired(job.dec, j) ensures j in st'.seen {
      assert job.SlotMid(|job.enc|, st', j);
    }
  }

  lemma {:induction false} ReadFrom(job: Job, i: nat, st: DState) returns (st': DState)
    requires job.Valid() && i <= |job.enc| && job.Mid(i, st)
    ensures DecodeLoop(job.dec, st, EncodeFrom(job.enc, job.m, i)) == Ok(st', [])
    ensures job.Mid(|job.enc|, st')
    decreases job.enc, 3, |job.enc| - i
  {
    if i == |job.enc| {
      st' := st;
    } else {
      var more := EncodeFrom(job.enc, job.m, i + 1);
      var mid := ReadField(job, i, st, more);
      st' := ReadFrom(job, i + 1, mid);
    }
  }

  lemma FieldIsOk(fields: seq<Field>, m: Msg, i: nat, k: nat)
    requires i <= k < |fields| && MsgOkFrom(fields, m, i)
    ensures FieldOk(fields[k], SlotAt(m, k), m.which)
    decreases k - i
  {
    if i < k {
      FieldIsOk(fields, m, i + 1, k);
    }
  }

  lemma {:induction false} ReadField(job: Job, i: nat, st: DState, tail: seq<byte>) returns (st': DState)
    requires job.Valid() && i < |job.enc| && job.Mid(i, st)
    ensures DecodeLoop(job.dec, st, job.Sent(i) + tail) == DecodeLoop(job.dec, st', tail)
    ensures job.Mid(i + 1, st')
    decreases job.enc, 2
  {
    var e, s := job.enc[i], SlotAt(job.m, i);
    FieldIsOk(job.enc, job.m, 0, i);
    assert WellFormedField(e) && ValidSlot(e, s, job.m.which);
    var j := Find(job.dec, e.tag);
    if j == |job.dec| {
      SkipsField(job.dec, st, e, s, job.m.which, tail);
      AdvanceNone(job, i, st);
      st' := st;
    } else {
      SourceIs(job, i, j);
      assert FieldSelects(job.dec[j], e);
      if e.rule.Array() {
        st' := ReadArray(job, i, st, j, tail);
      } else if Present(e, s, job.m.which) {
        st' := ReadSingle(job, i, st, j, tail);
      } else {
        NotSent(job, i, st, j);
        assert job.Sent(i) + tail == tail;
        st' := st;
      }
    }
  }

  /** What DecodeSingle makes of a decoded entry |v|. */
  function StoreSingle(f: Field, m: Msg, j: nat, v: Value): (r: Msg)
    ensures |r.slots| == |m.slots|
    ensures forall x | 0 <= x < |m.slots| && x != j :: r.slots[x] == m.slots[x]
  {
    var s := SlotAt(m, j);
    var m' := PutSlot(m, j, Slot(f.rule.Optional? || s.has, s.count, SetItem(s.items, 0, v)));
    if f.rule.OneOf? then m'.(which := m'.which[f.rule.group := f.tag]) else m'
  }

  function SinglePrev(f: Field, s: Slot): Value {
    if f.rule.OneOf? && f.kind.Message? then Sub(Defaults(f.kind.fields, ZeroMsg(f.kind.fields)))
    else ItemAt(s, 0)
  }

  lemma StepSingle(fields: seq<Field>, st: DState, j: nat, v: Value, tag: nat, wt: nat, body: seq<byte>, tail: seq<byte>)
    requires j < |fields| && Find(fields, tag) == j && !fields[j].rule.Array()
    requires 0 < tag < 0x2000_0000 && wt < 8
    requires DecodeItem(fields[j], SinglePrev(fields[j], SlotAt(st.m, j)), body + tail) == Ok(v, tail)
    ensures DecodeLoop(fields, st, EncodeTag(tag, wt) + body + tail)
         == DecodeLoop(fields, st.(seen := st.seen + {j}, m := StoreSingle(fields[j], st.m, j, v)), tail)
  {
    assert (tag * 8 + wt) / 8 == tag && (tag * 8 + wt) % 8 == wt;
    var st' := st.(seen := st.seen + {j}, m := StoreSingle(fields[j], st.m, j, v));
    assert DecodeSingle(fields[j], st.m, j, body + tail) == Ok(st'.m, tail);
    assert DecodeField(fields, st, j, wt, body + tail) == Ok(st', tail);
    ReadKey(fields, st, st', tag, wt, body, tail);
  }

  lemma SinglePrevPrepared(f: Field, s: Slot)
    requires Prepared(f, s) && !f.rule.Array() && f.kind.Message?
    ensures exists x: Msg :: AsMsg(SinglePrev(f, s)) == Defaults(f.kind.fields, x)
  {
    if f.rule.OneOf? {
      assert AsMsg(SinglePrev(f, s)) == Defaults(f.kind.fields, ZeroMsg(f.kind.fields));
    } else {
      var prev :| s.items[0] == DefaultValue(f, prev);
      assert AsMsg(SinglePrev(f, s)) == Defaults(f.kind.fields, AsMsg(prev));
    }
  }

  lemma {:induction false} ReadSingle(job: Job, i: nat, st: DState, j: nat, tail: seq<byte>) returns (st': DState)
    requires job.Valid() && i < |job.enc| && job.Mid(i, st) && j < |job.dec| && job.Source(j) == i
    requires !job.enc[i].rule.Array() && Present(job.enc[i], SlotAt(job.m, i), job.m.which)
    requires FieldOk(job.enc[i], SlotAt(job.m, i), job.m.which)
    ensures DecodeLoop(job.dec, st, job.Sent(i) + tail) == DecodeLoop(job.dec, st', tail)
    ensures job.Mid(i + 1, st')
    decreases job.enc, 1
  {
    var d, e, s := job.dec[j], job.enc[i], job.m.slots[i];
    assert FieldSelects(d, e) && WellFormedField(d) && WellFormedField(e) && ValidSlot(e, s, job.m.which);
    assert job.SlotMid(i, st, j) && Prepared(d, job.start.slots[j]);
    var t := st.m.slots[j];
    if d.kind.Message? {
      SinglePrevPrepared(d, t);
    }
    var v := ReadItem(d, e, s.items[0], SinglePrev(d, t), tail);
    SourceIs(job, i, j);
    StepSingle(job.dec, st, j, v, e.tag, e.kind.WireType(), EncodeItem(e, s.items[0]), tail);
    st' := st.(seen := st.seen + {j}, m := StoreSingle(d, st.m, j, v));
    assert job.Sent(i) == EncodeTag(e.tag, e.kind.WireType()) + EncodeItem(e, s.items[0]);
    SingleStored(job, i, st, j, v);
  }

  lemma SingleStored(job: Job, i: nat, st: DState, j: nat, v: Value)
    requires job.Valid() && i < |job.enc| && job.Mid(i, st) && j < |job.dec| && job.Source(j) == i
    requires !job.enc[i].rule.Array() && Present(job.enc[i], SlotAt(job.m, i), job.m.which)
    requires ItemMatches(job.dec[j], job.enc[i], ItemAt(SlotAt(job.m, i), 0), v)
    ensures job.Mid(i + 1, st.(seen := st.seen + {j}, m := StoreSingle(job.dec[j], st.m, j, v)))
  {
    var d, e := job.dec[j], job.enc[i];
    assert FieldSelects(d, e);
    assert job.SlotMid(i, st, j) && Prepared(d, job.start.slots[j]);
    var st' := st.(seen := st.seen + {j}, m := StoreSingle(d, st.m, j, v));
    assert ItemAt(st'.m.slots[j], 0) == v;
    assert job.SlotMid(i + 1, st', j);
    Advance(job, i, st, st', j);
  }

  // ----- arrays -----

  /** Entries of array field |j| decoded so far. */
  function CountOf(fields: seq<Field>, st: DState, j: nat): nat
    requires j < |fields|
  {
    if fields[j].rule.Repeated? then SlotAt(st.m, j).count
    else if st.fixedField == Some(j) then st.fixedSize
    else 0
  }

  /** What DecodeField makes of a run of array entries. */
  function StoreRun(fields: seq<Field>, st: DState, j: nat, run: Run): (r: DState)
    requires j < |fields|
    ensures |r.m.slots| == |st.m.slots|
    ensures forall x | 0 <= x < |st.m.slots| && x != j :: r.m.slots[x] == st.m.slots[x]
  {
    var s := SlotAt(st.m, j);
    if fields[j].rule.Repeated? then
      st.(seen := st.seen + {j}, m := PutSlot(st.m, j, Slot(s.has, run.count, run.items)))
    else
      DState(PutSlot(st.m, j, s.(items := run.items)), st.seen + {j}, Some(j), run.count)
  }

  lemma StepArray(fields: seq<Field>, st: DState, j: nat, run: Run, tag: nat, wt: nat, body: seq<byte>, tail: seq<byte>)
    requires j < |fields| && Find(fields, tag) == j && fields[j].rule.Array()
    requires 0 < tag < 0x2000_0000 && wt < 8
    requires st.fixedField == Some(j) || FixedComplete(fields, st)
    requires DecodeEntries(fields[j], SlotAt(st.m, j).items, CountOf(fields, st, j), wt, body + tail) == Ok(run, tail)
    ensures DecodeLoop(fields, st, EncodeTag(tag, wt) + body + tail)
         == DecodeLoop(fields, StoreRun(fields, st, j, run), tail)
  {
    assert (tag * 8 + wt) / 8 == tag && (tag * 8 + wt) % 8 == wt;
    assert DecodeField(fields, st, j, wt, body + tail) == Ok(StoreRun(fields, st, j, run), tail);
    ReadKey(fields, st, StoreRun(fields, st, j, run), tag, wt, body, tail);
  }

  /** The first |n| entries of |items| show the first |n| of |sent|. */
  ghost predicate RunMatches(d: Field, e: Field, sent: seq<Value>, items: seq<Value>, n: nat) {
    n <= |sent| && forall x | 0 <= x < n :: ItemMatches(d, e, sent[x], EntryAt(items, x))
  }

  lemma RunExtends(d: Field, e: Field, sent: seq<Value>, items: seq<Value>, n: nat, v: Value)
    requires RunMatches(d, e, sent, items, n) && n < |sent| && n < |items|
    requires ItemMatches(d, e, sent[n], v)
    ensures RunMatches(d, e, sent, SetItem(items, n, v), n + 1)
  {
    forall x | 0 <= x < n + 1 ensures ItemMatches(d, e, sent[x], EntryAt(SetItem(items, n, v), x)) {
    }
  }

  lemma {:induction false} ReadPacked(d: Field, e: Field, sent: seq<Value>, items: seq<Value>, n: nat) returns (run: Run)
    requires d.kind.Packable() && FieldSelects(d, e)
    requires forall x | 0 <= x < |sent| :: ValidItem(e, sent[x]) && ItemOk(e, sent[x])
    requires |items| == d.arraySize && |sent| <= d.arraySize && RunMatches(d, e, sent, items, n)
    ensures PackedLoop(d, items, n, EncodePacked(e, sent[n..])) == Ok(run, [])
    ensures run.count == |sent| && |run.items| == d.arraySize && RunMatches(d, e, sent, run.items, |sent|)
    decreases |sent| - n
  {
    if n == |sent| {
      run := Run(items, n);
    } else {
      assert sent[n..][1..] == sent[n + 1..];
      var more := EncodePacked(e, sent[n + 1..]);
      var v := sent[n];
      ReadScalar(e, v, more);
      SameScalar(d, e, EncodePacked(e, sent[n..]));
      ScalarNotEmpty(e, v.n);
      RunExtends(d, e, sent, items, n, v);
      run := ReadPacked(d, e, sent, SetItem(items, n, v), n + 1);
    }
  }

  lemma ScalarNotEmpty(f: Field, n: int)
    requires f.kind.Packable()
    ensures EncodeScalar(f, n) != []
  {
  }

  /** Array field |j| is being read: |n| entries are in, everything else is as it was. */
  ghost predicate Reading(job: Job, i: nat, st0: DState, st: DState, j: nat, n: nat)
    requires i < |job.enc| && j < |job.dec| && i < |job.m.slots|
  {
    && |st.m.slots| == |st0.m.slots| == |job.dec| && st.m.which == st0.m.which && st0.seen <= st.seen
    && (forall x | 0 <= x < |job.dec| && x != j :: st.m.slots[x] == st0.m.slots[x])
    && |st.m.slots[j].items| == job.dec[j].arraySize
    && CountOf(job.dec, st, j) == n
    && RunMatches(job.dec[j], job.enc[i], Used(job.enc[i], job.m.slots[i]), st.m.slots[j].items, n)
    && (if job.dec[j].rule.FixedCount? && n > 0 then st.fixedField == Some(j)
        else st.fixedField == st0.fixedField && st.fixedSize == st0.fixedSize)
  }

  lemma KeepsReading(job: Job, i: nat, st0: DState, st: DState, j: nat, n: nat, run: Run)
    requires i < |job.enc| && j < |job.dec| && i < |job.m.slots| && job.dec[j].rule.Array()
    requires Reading(job, i, st0, st, j, n) && n < run.count
    requires |run.items| == job.dec[j].arraySize
    requires RunMatches(job.dec[j], job.enc[i], Used(job.enc[i], job.m.slots[i]), run.items, run.count)
    ensures Reading(job, i, st0, StoreRun(job.dec, st, j, run), j, run.count)
  {
  }

  lemma DoneReading(job: Job, i: nat, st0: DState, st: DState, j: nat)
    requires job.Valid() && i < |job.enc| && j < |job.dec| && job.Source(j) == i && job.dec[j].rule.Array()
    requires job.Mid(i, st0) && FieldOk(job.enc[i], job.m.slots[i], job.m.which)
    requires Reading(job, i, st0, st, j, |Used(job.enc[i], job.m.slots[i])|)
    ensures job.Mid(i + 1, st)
  {
    var d, e, s := job.dec[j], job.enc[i], job.m.slots[i];
    assert FieldSelects(d, e) && ValidSlot(e, s, job.m.which);
    var used := Used(e, s);
    forall x | 0 <= x < |used| ensures EntryAt(s.items, x) == used[x] {
    }
    assert SlotMatches(d, e, s, st.m.slots[j], 0, 0);
    assert job.SlotMid(i + 1, st, j);
    Advance(job, i, st0, st, j);
  }

  ghost predicate ArrayJob(job: Job, i: nat, st0: DState, j: nat) {
    && job.Valid() && i < |job.enc| && j < |job.dec| && job.Source(j) == i && job.dec[j].rule.Array()
    && job.Mid(i, st0) && FieldOk(job.enc[i], job.m.slots[i], job.m.which)
  }

  function Sending(job: Job, i: nat): seq<Value>
    requires i < |job.enc| && i < |job.m.slots|
  {
    Used(job.enc[i], job.m.slots[i])
  }

  lemma {:induction false} ReadUnpacked(job: Job, i: nat, st0: DState, st: DState, j: nat, n: nat, tail: seq<byte>)
    returns (st': DState)
    requires ArrayJob(job, i, st0, j) && !job.enc[i].kind.Packable()
    requires n <= |Sending(job, i)| && Reading(job, i, st0, st, j, n)
    ensures DecodeLoop(job.dec, st, EncodeUnpacked(job.enc[i], Sending(job, i)[n..]) + tail)
         == DecodeLoop(job.dec, st', tail)
    ensures Reading(job, i, st0, st', j, |Sending(job, i)|)
    decreases job.enc, 0, |Sending(job, i)| - n, 1
  {
    var e := job.enc[i];
    var sent := Sending(job, i);
    if n == |sent| {
      assert EncodeUnpacked(e, sent[n..]) + tail == tail;
      st' := st;
    } else {
      assert sent[n..][1..] == sent[n + 1..];
      var more := EncodeUnpacked(e, sent[n + 1..]) + tail;
      var mid := ReadEntry(job, i, st0, st, j, n, more);
      assert EncodeUnpacked(e, sent[n..]) + tail == FieldTag(e) + EncodeItem(e, sent[n]) + more;
      st' := ReadUnpacked(job, i, st0, mid, j, n + 1, tail);
    }
  }

  lemma {:induction false} ReadEntry(job: Job, i: nat, st0: DState, st: DState, j: nat, n: nat, tail: seq<byte>)
    returns (st': DState)
    requires ArrayJob(job, i, st0, j) && !job.enc[i].kind.Packable()
    requires n < |Sending(job, i)| && Reading(job, i, st0, st, j, n)
    ensures DecodeLoop(job.dec, st, FieldTag(job.enc[i]) + EncodeItem(job.enc[i], Sending(job, i)[n]) + tail)
         == DecodeLoop(job.dec, st', tail)
    ensures Reading(job, i, st0, st', j, n + 1)
    decreases job.enc, 0, |Sending(job, i)| - n, 0
  {
    var d, e := job.dec[j], job.enc[i];
    var sent := Sending(job, i);
    assert FieldSelects(d, e) && WellFormedField(d) && WellFormedField(e);
    assert ValidSlot(e, job.m.slots[i], job.m.which);
    assert ItemsOk(e, sent) && ItemOk(e, sent[n]);
    var items := st.m.slots[j].items;
    var v := ReadItem(d, e, sent[n], EntryAt(items, n), tail);
    var run := Run(SetItem(items, n, v), n + 1);
    SourceIs(job, i, j);
    RunExtends(d, e, sent, items, n, v);
    EntryStep(d, items, n, e, sent[n], v, tail);
    StepArray(job.dec, st, j, run, e.tag, e.kind.WireType(), EncodeItem(e, sent[n]), tail);
    KeepsReading(job, i, st0, st, j, n, run);
    st' := StoreRun(job.dec, st, j, run);
  }

  lemma EntryStep(d: Field, items: seq<Value>, n: nat, e: Field, u: Value, v: Value, tail: seq<byte>)
    requires FieldSelects(d, e) && !d.kind.Packable() && n < d.arraySize
    requires DecodeItem(d, EntryAt(items, n), EncodeItem(e, u) + tail) == Ok(v, tail)
    ensures DecodeEntries(d, items, n, e.kind.WireType(), EncodeItem(e, u) + tail)
         == Ok(Run(SetItem(items, n, v), n + 1), tail)
  {
  }

  lemma {:induction false} ReadArray(job: Job, i: nat, st: DState, j: nat, tail: seq<byte>) returns (st': DState)
    requires ArrayJob(job, i, st, j)
    ensures DecodeLoop(job.dec, st, job.Sent(i) + tail) == DecodeLoop(job.dec, st', tail)
    ensures job.Mid(i + 1, st')
    decreases job.enc, 1
  {
    var d, e, s := job.dec[j], job.enc[i], job.m.slots[i];
    assert FieldSelects(d, e) && WellFormedField(e) && ValidSlot(e, s, job.m.which);
    assert job.SlotMid(i, st, j) && Prepared(d, job.start.slots[j]);
    var sent := Sending(job, i);
    assert SlotAt(job.m, i) == s && job.Sent(i) == EncodeArray(e, sent);
    assert Reading(job, i, st, st, j, 0);
    if sent == [] {
      assert job.Sent(i) + tail == tail;
      st' := st;
    } else if e.kind.Packable() {
      st' := ReadPackedArray(job, i, st, j, tail);
    } else {
      assert sent[0..] == sent;
      st' := ReadUnpacked(job, i, st, st, j, 0, tail);
    }
    DoneReading(job, i, st, st', j);
  }

  lemma {:induction false} ReadPackedArray(job: Job, i: nat, st: DState, j: nat, tail: seq<byte>) returns (st': DState)
    requires ArrayJob(job, i, st, j) && job.enc[i].kind.Packable() && Sending(job, i) != []
    requires Reading(job, i, st, st, j, 0)
    ensures DecodeLoop(job.dec, st, EncodeArray(job.enc[i], Sending(job, i)) + tail) == DecodeLoop(job.dec, st', tail)
    ensures Reading(job, i, st, st', j, |Sending(job, i)|)
  {
    var d, e, s := job.dec[j], job.enc[i], job.m.slots[i];
    assert FieldSelects(d, e) && WellFormedField(e) && ValidSlot(e, s, job.m.which);
    var sent := Sending(job, i);
    var items := st.m.slots[j].items;
    assert ItemsOk(e, sent);
    var run := ReadPacked(d, e, sent, items, 0);
    assert sent[0..] == sent;
    var body := LenPrefixed(EncodePacked(e, sent));
    PackedStep(d, items, run, EncodePacked(e, sent), tail);
    SourceIs(job, i, j);
    StepArray(job.dec, st, j, run, e.tag, WT_STRING, body, tail);
    KeepsReading(job, i, st, st, j, 0, run);
    st' := StoreRun(job.dec, st, j, run);
  }

  lemma PackedStep(d: Field, items: seq<Value>, run: Run, payload: seq<byte>, tail: seq<byte>)
    requires d.kind.Packable() && |payload| < TWO32
    requires PackedLoop(d, items, 0, payload) == Ok(run, [])
    ensures DecodeEntries(d, items, 0, WT_STRING, LenPrefixed(payload) + tail) == Ok(run, tail)
  {
    ReadPayload(payload, tail);
  }

  // ----- the theorems -----

  /** Unknown-field projection: a reader that knows only some of the fields
      accepts every encoding, consumes it whole, and sees exactly those fields. */
  lemma Projection(dec: seq<Field>, enc: seq<Field>, m: Msg, dest: Msg)
    requires WellFormed(dec) && WellFormed(enc) && Selects(dec, enc)
    requires ValidMsg(enc, m) && MsgOk(enc, m)
    ensures var r := DecodeMsg(dec, Defaults(dec, dest), EncodeMsg(enc, m));
            r.Ok? && r.rest == [] && Matches(dec, enc, m, r.v)
  {
    DefaultsArePrepared(dec, dest);
    var m' := ReadMsg(Job(dec, enc, m, Defaults(dec, dest)));
  }

  lemma {:induction false} SelectsItself(fields: seq<Field>)
    requires WellFormed(fields)
    ensures Selects(fields, fields)
    decreases fields, 0
  {
    forall j | 0 <= j < |fields|
      ensures Find(fields, fields[j].tag) == j && FieldSelects(fields[j], fields[j])
    {
      FindUnique(fields, j);
      FieldSelectsItself(fields[j]);
    }
  }

  lemma {:induction false} FieldSelectsItself(f: Field)
    requires WellFormedField(f)
    ensures FieldSelects(f, f)
    decreases f, 0
  {
    if f.kind.Message? {
      SelectsItself(f.kind.fields);
    }
  }

  /** Whole-message round trip, whatever the destination held before. */
  lemma RoundTrip(fields: seq<Field>, m: Msg, dest: Msg)
    requires WellFormed(fields) && ValidMsg(fields, m) && MsgOk(fields, m)
    ensures var r := DecodeMsg(fields, Defaults(fields, dest), EncodeMsg(fields, m));
            r.Ok? && r.rest == [] && Matches(fields, fields, m, r.v)
  {
    SelectsItself(fields);
    Projection(fields, fields, m, dest);
  }
}
