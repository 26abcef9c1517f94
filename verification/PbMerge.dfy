/** What is stored of a field that occurs more than once, or not at all. */
module PbMerge {
  import opened Common
  import opened PbWire
  import opened PbSchema
  import opened PbEncode
  import opened PbDecode
  import opened PbLaws
  import opened PbProject

  /** The field is stored as one entry, and is in no oneof. */
  predicate Single(f: Field) {
    f.rule.Required? || f.rule.Optional? || f.rule.Singular?
  }

  /** Field |i| is the one its tag finds, and the structure has storage for its entry. */
  ghost predicate HasField(fields: seq<Field>, m: Msg, i: nat) {
    && i < |fields| && Find(fields, fields[i].tag) == i && 0 < fields[i].tag < 0x2000_0000 && Single(fields[i])
    && i < |m.slots| && |m.slots[i].items| == 1
  }

  /** A submessage as it is sent: the key, the length and the contents. */
  function Occurrence(f: Field, contents: seq<byte>): seq<byte> {
    EncodeTag(f.tag, WT_STRING) + LenPrefixed(contents)
  }

  /** The submessage stored before. */
  function Stored(m: Msg, i: nat): Msg {
    AsMsg(ItemAt(SlotAt(m, i), 0))
  }

  /** The state after an entry of a field. */
  function Store(fields: seq<Field>, st: DState, i: nat, v: Value): DState
    requires i < |fields|
  {
    var s := SlotAt(st.m, i);
    st.(m := PutSlot(st.m, i, Slot(fields[i].rule.Optional? || s.has, s.count, SetItem(s.items, 0, v))), seen := st.seen + {i})
  }

  /** A submessage that occurs is decoded into what is stored of it. */
  lemma {:induction false} Occurs(fields: seq<Field>, st: DState, i: nat, contents: seq<byte>, tail: seq<byte>)
    requires HasField(fields, st.m, i) && fields[i].kind.Message? && |contents| < TWO32
    ensures var r := DecodeMsg(fields[i].kind.fields, Stored(st.m, i), contents);
            DecodeLoop(fields, st, Occurrence(fields[i], contents) + tail)
            == if r.Ok? then DecodeLoop(fields, Store(fields, st, i, Sub(r.v)), tail) else Bad
  {
    hide DecodeField, DecodeMsg, Store;
    var f := fields[i];
    var key, body := f.tag * 8 + WT_STRING, LenPrefixed(contents) + tail;
    assert key / 8 == f.tag && key % 8 == WT_STRING;
    assert Occurrence(f, contents) + tail == EncodeTag(f.tag, WT_STRING) + body;
    Varint32RoundTrip(key, body);
    FieldOccurs(fields, st, i, contents, tail);
  }

  lemma {:induction false} FieldOccurs(fields: seq<Field>, st: DState, i: nat, contents: seq<byte>, tail: seq<byte>)
    requires HasField(fields, st.m, i) && fields[i].kind.Message? && |contents| < TWO32
    ensures var r := DecodeMsg(fields[i].kind.fields, Stored(st.m, i), contents);
            DecodeField(fields, st, i, WT_STRING, LenPrefixed(contents) + tail)
            == if r.Ok? then Ok(Store(fields, st, i, Sub(r.v)), tail) else Bad
  {
    hide DecodeMsg;
    ReadPayload(contents, tail);
    ItemOccurs(fields[i], ItemAt(SlotAt(st.m, i), 0), LenPrefixed(contents) + tail, contents, tail);
  }

  lemma {:induction false} ItemOccurs(f: Field, prev: Value, bs: seq<byte>, contents: seq<byte>, tail: seq<byte>)
    requires f.kind.Message? && Single(f) && Payload(bs) == Ok(contents, tail)
    ensures var r := DecodeMsg(f.kind.fields, AsMsg(prev), contents);
            DecodeItem(f, prev, bs) == if r.Ok? then Ok(Sub(r.v), tail) else Bad
  {
  }

  /** Storing twice is storing once. */
  lemma {:induction false} StoredTwice(fields: seq<Field>, st: DState, i: nat, u: Value, v: Value)
    requires HasField(fields, st.m, i)
    ensures Store(fields, Store(fields, st, i, u), i, v) == Store(fields, st, i, v)
    ensures HasField(fields, Store(fields, st, i, u).m, i) && ItemAt(SlotAt(Store(fields, st, i, u).m, i), 0) == u
  {
    var st', s := Store(fields, st, i, u), st.m.slots[i];
    assert st'.seen + {i} == st.seen + {i};
    assert SetItem(SetItem(s.items, 0, u), 0, v) == SetItem(s.items, 0, v);
    var t := SlotAt(Store(fields, st, i, v).m, i);
    assert st.m.slots[i := SlotAt(st'.m, i)][i := t] == st.m.slots[i := t];
  }

  /** Last one wins, and submessages are merged: a submessage sent in two occurrences leaves
      what one occurrence with the contents of both leaves, whatever comes before and after. */
  lemma {:induction false} OccurrencesMerge(fields: seq<Field>, st: DState, i: nat, a: seq<byte>, b: seq<byte>, tail: seq<byte>)
    requires HasField(fields, st.m, i) && fields[i].kind.Message? && |a| + |b| < TWO32
    requires NoFixedCount(fields[i].kind.fields) && !StopsAtZero(fields[i].kind.fields, Start(Stored(st.m, i)), a)
    requires DecodeLoop(fields, st, Occurrence(fields[i], a) + Occurrence(fields[i], b)).Ok?
    ensures DecodeLoop(fields, st, Occurrence(fields[i], a) + Occurrence(fields[i], b) + tail)
         == DecodeLoop(fields, st, Occurrence(fields[i], a + b) + tail)
  {
    hide DecodeLoop, DecodeMsg, Store, Occurrence, StopsAtZero;
    var f := fields[i];
    var sub, before := f.kind.fields, Stored(st.m, i);
    Occurs(fields, st, i, a, Occurrence(f, b));
    var first := DecodeMsg(sub, before, a);
    var st' := Store(fields, st, i, Sub(first.v));
    StoredTwice(fields, st, i, Sub(first.v), Sub(first.v));
    assert Occurrence(f, b) + [] == Occurrence(f, b);
    Occurs(fields, st', i, b, []);
    ConcatenationIsMerge(sub, before, a, b);
    assert Occurrence(f, a) + Occurrence(f, b) + tail == Occurrence(f, a) + (Occurrence(f, b) + tail);
    Occurs(fields, st, i, a, Occurrence(f, b) + tail);
    Occurs(fields, st', i, b, tail);
    Occurs(fields, st, i, a + b, tail);
    var last := DecodeMsg(sub, first.v, b).v;
    StoredTwice(fields, st, i, Sub(first.v), Sub(last));
  }

  /** The same of a whole message. */
  lemma {:induction false} SubmessagesMerge(fields: seq<Field>, m: Msg, i: nat, a: seq<byte>, b: seq<byte>, tail: seq<byte>)
    requires HasField(fields, m, i) && fields[i].kind.Message? && |a| + |b| < TWO32
    requires NoFixedCount(fields[i].kind.fields) && !StopsAtZero(fields[i].kind.fields, Start(Stored(m, i)), a)
    requires DecodeMsg(fields, m, Occurrence(fields[i], a) + Occurrence(fields[i], b)).Ok?
    ensures DecodeMsg(fields, m, Occurrence(fields[i], a) + Occurrence(fields[i], b) + tail)
         == DecodeMsg(fields, m, Occurrence(fields[i], a + b) + tail)
  {
    OccurrencesMerge(fields, Start(m), i, a, b, tail);
  }

  /** An entry of a field that is no submessage, as it is sent. */
  function Sent(f: Field, v: Value): seq<byte> {
    FieldTag(f) + EncodeItem(f, v)
  }

  /** What is read of a value: a string up to its NUL. */
  function AsRead(f: Field, v: Value): Value {
    if f.kind.String? then Blob(CStr(AsBlob(v))) else v
  }

  lemma {:induction false} ReadsValue(f: Field, v: Value, prev: Value, tail: seq<byte>)
    requires WellFormedField(f) && !f.kind.Message? && ValidItem(f, v) && ItemOk(f, v)
    ensures DecodeItem(f, prev, EncodeItem(f, v) + tail) == Ok(AsRead(f, v), tail)
  {
    match f.kind
    case Bytes | FixedBytes => ReadPayload(v.b, tail);
    case String => ReadPayload(CStr(v.b), tail);
    case Varint | UVarint | SVarint | Fixed32 | Fixed64 => ReadScalar(f, v, tail);
  }

  /** An entry that is sent is stored. */
  lemma {:induction false} IsStored(fields: seq<Field>, st: DState, i: nat, v: Value, tail: seq<byte>)
    requires HasField(fields, st.m, i) && WellFormedField(fields[i]) && !fields[i].kind.Message?
    requires ValidItem(fields[i], v) && ItemOk(fields[i], v)
    ensures DecodeLoop(fields, st, Sent(fields[i], v) + tail) == DecodeLoop(fields, Store(fields, st, i, AsRead(fields[i], v)), tail)
  {
    hide DecodeLoop, DecodeItem, EncodeItem, ValidItem;
    var f := fields[i];
    ReadsValue(f, v, ItemAt(SlotAt(st.m, i), 0), tail);
    StepSingle(fields, st, i, AsRead(f, v), f.tag, f.kind.WireType(), EncodeItem(f, v), tail);
  }

  /** Last one wins: of two values of a field the later one is stored, and it is as if the
      earlier one had not been sent. */
  lemma {:induction false} LastWins(fields: seq<Field>, m: Msg, i: nat, u: Value, v: Value, rest: seq<byte>)
    requires HasField(fields, m, i) && WellFormedField(fields[i]) && !fields[i].kind.Message?
    requires ValidItem(fields[i], u) && ItemOk(fields[i], u) && ValidItem(fields[i], v) && ItemOk(fields[i], v)
    ensures DecodeMsg(fields, m, Sent(fields[i], u) + Sent(fields[i], v) + rest) == DecodeMsg(fields, m, Sent(fields[i], v) + rest)
    ensures var r := DecodeMsg(fields, m, Sent(fields[i], u) + Sent(fields[i], v));
            r.Ok? ==> ItemAt(SlotAt(r.v, i), 0) == if fields[i].kind.String? then Blob(CStr(AsBlob(v))) else v
  {
    hide Sent;
    var f, st := fields[i], Start(m);
    assert Sent(f, u) + Sent(f, v) + rest == Sent(f, u) + (Sent(f, v) + rest);
    assert Sent(f, v) + [] == Sent(f, v);
    BothStored(fields, st, i, u, v, rest);
    BothStored(fields, st, i, u, v, []);
    StoredTwice(fields, st, i, AsRead(f, v), AsRead(f, v));
  }

  lemma {:induction false} BothStored(fields: seq<Field>, st: DState, i: nat, u: Value, v: Value, rest: seq<byte>)
    requires HasField(fields, st.m, i) && WellFormedField(fields[i]) && !fields[i].kind.Message?
    requires ValidItem(fields[i], u) && ItemOk(fields[i], u) && ValidItem(fields[i], v) && ItemOk(fields[i], v)
    ensures DecodeLoop(fields, st, Sent(fields[i], u) + (Sent(fields[i], v) + rest))
         == DecodeLoop(fields, st, Sent(fields[i], v) + rest)
         == DecodeLoop(fields, Store(fields, st, i, AsRead(fields[i], v)), rest)
  {
    hide DecodeLoop, Sent, AsRead, ValidItem, ItemOk;
    var f := fields[i];
    IsStored(fields, st, i, u, Sent(f, v) + rest);
    StoredTwice(fields, st, i, AsRead(f, u), AsRead(f, v));
    IsStored(fields, Store(fields, st, i, AsRead(f, u)), i, v, rest);
    IsStored(fields, st, i, v, rest);
  }

  // ----- fields that do not occur -----

  /** What does not occur is left as it was. */
  lemma {:induction false} NotRead(fields: seq<Field>, st: DState, bs: seq<byte>, i: nat)
    requires i < |fields| && DecodeLoop(fields, st, bs).Ok? && i !in FieldsRead(fields, st, bs)
    ensures SlotAt(DecodeLoop(fields, st, bs).v.m, i) == SlotAt(st.m, i)
    decreases |bs|
  {
    if bs != [] {
      var key, body := Varint32(bs).v, Varint32(bs).rest;
      if key != 0 {
        var r := Step(fields, st, key, body);
        var k := Find(fields, key / 8);
        assert FieldsRead(fields, st, bs) == (if k < |fields| then [k] else []) + FieldsRead(fields, r.v, r.rest);
        StepLeavesOthers(fields, st, key, body, i);
        NotRead(fields, r.v, r.rest, i);
      }
    }
  }

  /** pb_decode: a field that does not occur shows its default, the declared one or zero,
      whatever the storage held before; an optional one is marked absent, and an array empty. */
  lemma {:induction false} AbsentShowsDefault(fields: seq<Field>, dest: Msg, bs: seq<byte>, i: nat)
    requires DecodeMsg(fields, Defaults(fields, dest), bs).Ok?
    requires i < |fields| && i !in FieldsRead(fields, Start(Defaults(fields, dest)), bs)
    ensures var f, s := fields[i], SlotAt(DecodeMsg(fields, Defaults(fields, dest), bs).v, i);
            && (f.rule.Optional? ==> !s.has)
            && (f.rule.Array() ==> s.count == 0)
            && (Single(f) && f.dflt.Some? && !f.kind.Message? ==> s.items == [f.dflt.value])
            && (Single(f) && f.dflt.None? ==>
                  match f.kind
                  case Bytes | String => s.items == [Blob([])]
                  case FixedBytes => s.items == [Blob(Zeros(f.dataSize))]
                  case Message(_) => true
                  case _ => s.items == [Int(0)])
  {
    NotRead(fields, Start(Defaults(fields, dest)), bs, i);
    var f, s := fields[i], Defaults(fields, dest).slots[i];
    assert s == DefaultSlot(f, SlotAt(dest, i));
    if Single(f) {
      assert s.items == [DefaultValue(f, ItemAt(SlotAt(dest, i), 0))];
    }
  }

  /** In particular, of the empty input. */
  lemma {:induction false} NothingSetsDefaults(fields: seq<Field>, dest: Msg)
    requires forall i | 0 <= i < |fields| :: !fields[i].rule.Required?
    ensures DecodeMsg(fields, Defaults(fields, dest), []) == Ok(Defaults(fields, dest), [])
    ensures forall i | 0 <= i < |fields| && fields[i].dflt.Some? && Single(fields[i]) && !fields[i].kind.Message? ::
              Defaults(fields, dest).slots[i].items == [fields[i].dflt.value]
  {
    forall i | 0 <= i < |fields| && fields[i].dflt.Some? && Single(fields[i]) && !fields[i].kind.Message?
      ensures Defaults(fields, dest).slots[i].items == [fields[i].dflt.value]
    {
      AbsentShowsDefault(fields, dest, [], i);
    }
  }
}
