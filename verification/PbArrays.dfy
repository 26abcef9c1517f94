/** How many entries an array takes, what fits into storage, and how the members of a oneof
    replace each other. */
module PbArrays {
  import opened Common
  import opened Bits
  import opened PbWire
  import opened PbSchema
  import opened PbEncode
  import opened PbDecode
  import opened PbLaws
  import opened PbProject
  import opened PbMerge

  /** Field |i| is an array, the one its tag finds, with storage for all its entries. */
  ghost predicate HasArray(fields: seq<Field>, m: Msg, i: nat) {
    && i < |fields| && Find(fields, fields[i].tag) == i && WellFormedField(fields[i]) && fields[i].rule.Array()
    && !fields[i].kind.Message? && i < |m.slots| && |m.slots[i].items| == fields[i].arraySize
  }

  ghost predicate Sendable(f: Field, items: seq<Value>) {
    forall x | 0 <= x < |items| :: ValidItem(f, items[x]) && ItemOk(f, items[x])
  }

  /** One more entry: it is stored behind the others, or there is no room for it. */
  lemma {:induction false} NextEntry(fields: seq<Field>, st: DState, i: nat, v: Value, tail: seq<byte>)
    requires HasArray(fields, st.m, i) && ValidItem(fields[i], v) && ItemOk(fields[i], v)
    requires st.fixedField == Some(i) || FixedComplete(fields, st)
    ensures var n, f := CountOf(fields, st, i), fields[i];
            DecodeLoop(fields, st, Sent(f, v) + tail)
            == if n >= f.arraySize then Bad
               else DecodeLoop(fields, StoreRun(fields, st, i, Run(SetItem(st.m.slots[i].items, n, AsRead(f, v)), n + 1)), tail)
  {
    hide DecodeLoop, DecodeItem, EncodeItem, ValidItem, ItemOk, WellFormedField;
    var f, n, items := fields[i], CountOf(fields, st, i), st.m.slots[i].items;
    var key, body := f.tag * 8 + f.kind.WireType(), EncodeItem(f, v) + tail;
    ReadsValue(f, v, EntryAt(items, n), tail);
    assert 0 < f.tag < 0x2000_0000 by { TagIsSmall(f); }
    if n < f.arraySize {
      StepArray(fields, st, i, Run(SetItem(items, n, AsRead(f, v)), n + 1), f.tag, f.kind.WireType(), EncodeItem(f, v), tail);
    } else {
      assert key / 8 == f.tag && key % 8 == f.kind.WireType();
      assert DecodeField(fields, st, i, key % 8, body).Bad?;
      FailsThere(fields, st, key, body);
      assert EncodeVarint(key) + body == Sent(f, v) + tail;
    }
  }

  lemma {:induction false} TagIsSmall(f: Field)
    requires WellFormedField(f)
    ensures 0 < f.tag < 0x2000_0000
  {
  }

  lemma {:induction false} FailsThere(fields: seq<Field>, st: DState, key: nat, body: seq<byte>)
    requires 0 < key < TWO32 && Step(fields, st, key, body).Bad?
    ensures DecodeLoop(fields, st, EncodeVarint(key) + body).Bad?
  {
    Varint32RoundTrip(key, body);
  }

  /** Entries one after the other: they are stored in order as long as there is room. */
  lemma {:induction false} Entries(fields: seq<Field>, st: DState, i: nat, items: seq<Value>)
    requires HasArray(fields, st.m, i) && Sendable(fields[i], items)
    requires (st.fixedField == Some(i) || FixedComplete(fields, st)) && CountOf(fields, st, i) <= fields[i].arraySize
    ensures var n, r := CountOf(fields, st, i), DecodeLoop(fields, st, EncodeUnpacked(fields[i], items));
            && (r.Ok? <==> n + |items| <= fields[i].arraySize)
            && (r.Ok? ==>
                  && r.rest == [] && CountOf(fields, r.v, i) == n + |items| && i < |r.v.m.slots|
                  && r.v.fixedField == (if fields[i].rule.FixedCount? && items != [] then Some(i) else st.fixedField)
                  && Extends(fields[i], st.m.slots[i].items, r.v.m.slots[i].items, n, items))
    decreases |items|
  {
    hide ValidItem, ItemOk, WellFormedField, EncodeItem, Step, AsRead, FieldTag;
    var f, n := fields[i], CountOf(fields, st, i);
    if items != [] {
      var tail := EncodeUnpacked(f, items[1..]);
      assert EncodeUnpacked(f, items) == Sent(f, items[0]) + tail;
      NextEntry(fields, st, i, items[0], tail);
      if n < f.arraySize {
        var st' := StoreRun(fields, st, i, Run(SetItem(st.m.slots[i].items, n, AsRead(f, items[0])), n + 1));
        Entries(fields, st', i, items[1..]);
      }
    }
  }

  /** |after| is |before| with |items| from number |n| on. */
  ghost predicate Extends(f: Field, before: seq<Value>, after: seq<Value>, n: nat, items: seq<Value>) {
    && |after| == |before| && n + |items| <= |after|
    && (forall x | 0 <= x < n :: after[x] == before[x])
    && forall x | n <= x < n + |items| :: after[x] == AsRead(f, items[x - n])
  }

  /** A counted array takes any number of entries up to its size, one of fixed count none or
      exactly as many as its size; and they are stored in order. */
  lemma {:induction false} ArrayTakesExactly(fields: seq<Field>, m: Msg, i: nat, items: seq<Value>)
    requires HasArray(fields, m, i) && Sendable(fields[i], items) && (fields[i].rule.Repeated? ==> m.slots[i].count == 0)
    requires forall k | 0 <= k < |fields| :: !fields[k].rule.Required?
    ensures var f, r := fields[i], DecodeMsg(fields, m, EncodeUnpacked(fields[i], items));
            && (r.Ok? <==> if f.rule.Repeated? then |items| <= f.arraySize else items == [] || |items| == f.arraySize)
            && (r.Ok? ==>
                  && i < |r.v.slots| && |items| <= |r.v.slots[i].items| && (f.rule.Repeated? ==> r.v.slots[i].count == |items|)
                  && forall x | 0 <= x < |items| ::
                       r.v.slots[i].items[x] == if f.kind.String? then Blob(CStr(AsBlob(items[x]))) else items[x])
  {
    hide ValidItem, ItemOk, WellFormedField;
    Entries(fields, Start(m), i, items);
  }

  // ----- what fits -----

  /** A value that is accepted fits into the storage of its field: an integer into one of its
      size, bytes into their array, a string with its NUL, and bytes of a fixed number fill it. */
  lemma {:induction false} AcceptedFits(f: Field, prev: Value, bs: seq<byte>)
    requires DecodeItem(f, prev, bs).Ok?
    ensures var v := DecodeItem(f, prev, bs).v;
            match f.kind
            case Varint | SVarint =>
              v.Int? && ((f.dataSize == 1 && -0x80 <= v.n < 0x80) || (f.dataSize == 2 && -0x8000 <= v.n < 0x8000)
                         || (f.dataSize == 4 && -0x8000_0000 <= v.n < 0x8000_0000)
                         || (f.dataSize == 8 && -0x8000_0000_0000_0000 <= v.n < 0x8000_0000_0000_0000))
            case UVarint =>
              v.Int? && ((f.dataSize == 1 && 0 <= v.n < 0x100) || (f.dataSize == 2 && 0 <= v.n < 0x1_0000)
                         || (f.dataSize == 4 && 0 <= v.n < 0x1_0000_0000)
                         || (f.dataSize == 8 && 0 <= v.n < 0x1_0000_0000_0000_0000))
            case Fixed32 => v.Int? && 0 <= v.n < 0x1_0000_0000
            case Fixed64 => v.Int? && 0 <= v.n < 0x1_0000_0000_0000_0000
            case Bytes => v.Blob? && |v.b| + 4 <= f.dataSize
            case String => v.Blob? && |v.b| + 1 <= f.dataSize
            case FixedBytes => v.Blob? && |v.b| == f.dataSize
            case Message(_) => v.Sub?
  {
    match f.kind
    case Fixed32 => WordFits(bs, 4);
    case Fixed64 => WordFits(bs, 8);
    case _ =>
  }

  lemma {:induction false} WordFits(bs: seq<byte>, len: nat)
    requires len == 4 || len == 8
    requires Word(bs, len).Ok?
    ensures 0 <= Word(bs, len).v < if len == 4 then 0x1_0000_0000 else 0x1_0000_0000_0000_0000
  {
    LittleEndianFits(bs[..len]);
    Pow2Values();
  }

  lemma {:induction false} LittleEndianFits(bs: seq<byte>)
    ensures FromLittleEndian(bs) < Pow2(8 * |bs|)
  {
    if bs != [] {
      LittleEndianFits(bs[1..]);
      var room := Pow2(8 * (|bs| - 1));
      assert Pow2(8 * |bs|) == room * 256 by {
        Pow2Add(8 * (|bs| - 1), 8);
        Pow2Values();
      }
      assert FromLittleEndian(bs[1..]) <= room - 1;
    }
  }

  // ----- oneof -----

  /** What the contents of a member make of a fresh submessage. */
  function Fresh(f: Field, contents: seq<byte>): Res<Msg>
    requires f.kind.Message?
  {
    DecodeMsg(f.kind.fields, Defaults(f.kind.fields, ZeroMsg(f.kind.fields)), contents)
  }

  ghost predicate HasMember(fields: seq<Field>, i: nat) {
    && i < |fields| && Find(fields, fields[i].tag) == i && 0 < fields[i].tag < 0x2000_0000
    && fields[i].rule.OneOf? && fields[i].kind.Message?
  }

  lemma {:induction false} MemberOccurs(fields: seq<Field>, st: DState, i: nat, contents: seq<byte>, tail: seq<byte>)
    requires HasMember(fields, i) && |contents| < TWO32
    ensures var f, r := fields[i], Fresh(fields[i], contents);
            DecodeLoop(fields, st, Occurrence(f, contents) + tail)
            == if r.Ok? then DecodeLoop(fields, st.(seen := st.seen + {i}, m := StoreSingle(f, st.m, i, Sub(r.v))), tail) else Bad
  {
    hide DecodeLoop, Fresh, StoreSingle;
    var f := fields[i];
    var key, body := f.tag * 8 + WT_STRING, LenPrefixed(contents) + tail;
    assert key / 8 == f.tag && key % 8 == WT_STRING;
    assert Occurrence(f, contents) + tail == EncodeTag(f.tag, WT_STRING) + LenPrefixed(contents) + tail;
    assert Occurrence(f, contents) + tail == EncodeTag(f.tag, WT_STRING) + body;
    MemberItem(f, SinglePrev(f, SlotAt(st.m, i)), contents, tail);
    if Fresh(f, contents).Ok? {
      StepSingle(fields, st, i, Sub(Fresh(f, contents).v), f.tag, WT_STRING, LenPrefixed(contents), tail);
    } else {
      assert DecodeField(fields, st, i, WT_STRING, body).Bad?;
      FailsThere(fields, st, key, body);
    }
  }

  lemma {:induction false} MemberItem(f: Field, prev: Value, contents: seq<byte>, tail: seq<byte>)
    requires f.rule.OneOf? && f.kind.Message? && |contents| < TWO32
    requires prev == Sub(Defaults(f.kind.fields, ZeroMsg(f.kind.fields)))
    ensures var r := Fresh(f, contents);
            DecodeItem(f, prev, LenPrefixed(contents) + tail) == if r.Ok? then Ok(Sub(r.v), tail) else Bad
  {
    hide DecodeMsg, Defaults;
    ReadPayload(contents, tail);
  }

  /** A member of a oneof that occurs again replaces what it held: unlike elsewhere, a
      submessage there is not merged with the one before. */
  lemma {:induction false} MemberReplaces(fields: seq<Field>, st: DState, i: nat, a: seq<byte>, b: seq<byte>, tail: seq<byte>)
    requires HasMember(fields, i) && |a| < TWO32 && |b| < TWO32
    requires DecodeLoop(fields, st, Occurrence(fields[i], a)).Ok?
    ensures DecodeLoop(fields, st, Occurrence(fields[i], a) + Occurrence(fields[i], b) + tail)
         == DecodeLoop(fields, st, Occurrence(fields[i], b) + tail)
    ensures var r := DecodeLoop(fields, st, Occurrence(fields[i], a));
            WhichOf(r.v.m, fields[i].rule.group) == fields[i].tag
  {
    hide DecodeLoop, Fresh, Occurrence;
    var f := fields[i];
    var first, second := Occurrence(f, a), Occurrence(f, b);
    assert first + [] == first && first + second + tail == first + (second + tail);
    MemberOccurs(fields, st, i, a, []);
    MemberOccurs(fields, st, i, a, second + tail);
    var st' := st.(seen := st.seen + {i}, m := StoreSingle(f, st.m, i, Sub(Fresh(f, a).v)));
    MemberOccurs(fields, st', i, b, tail);
    MemberOccurs(fields, st, i, b, tail);
    LoopEnds(fields, st');
    if Fresh(f, b).Ok? {
      MemberStoredTwice(f, st.m, i, Sub(Fresh(f, a).v), Sub(Fresh(f, b).v));
      assert st'.seen + {i} == st.seen + {i};
    }
  }

  lemma {:induction false} LoopEnds(fields: seq<Field>, st: DState)
    ensures DecodeLoop(fields, st, []) == Ok(st, [])
  {
  }

  lemma {:induction false} MemberStoredTwice(f: Field, m: Msg, i: nat, u: Value, v: Value)
    requires f.rule.OneOf?
    ensures StoreSingle(f, StoreSingle(f, m, i, u), i, v) == StoreSingle(f, m, i, v)
  {
    var once, twice := StoreSingle(f, m, i, v), StoreSingle(f, StoreSingle(f, m, i, u), i, v);
    assert twice.which == once.which;
    if i < |m.slots| {
      assert SetItem(SetItem(m.slots[i].items, 0, u), 0, v) == SetItem(m.slots[i].items, 0, v);
      assert twice.slots[i] == once.slots[i];
    }
    assert twice.slots == once.slots;
  }
}
