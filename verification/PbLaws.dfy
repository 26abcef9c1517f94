/** Laws of the decoder on arbitrary input: it reads a stream piece by piece,
    so decoding a concatenation is decoding the parts one after the other into
    the same structure; and it never lets an array count leave its bounds. */
module PbLaws {
  import opened Common
  import opened PbWire
  import opened PbSchema
  import opened PbDecode

  // ----- a successful read does not depend on what follows -----

  /** |r| with |more| appended to what was left over. */
  function Followed<T>(r: Res<T>, more: seq<byte>): Res<T> {
    if r.Ok? then Ok(r.v, r.rest + more) else Bad
  }

  lemma {:induction false} Groups64Local(a: seq<byte>, b: seq<byte>, n: nat)
    requires n <= 10 && Groups64(a, n).Ok?
    ensures Groups64(a + b, n) == Followed(Groups64(a, n), b)
  {
    assert (a + b)[1..] == a[1..] + b;
    if a[0] >= 128 {
      Groups64Local(a[1..], b, n + 1);
    }
  }

  lemma {:induction false} ExtensionLocal(a: seq<byte>, b: seq<byte>, bitpos: nat, negative: bool)
    requires Extension(a, bitpos, negative).Ok?
    ensures Extension(a + b, bitpos, negative) == Followed(Extension(a, bitpos, negative), b)
  {
    assert (a + b)[1..] == a[1..] + b;
    if a[0] >= 128 {
      ExtensionLocal(a[1..], b, bitpos + 7, negative);
    }
  }

  lemma {:induction false} Groups32Local(a: seq<byte>, b: seq<byte>, n: nat)
    requires n <= 4 && Groups32(a, n).Ok?
    ensures Groups32(a + b, n) == Followed(Groups32(a, n), b)
  {
    assert (a + b)[1..] == a[1..] + b;
    if a[0] >= 128 {
      if n == 4 {
        ExtensionLocal(a[1..], b, 35, a[0] / 8 % 2 == 1);
      } else {
        Groups32Local(a[1..], b, n + 1);
      }
    }
  }

  lemma TakeLocal(a: seq<byte>, b: seq<byte>, n: nat)
    requires n <= |a|
    ensures Take(a + b, n) == Followed(Take(a, n), b)
  {
    assert (a + b)[..n] == a[..n] && (a + b)[n..] == a[n..] + b;
  }

  lemma ScalarLocal(f: Field, a: seq<byte>, b: seq<byte>)
    requires f.kind.Packable() && DecodeScalar(f, a).Ok?
    ensures DecodeScalar(f, a + b) == Followed(DecodeScalar(f, a), b)
  {
    match f.kind
    case Varint | UVarint | SVarint => Groups64Local(a, b, 0);
    case Fixed32 => TakeLocal(a, b, 4);
    case Fixed64 => TakeLocal(a, b, 8);
  }

  lemma PayloadLocal(a: seq<byte>, b: seq<byte>)
    requires Payload(a).Ok?
    ensures Payload(a + b) == Followed(Payload(a), b)
  {
    Groups32Local(a, b, 0);
    TakeLocal(Varint32(a).rest, b, Varint32(a).v);
  }

  lemma {:induction false} SkipVarintLocal(a: seq<byte>, b: seq<byte>)
    requires SkipVarint(a).Ok?
    ensures SkipVarint(a + b) == Followed(SkipVarint(a), b)
  {
    assert (a + b)[1..] == a[1..] + b;
    if a[0] >= 128 {
      SkipVarintLocal(a[1..], b);
    }
  }

  lemma SkipLocal(wireType: nat, a: seq<byte>, b: seq<byte>)
    requires Skip(wireType, a).Ok?
    ensures Skip(wireType, a + b) == Followed(Skip(wireType, a), b)
  {
    if wireType == WT_VARINT {
      SkipVarintLocal(a, b);
    } else if wireType == WT_STRING {
      PayloadLocal(a, b);
    } else if wireType == WT_64BIT {
      TakeLocal(a, b, 8);
    } else {
      TakeLocal(a, b, 4);
    }
  }

  lemma ItemLocal(f: Field, prev: Value, a: seq<byte>, b: seq<byte>)
    requires DecodeItem(f, prev, a).Ok?
    ensures DecodeItem(f, prev, a + b) == Followed(DecodeItem(f, prev, a), b)
  {
    if f.kind.Packable() {
      ScalarLocal(f, a, b);
    } else {
      PayloadLocal(a, b);
    }
  }

  lemma EntriesLocal(f: Field, items: seq<Value>, count: nat, wireType: nat, a: seq<byte>, b: seq<byte>)
    requires DecodeEntries(f, items, count, wireType, a).Ok?
    ensures DecodeEntries(f, items, count, wireType, a + b) == Followed(DecodeEntries(f, items, count, wireType, a), b)
  {
    if wireType == WT_STRING && f.kind.Packable() {
      PayloadLocal(a, b);
    } else {
      ItemLocal(f, EntryAt(items, count), a, b);
    }
  }

  lemma SingleLocal(f: Field, m: Msg, i: nat, a: seq<byte>, b: seq<byte>)
    requires DecodeSingle(f, m, i, a).Ok?
    ensures DecodeSingle(f, m, i, a + b) == Followed(DecodeSingle(f, m, i, a), b)
  {
    var prev := if f.rule.OneOf? && f.kind.Message? then Sub(Defaults(f.kind.fields, ZeroMsg(f.kind.fields)))
                else ItemAt(SlotAt(m, i), 0);
    ItemLocal(f, prev, a, b);
  }

  lemma FieldLocal(fields: seq<Field>, st: DState, i: nat, wireType: nat, a: seq<byte>, b: seq<byte>)
    requires i < |fields| && DecodeField(fields, st, i, wireType, a).Ok?
    ensures DecodeField(fields, st, i, wireType, a + b) == Followed(DecodeField(fields, st, i, wireType, a), b)
  {
    var f, s := fields[i], SlotAt(st.m, i);
    match f.rule
    case Repeated => EntriesLocal(f, s.items, s.count, wireType, a, b);
    case FixedCount =>
      var st' := SwitchFixed(fields, st.(seen := st.seen + {i}), i).value;
      EntriesLocal(f, s.items, st'.fixedSize, wireType, a, b);
    case Required | Optional | Singular | OneOf(_) => SingleLocal(f, st.m, i, a, b);
  }

  lemma StepLocal(fields: seq<Field>, st: DState, key: nat, a: seq<byte>, b: seq<byte>)
    requires Step(fields, st, key, a).Ok?
    ensures Step(fields, st, key, a + b) == Followed(Step(fields, st, key, a), b)
  {
    var i := Find(fields, key / 8);
    if i < |fields| {
      FieldLocal(fields, st, i, key % 8, a, b);
    } else {
      SkipLocal(key % 8, a, b);
    }
  }

  // ----- concatenation -----

  /** Whether the loop is ended by a key of zero, nanopb's optional end marker. */
  predicate StopsAtZero(fields: seq<Field>, st: DState, bs: seq<byte>)
    decreases |bs|
  {
    && bs != [] && Varint32(bs).Ok?
    && (Varint32(bs).v == 0
        || var r := Step(fields, st, Varint32(bs).v, Varint32(bs).rest);
           r.Ok? && StopsAtZero(fields, r.v, r.rest))
  }

  /** Appending input: the loop carries on where it was, unless it had met the end
      marker, in which case the additional bytes are never looked at. */
  lemma {:induction false} LoopAppends(fields: seq<Field>, st: DState, a: seq<byte>, b: seq<byte>)
    requires DecodeLoop(fields, st, a).Ok?
    ensures DecodeLoop(fields, st, a + b)
         == if StopsAtZero(fields, st, a) then Followed(DecodeLoop(fields, st, a), b)
            else DecodeLoop(fields, DecodeLoop(fields, st, a).v, b)
    ensures !StopsAtZero(fields, st, a) ==> DecodeLoop(fields, st, a).rest == []
    decreases |a|
  {
    if a == [] {
      assert a + b == b;
    } else {
      Groups32Local(a, b, 0);
      var key, body := Varint32(a).v, Varint32(a).rest;
      if key != 0 {
        StepLocal(fields, st, key, body, b);
        var r := Step(fields, st, key, body);
        LoopAppends(fields, r.v, r.rest, b);
      }
    }
  }

  ghost predicate NoFixedCount(fields: seq<Field>) {
    forall i | 0 <= i < |fields| :: !fields[i].rule.FixedCount?
  }

  /** Which fields were seen before has no influence on what is stored. */
  lemma StepSeen(fields: seq<Field>, st: DState, seen: set<nat>, key: nat, bs: seq<byte>)
    requires NoFixedCount(fields) && Step(fields, st, key, bs).Ok?
    ensures var r := Step(fields, st, key, bs);
            Step(fields, st.(seen := seen + st.seen), key, bs) == Ok(r.v.(seen := seen + r.v.seen), r.rest)
    ensures st.seen <= Step(fields, st, key, bs).v.seen
    ensures Step(fields, st, key, bs).v.fixedField == st.fixedField
  {
    var i := Find(fields, key / 8);
    if i < |fields| {
      assert !fields[i].rule.FixedCount?;
      assert seen + (st.seen + {i}) == seen + st.seen + {i};
    }
  }

  lemma {:induction false} LoopSeen(fields: seq<Field>, st: DState, seen: set<nat>, bs: seq<byte>)
    requires NoFixedCount(fields) && DecodeLoop(fields, st, bs).Ok?
    ensures var r := DecodeLoop(fields, st, bs);
            DecodeLoop(fields, st.(seen := seen + st.seen), bs) == Ok(r.v.(seen := seen + r.v.seen), r.rest)
    ensures DecodeLoop(fields, st, bs).v.fixedField == st.fixedField
    decreases |bs|
  {
    if bs != [] {
      var key, body := Varint32(bs).v, Varint32(bs).rest;
      if key != 0 {
        StepSeen(fields, st, seen, key, body);
        var r := Step(fields, st, key, body);
        LoopSeen(fields, r.v, seen, r.rest);
      }
    }
  }

  lemma StartedAgain(fields: seq<Field>, st: DState, b: seq<byte>)
    requires NoFixedCount(fields) && st.fixedField.None? && st.fixedSize == 0
    requires DecodeLoop(fields, Start(st.m), b).Ok?
    ensures var r := DecodeLoop(fields, Start(st.m), b);
            DecodeLoop(fields, st, b) == Ok(r.v.(seen := st.seen + r.v.seen), r.rest)
    ensures DecodeLoop(fields, Start(st.m), b).v.fixedField.None?
  {
    LoopSeen(fields, Start(st.m), st.seen, b);
    assert Start(st.m).(seen := st.seen + {}) == st;
  }

  lemma StepFixed(fields: seq<Field>, st: DState, key: nat, bs: seq<byte>)
    requires NoFixedCount(fields) && Step(fields, st, key, bs).Ok?
    ensures Step(fields, st, key, bs).v.fixedField == st.fixedField
    ensures Step(fields, st, key, bs).v.fixedSize == st.fixedSize
  {
    var i := Find(fields, key / 8);
    assert i < |fields| ==> !fields[i].rule.FixedCount?;
  }

  lemma {:induction false} LoopFixedSize(fields: seq<Field>, st: DState, bs: seq<byte>)
    requires NoFixedCount(fields) && DecodeLoop(fields, st, bs).Ok?
    ensures DecodeLoop(fields, st, bs).v.fixedField == st.fixedField
    ensures DecodeLoop(fields, st, bs).v.fixedSize == st.fixedSize
    decreases |bs|
  {
    if bs != [] {
      var key, body := Varint32(bs).v, Varint32(bs).rest;
      if key != 0 {
        StepFixed(fields, st, key, body);
        var r := Step(fields, st, key, body);
        LoopFixedSize(fields, r.v, r.rest);
      }
    }
  }

  /** Concatenation is merge: decoding |a| and then |b| into the same structure is
      decoding |a + b| in one call. */
  lemma ConcatenationIsMerge(fields: seq<Field>, m: Msg, a: seq<byte>, b: seq<byte>)
    requires NoFixedCount(fields) && !StopsAtZero(fields, Start(m), a)
    requires DecodeMsg(fields, m, a).Ok?
    requires DecodeMsg(fields, DecodeMsg(fields, m, a).v, b).Ok?
    ensures DecodeMsg(fields, m, a + b) == DecodeMsg(fields, DecodeMsg(fields, m, a).v, b)
  {
    var st := DecodeLoop(fields, Start(m), a).v;
    LoopAppends(fields, Start(m), a, b);
    LoopFixedSize(fields, Start(m), a);
    StartedAgain(fields, st, b);
  }

  /** The end marker is the one thing that breaks it: whatever follows is ignored. */
  lemma EndMarkerHidesTheRest(fields: seq<Field>, m: Msg, a: seq<byte>, b: seq<byte>)
    requires StopsAtZero(fields, Start(m), a) && DecodeMsg(fields, m, a).Ok?
    ensures DecodeMsg(fields, m, a + b).Ok?
    ensures DecodeMsg(fields, m, a + b).v == DecodeMsg(fields, m, a).v
  {
    LoopAppends(fields, Start(m), a, b);
  }

  // ----- the required-field check -----

  /** The known fields in the order their keys are read. */
  function FieldsRead(fields: seq<Field>, st: DState, bs: seq<byte>): seq<nat>
    decreases |bs|
  {
    if bs == [] || Varint32(bs).Bad? || Varint32(bs).v == 0 then []
    else
      var key := Varint32(bs).v;
      var r := Step(fields, st, key, Varint32(bs).rest);
      if r.Bad? then []
      else
        var i := Find(fields, key / 8);
        (if i < |fields| then [i] else []) + FieldsRead(fields, r.v, r.rest)
  }

  lemma {:induction false} SeenAreRead(fields: seq<Field>, st: DState, bs: seq<byte>, i: nat)
    requires DecodeLoop(fields, st, bs).Ok?
    ensures i in DecodeLoop(fields, st, bs).v.seen <==> i in st.seen || i in FieldsRead(fields, st, bs)
    decreases |bs|
  {
    if bs != [] && Varint32(bs).v != 0 {
      var key := Varint32(bs).v;
      var r := Step(fields, st, key, Varint32(bs).rest);
      StepMarks(fields, st, key, Varint32(bs).rest);
      SeenAreRead(fields, r.v, r.rest, i);
    }
  }

  lemma StepMarks(fields: seq<Field>, st: DState, key: nat, bs: seq<byte>)
    requires Step(fields, st, key, bs).Ok?
    ensures var i := Find(fields, key / 8);
            Step(fields, st, key, bs).v.seen == st.seen + if i < |fields| then {i} else {}
  {
  }

  /** When nothing else is wrong, decoding succeeds if and only if each of the
      first 64 required fields occurred, in whatever order the fields came. */
  lemma RequiredCheckIsExact(fields: seq<Field>, m: Msg, bs: seq<byte>)
    requires DecodeLoop(fields, Start(m), bs).Ok?
    requires FixedComplete(fields, DecodeLoop(fields, Start(m), bs).v)
    ensures DecodeMsg(fields, m, bs).Ok? <==>
            forall i | 0 <= i < |fields| ::
              TrackedRequired(fields, i) ==> i in FieldsRead(fields, Start(m), bs)
  {
    forall i | 0 <= i < |fields|
      ensures i in DecodeLoop(fields, Start(m), bs).v.seen <==> i in FieldsRead(fields, Start(m), bs)
    {
      SeenAreRead(fields, Start(m), bs, i);
    }
  }

  // ----- array bounds -----

  /** The field is the one in use of its oneof. */
  ghost predicate Selected(fields: seq<Field>, m: Msg, i: nat)
    requires i < |fields|
  {
    var f := fields[i];
    f.rule.OneOf? && f.rule.group in m.which && m.which[f.rule.group] == f.tag && Find(fields, f.tag) == i
  }

  /** How many of the entries of a slot are to be looked at: |all| of them, or just those in
      use, which leaves out what an array has beyond its count, a oneof member that is not
      selected, and an array of fixed count, which has no count of its own. */
  ghost function InUse(f: Field, s: Slot, all: bool, selected: bool): (n: nat)
    ensures n <= |s.items|
  {
    if all then |s.items|
    else
      match f.rule
      case Repeated => if s.count < |s.items| then s.count else |s.items|
      case FixedCount => 0
      case OneOf(_) => if selected && s.items != [] then 1 else 0
      case _ => |s.items|
  }

  /** No array count in the structure, or in any submessage it stores, exceeds the array. */
  ghost predicate Bounded(fields: seq<Field>, m: Msg, all: bool)
    decreases fields, 0
  {
    forall i | 0 <= i < |fields| :: BoundedSlot(fields[i], SlotAt(m, i), all, Selected(fields, m, i))
  }

  ghost predicate BoundedSlot(f: Field, s: Slot, all: bool, selected: bool)
    decreases f, 1
  {
    && (f.rule.Repeated? ==> s.count <= f.arraySize)
    && BoundedItems(f, s.items[..InUse(f, s, all, selected)], all)
  }

  ghost predicate BoundedItems(f: Field, items: seq<Value>, all: bool)
    decreases f, 0
  {
    f.kind.Message? ==> forall j | 0 <= j < |items| :: Bounded(f.kind.fields, AsMsg(items[j]), all)
  }

  lemma {:induction false} EmptyIsBounded(fields: seq<Field>, all: bool)
    ensures Bounded(fields, Msg([], map[]), all)
  {
  }

  lemma {:induction false} ZeroIsBounded(fields: seq<Field>, all: bool)
    ensures Bounded(fields, ZeroMsg(fields), all)
    decreases fields, 0
  {
    forall i | 0 <= i < |fields| ensures BoundedSlot(fields[i], SlotAt(ZeroMsg(fields), i), all, Selected(fields, ZeroMsg(fields), i)) {
      ZeroItemIsBounded(fields[i], all);
    }
  }

  lemma {:induction false} ZeroItemIsBounded(f: Field, all: bool)
    ensures f.kind.Message? ==> Bounded(f.kind.fields, AsMsg(ZeroValue(f)), all)
    decreases f, 0
  {
    if f.kind.Message? {
      ZeroIsBounded(f.kind.fields, all);
    }
  }

  /** After the defaults, what is in use is bounded, whatever the storage held before. */
  lemma {:induction false} DefaultsAreBounded(fields: seq<Field>, prev: Msg, all: bool)
    requires all ==> Bounded(fields, prev, true)
    ensures Bounded(fields, Defaults(fields, prev), all)
    decreases fields, 0
  {
    var m := Defaults(fields, prev);
    forall i | 0 <= i < |fields| ensures BoundedSlot(fields[i], SlotAt(m, i), all, Selected(fields, m, i)) {
      assert all ==> BoundedSlot(fields[i], SlotAt(prev, i), true, Selected(fields, prev, i));
      var items := SlotAt(prev, i).items;
      assert items[..|items|] == items;
      DefaultSlotIsBounded(fields[i], SlotAt(prev, i), all);
    }
  }

  lemma {:induction false} DefaultSlotIsBounded(f: Field, prev: Slot, all: bool)
    requires all ==> BoundedItems(f, prev.items, true)
    ensures BoundedSlot(f, DefaultSlot(f, prev), all, false)
    decreases f, 0
  {
    ZeroItemIsBounded(f, all);
    if f.kind.Message? && !f.rule.Array() && !f.rule.OneOf? {
      EmptyIsBounded(f.kind.fields, true);
      DefaultsAreBounded(f.kind.fields, AsMsg(ItemAt(prev, 0)), all);
    }
  }

  lemma {:induction false} PackedStaysInBounds(f: Field, items: seq<Value>, count: nat, bs: seq<byte>)
    requires f.kind.Packable() && count <= f.arraySize && PackedLoop(f, items, count, bs).Ok?
    ensures PackedLoop(f, items, count, bs).v.count <= f.arraySize
    decreases |bs|
  {
    if bs != [] {
      var r := DecodeScalar(f, bs);
      PackedStaysInBounds(f, SetItem(items, count, Int(r.v)), count + 1, r.rest);
    }
  }

  lemma {:induction false} ItemIsBounded(f: Field, prev: Value, bs: seq<byte>, all: bool)
    requires DecodeItem(f, prev, bs).Ok?
    requires f.kind.Message? && (all || !f.rule.Array()) ==> Bounded(f.kind.fields, AsMsg(prev), all)
    ensures f.kind.Message? ==> Bounded(f.kind.fields, AsMsg(DecodeItem(f, prev, bs).v), all)
    decreases |bs|, 0
  {
    if f.kind.Message? {
      var sub := f.kind.fields;
      if f.rule.Array() {
        DefaultsAreBounded(sub, AsMsg(prev), all);
        DecodeKeepsBounds(sub, Defaults(sub, AsMsg(prev)), Payload(bs).v, all);
      } else {
        DecodeKeepsBounds(sub, AsMsg(prev), Payload(bs).v, all);
      }
    }
  }

  lemma {:induction false} EntriesStayInBounds(f: Field, s: Slot, count: nat, wireType: nat, bs: seq<byte>, all: bool)
    requires f.rule.Array() && DecodeEntries(f, s.items, count, wireType, bs).Ok?
    requires BoundedItems(f, s.items[..if all then |s.items| else if count < |s.items| then count else |s.items|], all)
    ensures var r := DecodeEntries(f, s.items, count, wireType, bs).v;
            && (count <= f.arraySize ==> r.count <= f.arraySize)
            && BoundedItems(f, r.items[..if all then |r.items| else if r.count < |r.items| then r.count else |r.items|], all)
    decreases |bs|, 1
  {
    if wireType == WT_STRING && f.kind.Packable() {
      if count <= f.arraySize {
        PackedStaysInBounds(f, s.items, count, Payload(bs).v);
      }
    } else {
      if f.kind.Message? {
        EmptyIsBounded(f.kind.fields, all);
      }
      ItemIsBounded(f, EntryAt(s.items, count), bs, all);
    }
  }

  lemma {:induction false} SingleStaysInBounds(f: Field, m: Msg, i: nat, bs: seq<byte>, all: bool, selected: bool)
    requires i < |m.slots| && BoundedSlot(f, m.slots[i], all, selected) && !f.rule.Array()
    requires DecodeSingle(f, m, i, bs).Ok?
    ensures BoundedSlot(f, SlotAt(DecodeSingle(f, m, i, bs).v, i), all, true)
    decreases |bs|, 1
  {
    if f.kind.Message? {
      var sub := f.kind.fields;
      EmptyIsBounded(sub, all);
      ZeroIsBounded(sub, true);
      DefaultsAreBounded(sub, ZeroMsg(sub), all);
      var prev := if f.rule.OneOf? then Sub(Defaults(sub, ZeroMsg(sub))) else ItemAt(m.slots[i], 0);
      ItemIsBounded(f, prev, bs, all);
    }
  }

  /** A step changes no slot but the one its key names. */
  lemma StepLeavesOthers(fields: seq<Field>, st: DState, key: nat, bs: seq<byte>, k: nat)
    requires Step(fields, st, key, bs).Ok? && k != Find(fields, key / 8)
    ensures SlotAt(Step(fields, st, key, bs).v.m, k) == SlotAt(st.m, k)
  {
    var i := Find(fields, key / 8);
    if i < |fields| {
      FieldLeavesOthers(fields, st, i, key % 8, bs, k);
    }
  }

  lemma FieldLeavesOthers(fields: seq<Field>, st: DState, i: nat, wireType: nat, bs: seq<byte>, k: nat)
    requires i < |fields| && i != k && DecodeField(fields, st, i, wireType, bs).Ok?
    ensures SlotAt(DecodeField(fields, st, i, wireType, bs).v.m, k) == SlotAt(st.m, k)
  {
    match fields[i].rule
    case Repeated | FixedCount =>
    case Required | Optional | Singular | OneOf(_) =>
      var r := DecodeSingle(fields[i], st.m, i, bs);
      assert SlotAt(r.v, k) == SlotAt(st.m, k);
  }

  lemma {:induction false} NamedSlotStaysInBounds(fields: seq<Field>, st: DState, i: nat, wireType: nat, bs: seq<byte>, all: bool)
    requires i < |fields| && BoundedSlot(fields[i], SlotAt(st.m, i), all, Selected(fields, st.m, i))
    requires DecodeField(fields, st, i, wireType, bs).Ok?
    ensures BoundedSlot(fields[i], SlotAt(DecodeField(fields, st, i, wireType, bs).v.m, i), all, true)
    decreases |bs|, 2
  {
    if i < |st.m.slots| {
      var f, s := fields[i], st.m.slots[i];
      match f.rule
      case Repeated => EntriesStayInBounds(f, s, s.count, wireType, bs, all);
      case FixedCount =>
        if all {
          var st' := SwitchFixed(fields, st.(seen := st.seen + {i}), i).value;
          EntriesStayInBounds(f, s, st'.fixedSize, wireType, bs, all);
        }
      case Required | Optional | Singular | OneOf(_) =>
        SingleStaysInBounds(f, st.m, i, bs, all, Selected(fields, st.m, i));
    }
  }

  /** A step selects no oneof member but the one its key names. */
  lemma StepSelects(fields: seq<Field>, st: DState, key: nat, bs: seq<byte>, k: nat)
    requires k < |fields| && Step(fields, st, key, bs).Ok? && k != Find(fields, key / 8)
    ensures Selected(fields, Step(fields, st, key, bs).v.m, k) ==> Selected(fields, st.m, k)
  {
    var i := Find(fields, key / 8);
    if i < |fields| {
      FieldSelects(fields, st, i, key % 8, bs);
    }
  }

  /** Decoding a field selects it if it is a oneof member, and changes nothing else about
      which members are in use. */
  lemma FieldSelects(fields: seq<Field>, st: DState, i: nat, wireType: nat, bs: seq<byte>)
    requires i < |fields| && DecodeField(fields, st, i, wireType, bs).Ok?
    ensures var which := DecodeField(fields, st, i, wireType, bs).v.m.which;
            which == if fields[i].rule.OneOf? then st.m.which[fields[i].rule.group := fields[i].tag] else st.m.which
  {
    match fields[i].rule
    case Repeated | FixedCount =>
    case Required | Optional | Singular | OneOf(_) =>
      assert DecodeSingle(fields[i], st.m, i, bs).Ok?;
  }

  lemma {:induction false} StepStaysInBounds(fields: seq<Field>, st: DState, key: nat, bs: seq<byte>, all: bool)
    requires Bounded(fields, st.m, all) && Step(fields, st, key, bs).Ok?
    ensures Bounded(fields, Step(fields, st, key, bs).v.m, all)
    decreases |bs|, 3
  {
    var i := Find(fields, key / 8);
    var m := Step(fields, st, key, bs).v.m;
    forall k | 0 <= k < |fields| ensures BoundedSlot(fields[k], SlotAt(m, k), all, Selected(fields, m, k)) {
      assert BoundedSlot(fields[k], SlotAt(st.m, k), all, Selected(fields, st.m, k));
      if k == i {
        NamedSlotStaysInBounds(fields, st, i, key % 8, bs, all);
      } else {
        StepLeavesOthers(fields, st, key, bs, k);
        StepSelects(fields, st, key, bs, k);
      }
    }
  }

  lemma {:induction false} LoopStaysInBounds(fields: seq<Field>, st: DState, bs: seq<byte>, all: bool)
    requires Bounded(fields, st.m, all) && DecodeLoop(fields, st, bs).Ok?
    ensures Bounded(fields, DecodeLoop(fields, st, bs).v.m, all)
    decreases |bs|, 4
  {
    if bs != [] {
      var key, body := Varint32(bs).v, Varint32(bs).rest;
      if key != 0 {
        StepStaysInBounds(fields, st, key, body, all);
        var r := Step(fields, st, key, body);
        LoopStaysInBounds(fields, r.v, r.rest, all);
      }
    }
  }

  /** On success every array count, at every depth, is within its array_size, if that was so
      before of the storage merged into: of all of it, or of what is in use. */
  lemma {:induction false} DecodeKeepsBounds(fields: seq<Field>, m: Msg, bs: seq<byte>, all: bool)
    requires Bounded(fields, m, all) && DecodeMsg(fields, m, bs).Ok?
    ensures Bounded(fields, DecodeMsg(fields, m, bs).v, all)
    decreases |bs|, 5
  {
    LoopStaysInBounds(fields, Start(m), bs, all);
  }

  /** pb_decode: whatever the storage held before, every array count in use, at every depth,
      is within its array_size. */
  lemma DecodeIsBounded(fields: seq<Field>, dest: Msg, bs: seq<byte>)
    requires DecodeMsg(fields, Defaults(fields, dest), bs).Ok?
    ensures Bounded(fields, DecodeMsg(fields, Defaults(fields, dest), bs).v, false)
  {
    DefaultsAreBounded(fields, dest, false);
    DecodeKeepsBounds(fields, Defaults(fields, dest), bs, false);
  }
}
