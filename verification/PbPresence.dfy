/** Which fields go out at all: presence in proto2 and in proto3, read off what is stored. */
module PbPresence {
  import opened PbSchema
  import opened PbEncode

  /** What a proto3 field without presence holds is nothing: zero, no bytes, an empty string,
      or a submessage in which nothing is set. */
  ghost predicate Nothing(f: Field, v: Value)
    decreases f, 0
  {
    match f.kind
    case Bytes => AsBlob(v) == []
    case String => AsBlob(v) == [] || AsBlob(v)[0] == 0
    case FixedBytes => f.dataSize == 0
    case Message(sub) => NothingSet(sub, AsMsg(v))
    case _ => AsInt(v) == 0
  }

  ghost predicate Unset(f: Field, s: Slot, which: map<nat, nat>)
    decreases f, 1
  {
    match f.rule
    case Required | FixedCount => false
    case Optional => !s.has
    case Repeated => s.count == 0
    case OneOf(g) => g !in which || which[g] == 0
    case Singular => Nothing(f, ItemAt(s, 0))
  }

  ghost predicate NothingSet(fields: seq<Field>, m: Msg)
    decreases fields, 0
  {
    forall k | 0 <= k < |fields| :: Unset(fields[k], SlotAt(m, k), m.which)
  }

  /** The encoder's test is just that. */
  lemma {:induction false} DefaultIsUnset(f: Field, s: Slot, which: map<nat, nat>)
    ensures IsDefault(f, s, which) <==> Unset(f, s, which)
    decreases f, 1
  {
    if f.rule.Singular? {
      ValueIsNothing(f, s, which);
    }
  }

  lemma {:induction false} ValueIsNothing(f: Field, s: Slot, which: map<nat, nat>)
    requires f.rule.Singular?
    ensures IsDefault(f, s, which) <==> Nothing(f, ItemAt(s, 0))
    decreases f, 0
  {
    var v := ItemAt(s, 0);
    match f.kind
    case String => assert CStr(AsBlob(v)) == [] <==> AsBlob(v) == [] || AsBlob(v)[0] == 0;
    case Message(sub) =>
      var m := AsMsg(v);
      AllDefaultMeans(sub, m, 0);
      forall k | 0 <= k < |sub| ensures IsDefault(sub[k], SlotAt(m, k), m.which) <==> Unset(sub[k], SlotAt(m, k), m.which) {
        DefaultIsUnset(sub[k], SlotAt(m, k), m.which);
      }
    case _ =>
  }

  /** A field contributes no bytes exactly if: an optional one is absent, a oneof member is not
      the one selected, an array is empty, and a proto3 field holds nothing.  A required field
      always contributes. */
  lemma {:induction false} SilentExactly(f: Field, s: Slot, which: map<nat, nat>)
    requires |s.items| == Cap(f) && (f.rule.Repeated? ==> s.count <= f.arraySize)
    ensures EncodeField(f, s, which) == [] <==>
              match f.rule
              case Required => false
              case Optional => !s.has
              case OneOf(g) => (if g in which then which[g] else 0) != f.tag
              case Repeated => s.count == 0
              case FixedCount => f.arraySize == 0
              case Singular =>
                (match f.kind
                 case Bytes => AsBlob(s.items[0]) == []
                 case String => AsBlob(s.items[0]) == [] || AsBlob(s.items[0])[0] == 0
                 case FixedBytes => f.dataSize == 0
                 case Message(sub) => NothingSet(sub, AsMsg(s.items[0]))
                 case _ => AsInt(s.items[0]) == 0)
  {
    DefaultIsUnset(f, s, which);
    if f.rule.Array() {
      ArraySilent(f, Used(f, s));
    }
  }

  lemma {:induction false} ArraySilent(f: Field, items: seq<Value>)
    ensures EncodeArray(f, items) == [] <==> items == []
  {
  }

  lemma {:induction false} EncodesNothing(fields: seq<Field>, m: Msg, i: nat)
    ensures EncodeFrom(fields, m, i) == [] <==> forall k | i <= k < |fields| :: EncodeField(fields[k], SlotAt(m, k), m.which) == []
    decreases |fields| - i
  {
    if i < |fields| {
      EncodesNothing(fields, m, i + 1);
    }
  }

  // ----- the message in which every byte is zero -----

  /** No array of fixed count, also not in a submessage without presence of its own. */
  ghost predicate NoFixed(fields: seq<Field>)
    decreases fields, 0
  {
    forall k | 0 <= k < |fields| :: NotFixed(fields[k])
  }

  ghost predicate NotFixed(f: Field)
    decreases f, 0
  {
    !f.rule.FixedCount? && (f.rule.Singular? && f.kind.Message? ==> NoFixed(f.kind.fields))
  }

  /** No field is sent come what may: a required one, or bytes of a fixed number in a proto3
      field, also not in a submessage without presence of its own. */
  ghost predicate NothingForced(fields: seq<Field>)
    decreases fields, 0
  {
    forall k | 0 <= k < |fields| :: !Forced(fields[k])
  }

  ghost predicate Forced(f: Field)
    decreases f, 0
  {
    || f.rule.Required?
    || (f.rule.Singular? && f.kind.FixedBytes? && f.dataSize > 0)
    || (f.rule.Singular? && f.kind.Message? && !NothingForced(f.kind.fields))
  }

  lemma {:induction false} ZeroIsUnset(fields: seq<Field>)
    requires NoFixed(fields)
    ensures NothingSet(fields, ZeroMsg(fields)) <==> NothingForced(fields)
    decreases fields, 0
  {
    var m := ZeroMsg(fields);
    forall k | 0 <= k < |fields| ensures Unset(fields[k], SlotAt(m, k), m.which) <==> !Forced(fields[k]) {
      ZeroFieldIsUnset(fields[k]);
      assert SlotAt(m, k) == Slot(false, 0, seq(Cap(fields[k]), _ => ZeroValue(fields[k])));
    }
  }

  lemma {:induction false} ZeroFieldIsUnset(f: Field)
    requires NotFixed(f)
    ensures Unset(f, Slot(false, 0, seq(Cap(f), _ => ZeroValue(f))), map[]) <==> !Forced(f)
    decreases f, 0
  {
    if f.rule.Singular? && f.kind.Message? {
      ZeroIsUnset(f.kind.fields);
    }
  }

  /** The message in which every byte is zero is encoded in no bytes if and only if no field
      is sent come what may. */
  lemma {:induction false} ZeroEncodesToNothing(fields: seq<Field>)
    requires NoFixed(fields) && forall k | 0 <= k < |fields| :: fields[k].tag > 0
    ensures EncodeMsg(fields, ZeroMsg(fields)) == [] <==> NothingForced(fields)
  {
    var m := ZeroMsg(fields);
    EncodesNothing(fields, m, 0);
    ZeroIsUnset(fields);
    forall k | 0 <= k < |fields|
      ensures EncodeField(fields[k], SlotAt(m, k), m.which) == [] <==> Unset(fields[k], SlotAt(m, k), m.which)
    {
      SilentExactly(fields[k], SlotAt(m, k), m.which);
    }
  }
}
