/** Decoding inverts encoding for every type tree, exactly when no list is refused as too long. */
module UperRoundTrip {
  import opened Wrappers
  import opened Bits
  import opened Uper

  /** v fits into n bits, and a single field can hold them. */
  predicate Fits(v: int, n: nat) {
    n <= 31 && (v < 0 || Shr(v, n) == 0)
  }

  /** The optional members from k on, in ascending order. */
  function OptionalFrom(members: seq<Member>, k: nat): (r: seq<nat>)
    requires k <= |members|
    ensures forall i :: 0 <= i < |r| ==> k <= r[i] < |members|
    decreases |members| - k
  {
    if k == |members| then []
    else (if members[k].optional then [k] else []) + OptionalFrom(members, k + 1)
  }

  /** Descriptors as the compiler emits them: fields wide enough, tables inverse, oms complete and ascending. */
  predicate TypeOk(ty: Type)
    decreases ty, 0
  {
    match ty
    case Boolean => true
    case Null => true
    case Enumerated(values, rangeBits, extension, _) =>
      RootCount(values, extension) <= |values| && Fits(RootCount(values, extension) - 1, rangeBits)
    case Choice(alternatives, canonical, indexBits, lower, upper, _) =>
      && Fits(upper, indexBits) && TypesOk(alternatives)
      && forall i :: 0 <= i < |alternatives| && HasWire(canonical, i) && lower <= ToWire(canonical, i) <= upper
                     ==> InTables(|alternatives|, canonical, ToWire(canonical, i)) && FromWire(canonical, ToWire(canonical, i)) == i
    case Sequence(members, oms, _) => oms == OptionalFrom(members, 0) && MembersOk(members)
    case SequenceOf(element, least, most, sizeBits, _) => 0 <= least && Fits(most - least, sizeBits) && TypeOk(element)
  }

  predicate TypesOk(tys: seq<Type>)
    decreases tys, 1
  {
    tys == [] || (TypeOk(tys[0]) && TypesOk(tys[1..]))
  }

  predicate MemberOk(m: Member)
    decreases m, 1
  {
    (m.default.Some? ==> m.optional) && TypeOk(m.ty)
  }

  predicate MembersOk(members: seq<Member>)
    decreases members, 1
  {
    members == [] || (MemberOk(members[0]) && MembersOk(members[1..]))
  }

  lemma {:induction false} TypeAt(tys: seq<Type>, i: nat)
    requires TypesOk(tys) && i < |tys|
    ensures TypeOk(tys[i])
  {
    if i > 0 {
      TypeAt(tys[1..], i - 1);
    }
  }

  /** The value that comes back: members that were not sent get their default. */
  function Filled(ty: Type, v: Value): Value
    requires Encode(ty, v).Encoded?
    decreases ty, 0
  {
    match ty
    case Choice(alternatives, _, _, _, _, _) =>
      Chosen(v.present, Some(Filled(alternatives[v.present - 1], v.slot.value)))
    case Sequence(members, _, _) => Struct(FilledSlots(members, v.slots))
    case SequenceOf(element, _, _, _, _) => List(FilledItems(element, v.items))
    case _ => v
  }

  function FilledSlots(members: seq<Member>, slots: seq<Option<Value>>): (r: seq<Option<Value>>)
    requires |slots| == |members| && EncodeMembers(members, slots).Encoded?
    decreases members, 1
  {
    if members == [] then []
    else [FilledSlot(members[0], slots[0])] + FilledSlots(members[1..], slots[1..])
  }

  function FilledSlot(m: Member, slot: Option<Value>): Option<Value>
    requires OnWire(m, slot) ==> EncodeMember(m, slot.value).Encoded?
    decreases m, 1
  {
    if OnWire(m, slot) then Some(Filled(m.ty, slot.value)) else m.default
  }

  function FilledItems(element: Type, items: seq<Value>): seq<Value>
    requires EncodeItems(element, items).Encoded?
    decreases element, 1, |items|
  {
    if items == [] then [] else [Filled(element, items[0])] + FilledItems(element, items[1..])
  }

  /** What the decoder of a value reports as consumed: only BOOLEAN reports its bit. */
  function Reported(ty: Type, v: Value): nat
    requires Encode(ty, v).Encoded?
    decreases ty
  {
    match ty
    case Boolean => 1
    case Choice(alternatives, _, _, _, _, _) => Reported(alternatives[v.present - 1], v.slot.value)
    case _ => 0
  }

  /** No list of more than 200 elements holds one whose decoder reports nothing. */
  predicate Decodable(ty: Type, v: Value)
    requires Encode(ty, v).Encoded?
    decreases ty, 0
  {
    match ty
    case Choice(alternatives, _, _, _, _, _) => Decodable(alternatives[v.present - 1], v.slot.value)
    case Sequence(members, _, _) => DecodableSlots(members, v.slots)
    case SequenceOf(element, _, _, _, _) => DecodableItems(element, v.items, |v.items| > 200)
    case _ => true
  }

  predicate DecodableSlots(members: seq<Member>, slots: seq<Option<Value>>)
    requires |slots| == |members| && EncodeMembers(members, slots).Encoded?
    decreases members, 1
  {
    members == [] || (DecodableSlot(members[0], slots[0]) && DecodableSlots(members[1..], slots[1..]))
  }

  predicate DecodableSlot(m: Member, slot: Option<Value>)
    requires OnWire(m, slot) ==> EncodeMember(m, slot.value).Encoded?
    decreases m, 1
  {
    OnWire(m, slot) ==> Decodable(m.ty, slot.value)
  }

  predicate DecodableItems(element: Type, items: seq<Value>, long: bool)
    requires EncodeItems(element, items).Encoded?
    decreases element, 1, |items|
  {
    items == [] || (Decodable(element, items[0]) && (long ==> Reported(element, items[0]) > 0)
                    && DecodableItems(element, items[1..], long))
  }

  /** The presence bits in the order of the members. */
  function WireBits(members: seq<Member>, slots: seq<Option<Value>>): seq<bool>
    requires |slots| == |members|
  {
    if members == [] then []
    else (if members[0].optional then [OnWire(members[0], slots[0])] else []) + WireBits(members[1..], slots[1..])
  }

  /** Complete and ascending oms make the bitmap follow the members. */
  lemma {:induction false} BitmapFollowsMembers(members: seq<Member>, slots: seq<Option<Value>>, k: nat)
    requires |slots| == |members| && k <= |members|
    ensures Bitmap(OptionalFrom(members, k), members, slots) == WireBits(members[k..], slots[k..])
    decreases |members| - k
  {
    if k < |members| {
      BitmapFollowsMembers(members, slots, k + 1);
      assert members[k..][1..] == members[k + 1..] && slots[k..][1..] == slots[k + 1..];
      var oms := OptionalFrom(members, k);
      if members[k].optional {
        assert oms[1..] == OptionalFrom(members, k + 1);
      } else {
        assert oms == OptionalFrom(members, k + 1);
      }
    }
  }

  /** A field that fits is read back. */
  lemma FieldTrip(v: nat, n: nat, rest: seq<bool>)
    requires Fits(v, n)
    ensures Put(v, n) == Encoded(BitsOf(v, n))
    ensures Get(BitsOf(v, n) + rest, n) == Some(v) && (BitsOf(v, n) + rest)[n..] == rest
  {
    hide Shr;
    assert (BitsOf(v, n) + rest)[..n] == BitsOf(v, n);
    LowIsNum(v, n);
    LowOfSmall(v, n);
  }

  lemma {:induction false} ShrMono(u: nat, v: nat, n: nat)
    requires u <= v && Shr(v, n) == 0
    ensures Shr(u, n) == 0
  {
    if n > 0 {
      ShrMono(u / 2, v / 2, n - 1);
    }
  }

  predicate Trips(ty: Type, v: Value, rest: seq<bool>)
    requires Encode(ty, v).Encoded?
  {
    Decode(ty, Encode(ty, v).bits + rest)
    == if Decodable(ty, v) then Decoded(Filled(ty, v), Reported(ty, v), rest) else DecodeFailed
  }

  /** The flag of an extensible type, then the field that follows it. */
  lemma FlagTrip(extensible: bool, field: seq<bool>)
    ensures var b := Flag(extensible, false) + field;
            && (extensible ==> b != [] && !b[0] && b[1..] == field)
            && (!extensible ==> b == field)
  {
  }

  lemma LeafTrip(ty: Type, v: Value, rest: seq<bool>)
    requires ty.Boolean? || ty.Null?
    requires Encode(ty, v).Encoded?
    ensures Trips(ty, v, rest)
  {
    if ty.Boolean? {
      OneBit(v.b);
      var b := Encode(ty, v).bits + rest;
      assert b == [v.b] + rest;
      assert b[..1] == [v.b] && b[1..] == rest;
    } else {
      assert Encode(ty, v).bits + rest == rest;
    }
  }

  lemma EnumTrip(ty: Type, v: Value, rest: seq<bool>)
    requires ty.Enumerated? && TypeOk(ty) && Encode(ty, v).Encoded?
    ensures Trips(ty, v, rest)
  {
    hide Shr, BitsOf, Num, Find;
    var i := Find(ty.values, v.n).value;
    ShrMono(i, RootCount(ty.values, ty.extension) - 1, ty.rangeBits);
    FieldTrip(i, ty.rangeBits, rest);
    var field := BitsOf(i, ty.rangeBits);
    FlagTrip(ty.extensible, field + rest);
    Regroup(Flag(ty.extensible, false), field, rest);
    hide Flag, RootCount, Fits;
  }

  lemma Regroup(a: seq<bool>, b: seq<bool>, c: seq<bool>)
    ensures a + b + c == a + (b + c)
  {
  }

  lemma ChoiceEncoding(ty: Type, v: Value)
    requires ty.Choice? && Encode(ty, v).Encoded?
    ensures v.Chosen? && 0 < v.present <= |ty.alternatives| && v.slot.Some?
    ensures var wire, inner := ToWire(ty.canonical, v.present - 1), Encode(ty.alternatives[v.present - 1], v.slot.value);
            && ty.lower <= wire <= ty.upper && HasWire(ty.canonical, v.present - 1) && inner.Encoded?
            && Encode(ty, v).bits == Flag(ty.extensible, false) + (BitsOf(wire, ty.indexBits) + inner.bits)
  {
    hide BitsOf, EncodeMembers, EncodeItems, Bitmap;
  }

  /** Reading the index of an alternative and then the alternative. */
  lemma ChoiceDecoding(ty: Type, i: nat, b: seq<bool>)
    requires ty.Choice? && TypeOk(ty) && i < |ty.alternatives|
    requires ty.lower <= ToWire(ty.canonical, i) <= ty.upper && HasWire(ty.canonical, i)
    ensures var d := Decode(ty.alternatives[i], b);
            Decode(ty, Flag(ty.extensible, false) + (BitsOf(ToWire(ty.canonical, i), ty.indexBits) + b))
            == if d.Decoded? then Decoded(Chosen(i + 1, Some(d.value)), d.consumed, d.rest) else d
  {
    hide Shr, BitsOf, Num, DecodeMembers, DecodeItems, TypesOk;
    var wire := ToWire(ty.canonical, i);
    ShrMono(wire, ty.upper, ty.indexBits);
    FieldTrip(wire, ty.indexBits, b);
    FlagTrip(ty.extensible, BitsOf(wire, ty.indexBits) + b);
    hide Get, Flag;
  }

  lemma ChoiceTrip(ty: Type, v: Value, rest: seq<bool>)
    requires ty.Choice? && TypeOk(ty) && Encode(ty, v).Encoded?
    requires v.Chosen? && 0 < v.present <= |ty.alternatives| && v.slot.Some?
    requires Encode(ty.alternatives[v.present - 1], v.slot.value).Encoded?
    requires Trips(ty.alternatives[v.present - 1], v.slot.value, rest)
    ensures Trips(ty, v, rest)
  {
    hide Encode, Decode, BitsOf, Flag, TypeOk, FilledSlots, FilledItems, DecodableSlots, DecodableItems;
    var i := v.present - 1;
    ChoiceEncoding(ty, v);
    var inner := Encode(ty.alternatives[i], v.slot.value).bits;
    ChoiceDecoding(ty, i, inner + rest);
    var f, p := Flag(ty.extensible, false), BitsOf(ToWire(ty.canonical, i), ty.indexBits);
    assert (f + (p + inner)) + rest == f + (p + (inner + rest));
  }

  lemma SequenceEncoding(ty: Type, v: Value)
    requires ty.Sequence? && Encode(ty, v).Encoded?
    ensures v.Struct? && |v.slots| == |ty.members| && OmsInRange(ty.oms, |ty.members|)
    ensures EncodeMembers(ty.members, v.slots).Encoded?
    ensures Encode(ty, v).bits == Flag(ty.extensible, false)
                                  + (Bitmap(ty.oms, ty.members, v.slots) + EncodeMembers(ty.members, v.slots).bits)
  {
    hide EncodeMembers, EncodeItems, Bitmap;
  }

  lemma SequenceDecoding(ty: Type, bitmap: seq<bool>, b: seq<bool>)
    requires ty.Sequence? && |bitmap| == |ty.oms|
    ensures Decode(ty, Flag(ty.extensible, false) + (bitmap + b)) == DecodeMembers(ty.members, bitmap, b)
  {
    hide DecodeMembers, DecodeItems, Get;
    var c := bitmap + b;
    FlagTrip(ty.extensible, c);
    assert c[..|ty.oms|] == bitmap && c[|ty.oms|..] == b;
    hide Flag;
  }

  lemma SequenceTrip(ty: Type, v: Value, rest: seq<bool>)
    requires ty.Sequence? && TypeOk(ty) && Encode(ty, v).Encoded?
    requires v.Struct? && |v.slots| == |ty.members| && EncodeMembers(ty.members, v.slots).Encoded?
    requires var b := EncodeMembers(ty.members, v.slots).bits + rest;
             DecodeMembers(ty.members, WireBits(ty.members, v.slots), b)
             == if DecodableSlots(ty.members, v.slots) then Decoded(Struct(FilledSlots(ty.members, v.slots)), 0, rest)
                else DecodeFailed
    ensures Trips(ty, v, rest)
  {
    hide Encode, Decode, EncodeMembers, DecodeMembers, FilledSlots, DecodableSlots, MembersOk, Flag, OptionalFrom;
    BitmapFollowsMembers(ty.members, v.slots, 0);
    assert ty.members[0..] == ty.members && v.slots[0..] == v.slots;
    BitmapLength(ty.oms, ty.members, v.slots);
    hide Bitmap, WireBits;
    SequenceEncoding(ty, v);
    var bitmap, inner := Bitmap(ty.oms, ty.members, v.slots), EncodeMembers(ty.members, v.slots).bits;
    SequenceDecoding(ty, bitmap, inner + rest);
    var f := Flag(ty.extensible, false);
    assert (f + (bitmap + inner)) + rest == f + (bitmap + (inner + rest));
  }

  lemma {:induction false} BitmapLength(oms: seq<nat>, members: seq<Member>, slots: seq<Option<Value>>)
    requires |slots| == |members| && forall i :: 0 <= i < |oms| ==> oms[i] < |members|
    ensures |Bitmap(oms, members, slots)| == |oms|
  {
    if oms != [] {
      BitmapLength(oms[1..], members, slots);
    }
  }

  lemma {:induction false} MembersTrip(members: seq<Member>, slots: seq<Option<Value>>, rest: seq<bool>)
    requires MembersOk(members) && |slots| == |members| && EncodeMembers(members, slots).Encoded?
    ensures DecodeMembers(members, WireBits(members, slots), EncodeMembers(members, slots).bits + rest)
            == if DecodableSlots(members, slots) then Decoded(Struct(FilledSlots(members, slots)), 0, rest)
               else DecodeFailed
    decreases members, 1
  {
    hide TypeOk, Encode, Decode, Filled, Decodable;
    if members == [] {
      assert EncodeMembers(members, slots).bits + rest == rest;
    } else {
      var m, slot := members[0], slots[0];
      var tail := EncodeMembers(members[1..], slots[1..]).bits + rest;
      var more := WireBits(members[1..], slots[1..]);
      MembersTrip(members[1..], slots[1..], rest);
      assert if m.optional then WireBits(members, slots)[1..] == more else WireBits(members, slots) == more;
      if OnWire(m, slot) {
        MemberTrip(m, slot.value, tail);
        assert EncodeMembers(members, slots).bits + rest == EncodeMember(m, slot.value).bits + tail;
      }
    }
  }

  lemma {:induction false} MemberTrip(m: Member, v: Value, rest: seq<bool>)
    requires MemberOk(m) && EncodeMember(m, v).Encoded?
    ensures DecodeMember(m, EncodeMember(m, v).bits + rest)
            == if Decodable(m.ty, v) then Decoded(Filled(m.ty, v), Reported(m.ty, v), rest) else DecodeFailed
    decreases m, 1
  {
    hide Encode, Decode, Filled, Decodable, Reported;
    RoundTrip(m.ty, v, rest);
  }

  lemma {:induction false} ItemsTrip(element: Type, items: seq<Value>, total: nat, rest: seq<bool>)
    requires TypeOk(element) && EncodeItems(element, items).Encoded?
    ensures DecodeItems(element, total, |items|, EncodeItems(element, items).bits + rest)
            == if DecodableItems(element, items, total > 200) then Decoded(List(FilledItems(element, items)), 0, rest)
               else DecodeFailed
    decreases element, 1, |items|
  {
    hide TypeOk, Encode, Decode, Filled, Decodable, Reported;
    if items == [] {
      assert EncodeItems(element, items).bits + rest == rest;
    } else {
      var tail := EncodeItems(element, items[1..]).bits + rest;
      RoundTrip(element, items[0], tail);
      ItemsTrip(element, items[1..], total, rest);
      assert EncodeItems(element, items).bits + rest == Encode(element, items[0]).bits + tail;
    }
  }

  lemma SequenceOfEncoding(ty: Type, v: Value)
    requires ty.SequenceOf? && Encode(ty, v).Encoded?
    ensures v.List? && ty.least <= |v.items| <= ty.most && EncodeItems(ty.element, v.items).Encoded?
    ensures Encode(ty, v).bits == Flag(ty.extensible, false)
                                  + (BitsOf(|v.items| - ty.least, ty.sizeBits) + EncodeItems(ty.element, v.items).bits)
  {
    hide BitsOf, EncodeMembers, EncodeItems, Bitmap;
  }

  lemma SequenceOfDecoding(ty: Type, n: nat, b: seq<bool>)
    requires ty.SequenceOf? && TypeOk(ty) && n <= ty.most - ty.least && n + ty.least >= 0
    ensures Decode(ty, Flag(ty.extensible, false) + (BitsOf(n, ty.sizeBits) + b))
            == DecodeItems(ty.element, n + ty.least, n + ty.least, b)
  {
    hide Shr, BitsOf, Num, DecodeMembers, DecodeItems;
    ShrMono(n, ty.most - ty.least, ty.sizeBits);
    FieldTrip(n, ty.sizeBits, b);
    FlagTrip(ty.extensible, BitsOf(n, ty.sizeBits) + b);
    hide Get, Flag;
  }

  lemma SequenceOfTrip(ty: Type, v: Value, rest: seq<bool>)
    requires ty.SequenceOf? && TypeOk(ty) && Encode(ty, v).Encoded?
    requires DecodeItems(ty.element, |v.items|, |v.items|, EncodeItems(ty.element, v.items).bits + rest)
             == if DecodableItems(ty.element, v.items, |v.items| > 200)
                then Decoded(List(FilledItems(ty.element, v.items)), 0, rest) else DecodeFailed
    ensures Trips(ty, v, rest)
  {
    hide Encode, Decode, BitsOf, Flag, TypeOk, EncodeItems, DecodeItems, FilledItems, DecodableItems;
    SequenceOfEncoding(ty, v);
    var n, inner := |v.items| - ty.least, EncodeItems(ty.element, v.items).bits;
    SequenceOfDecoding(ty, n, inner + rest);
    var f, field := Flag(ty.extensible, false), BitsOf(n, ty.sizeBits);
    assert f + (field + inner) + rest == f + (field + (inner + rest));
  }

  /**
   * Round trip: for every well-formed type tree and every value that its encoder accepts within
   * the extension roots, decoding the encoding followed by any bits gives the value with its
   * defaults filled in and leaves exactly those bits - unless a list of more than 200 elements
   * has an element whose decoder reports nothing, and then decoding fails.
   */
  lemma {:induction false} RoundTrip(ty: Type, v: Value, rest: seq<bool>)
    requires TypeOk(ty) && Encode(ty, v).Encoded?
    ensures Trips(ty, v, rest)
    decreases ty, 0
  {
    hide Trips, EncodeMembers, EncodeItems, DecodeMembers, DecodeItems;
    if ty.Choice? {
      ChoiceEncoding(ty, v);
    } else if ty.Sequence? {
      SequenceEncoding(ty, v);
    }
    match ty
    case Boolean => LeafTrip(ty, v, rest);
    case Null => LeafTrip(ty, v, rest);
    case Enumerated(_, _, _, _) => EnumTrip(ty, v, rest);
    case Choice(alternatives, _, _, _, _, _) =>
      TypeAt(alternatives, v.present - 1);
      RoundTrip(alternatives[v.present - 1], v.slot.value, rest);
      ChoiceTrip(ty, v, rest);
    case Sequence(members, _, _) =>
      MembersTrip(members, v.slots, rest);
      SequenceTrip(ty, v, rest);
    case SequenceOf(element, _, _, _, _) =>
      ItemsTrip(element, v.items, |v.items|, rest);
      SequenceOfTrip(ty, v, rest);
  }

  /** A list of nulls. */
  function Nulls(n: nat): (r: seq<Value>)
    ensures |r| == n
  {
    if n == 0 then [] else [Nothing] + Nulls(n - 1)
  }

  lemma {:induction false} NullsEncode(n: nat)
    ensures EncodeItems(Null, Nulls(n)) == Encoded([])
  {
    if n > 0 {
      NullsEncode(n - 1);
      assert Nulls(n)[1..] == Nulls(n - 1);
    }
  }

  /** The refused family at its simplest: more than 200 nulls are encoded but never decoded again. */
  lemma LongNullListRefused(n: nat, most: int, sizeBits: nat, rest: seq<bool>)
    requires 200 < n <= most && Fits(most, sizeBits)
    ensures var ty := SequenceOf(Null, 0, most, sizeBits, false);
            && Encode(ty, List(Nulls(n))).Encoded?
            && Decode(ty, Encode(ty, List(Nulls(n))).bits + rest) == DecodeFailed
  {
    hide Decode, Shr, BitsOf;
    var ty, v := SequenceOf(Null, 0, most, sizeBits, false), List(Nulls(n));
    NullsEncode(n);
    assert Nulls(n)[0] == Nothing;
    assert !DecodableItems(Null, Nulls(n), true);
    assert !Decodable(ty, v);
    RoundTrip(ty, v, rest);
  }
}
