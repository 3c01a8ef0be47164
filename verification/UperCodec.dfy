/** The UPER encoders working on the bit writer, proved against the functions of Uper. */
module UperCodec {
  import opened Wrappers
  import opened Bits
  import opened BitWriter
  import opened Uper

  /** Extension: the source would go on with an extension encoding; Outside: it would read past a table. */
  datatype Result = Done | Refused | Hungry | Extension | Outside

  predicate Writes(e: Encoding, r: Result, before: seq<bool>, after: seq<bool>) {
    match e
    case Encoded(bits) => r == Done && after == before + bits
    case EncodeFailed => r == Refused
    case EncodeBeyond => r == Extension
    case EncodeOutside => r == Outside
  }

  predicate Reads(d: Decoding, r: Result, v: Value, consumed: nat, after: seq<bool>) {
    match d
    case Decoded(w, c, rest) => r == Done && v == w && consumed == c && after == rest
    case Starved => r == Hungry
    case DecodeFailed => r == Refused
    case DecodeBeyond => r == Extension
    case DecodeOutside => r == Outside
  }

  lemma ThenAssoc(a: Encoding, b: Encoding, c: Encoding)
    ensures Then(a, Then(b, c)) == Then(Then(a, b), c)
  {
    if a.Encoded? && b.Encoded? && c.Encoded? {
      assert a.bits + (b.bits + c.bits) == a.bits + b.bits + c.bits;
    }
  }

  /** per_put_few_bits of the extension flag. */
  method PutFlag(extensible: bool, on: bool, po: BitOutp)
    requires po.Valid()
    modifies po, po.tmpspace
    ensures po.Valid() && po.Written() == old(po.Written()) + Flag(extensible, on)
  {
    hide BitsOf, BytesBits, Prefix;
    if extensible {
      OneBit(on);
      var r := po.PutFewBits(if on then 1 else 0, 1);
    }
  }

  method EncodeUper(ty: Type, v: Value, po: BitOutp) returns (r: Result)
    requires po.Valid()
    modifies po, po.tmpspace
    ensures po.Valid() && Writes(Encode(ty, v), r, old(po.Written()), po.Written())
    decreases ty, 1
  {
    match ty
    case Boolean => r := EncodeBoolean(ty, v, po);
    case Null => r := if v.Nothing? then Done else Refused;
    case Enumerated(_, _, _, _) => r := EncodeEnumerated(ty, v, po);
    case Choice(_, _, _, _, _, _) => r := EncodeChoice(ty, v, po);
    case Sequence(_, _, _) => r := EncodeSequence(ty, v, po);
    case SequenceOf(_, _, _, _, _) => r := EncodeSequenceOf(ty, v, po);
  }

  method EncodeBoolean(ty: Type, v: Value, po: BitOutp) returns (r: Result)
    requires po.Valid() && ty.Boolean?
    modifies po, po.tmpspace
    ensures po.Valid() && Writes(Encode(ty, v), r, old(po.Written()), po.Written())
  {
    hide BitsOf, BytesBits, Prefix;
    if !v.Bool? {
      return Refused;
    }
    var ret := po.PutFewBits(if v.b then 1 else 0, 1);
    r := Done;
  }

  method EncodeEnumerated(ty: Type, v: Value, po: BitOutp) returns (r: Result)
    requires po.Valid() && ty.Enumerated?
    modifies po, po.tmpspace
    ensures po.Valid() && Writes(Encode(ty, v), r, old(po.Written()), po.Written())
  {
    hide BitsOf, BytesBits, Prefix;
    if !v.Enum? || Find(ty.values, v.n).None? {
      return Refused;
    }
    var value := Find(ty.values, v.n).value;
    var inext := value >= RootCount(ty.values, ty.extension);
    if inext {
      return if ty.extensible then Extension else Refused;
    }
    PutFlag(ty.extensible, false, po);
    var ret := po.PutFewBits(value, ty.rangeBits);
    r := if ret == 0 then Done else Refused;
  }

  /** What is written after a flag and a field. */
  lemma WritesAfter(flag: seq<bool>, field: seq<bool>, e: Encoding, r: Result, before: seq<bool>, after: seq<bool>)
    requires Writes(e, r, before + flag + field, after)
    ensures Writes(Then(Then(Encoded(flag), Encoded(field)), e), r, before, after)
  {
    if e.Encoded? {
      assert before + flag + field + e.bits == before + (flag + field + e.bits);
    }
  }

  lemma ChoiceUnfold(ty: Type, v: Value)
    requires ty.Choice?
    ensures Encode(ty, v) ==
            if !v.Chosen? || v.present == 0 || v.present > |ty.alternatives| then EncodeFailed
            else
              var wire := ToWire(ty.canonical, v.present - 1);
              if !HasWire(ty.canonical, v.present - 1) then EncodeOutside
              else if wire < ty.lower || wire > ty.upper then if ty.extensible then EncodeBeyond else EncodeFailed
              else if v.slot.None? then EncodeFailed
              else Then(Then(Encoded(Flag(ty.extensible, false)), Put(wire, ty.indexBits)),
                        Encode(ty.alternatives[v.present - 1], v.slot.value))
  {
    hide EncodeMembers, EncodeItems, BitsOf, Flag, Bitmap;
    if v.Chosen? && 0 < v.present <= |ty.alternatives| && v.slot.Some? {
      ThenAssoc(Encoded(Flag(ty.extensible, false)), Put(ToWire(ty.canonical, v.present - 1), ty.indexBits),
                Encode(ty.alternatives[v.present - 1], v.slot.value));
    }
    hide Then;
  }

  lemma SequenceUnfold(ty: Type, v: Value)
    requires ty.Sequence?
    ensures Encode(ty, v) ==
            if !v.Struct? || |v.slots| != |ty.members| then EncodeFailed
            else if !OmsInRange(ty.oms, |ty.members|) then EncodeOutside
            else Then(Encoded(Flag(ty.extensible, false) + Bitmap(ty.oms, ty.members, v.slots)),
                      EncodeMembers(ty.members, v.slots))
  {
    hide EncodeMembers, EncodeItems, Bitmap, Flag, Then;
  }

  method EncodeChoice(ty: Type, v: Value, po: BitOutp) returns (r: Result)
    requires po.Valid() && ty.Choice?
    modifies po, po.tmpspace
    ensures po.Valid() && Writes(Encode(ty, v), r, old(po.Written()), po.Written())
    decreases ty, 0
  {
    hide BitsOf, BytesBits, Prefix, Encode, Flag, ToWire;
    ChoiceUnfold(ty, v);
    if !v.Chosen? || v.present == 0 || v.present > |ty.alternatives| {
      return Refused;
    }
    var present := v.present - 1;
    if !HasWire(ty.canonical, present) {
      return Outside;
    }
    var wire := ToWire(ty.canonical, present);
    if wire < ty.lower || wire > ty.upper {
      return if ty.extensible then Extension else Refused;
    }
    PutFlag(ty.extensible, false, po);
    if v.slot.None? {
      return Refused;
    }
    var ret := po.PutFewBits(wire, ty.indexBits);
    if ret != 0 {
      return Refused;
    }
    ghost var f, field := Flag(ty.extensible, false), BitsOf(wire, ty.indexBits);
    r := EncodeUper(ty.alternatives[present], v.slot.value, po);
    WritesAfter(f, field, Encode(ty.alternatives[present], v.slot.value), r, old(po.Written()), po.Written());
  }

  method EncodeSequence(ty: Type, v: Value, po: BitOutp) returns (r: Result)
    requires po.Valid() && ty.Sequence?
    modifies po, po.tmpspace
    ensures po.Valid() && Writes(Encode(ty, v), r, old(po.Written()), po.Written())
    decreases ty, 0
  {
    hide BitsOf, BytesBits, Prefix, EncodeMembers, Encode, Flag, Bitmap;
    SequenceUnfold(ty, v);
    if !v.Struct? || |v.slots| != |ty.members| {
      return Refused;
    } else if !OmsInRange(ty.oms, |ty.members|) {
      return Outside;
    }
    PutFlag(ty.extensible, false, po);
    PutBitmap(ty.oms, ty.members, v.slots, po);
    r := EncodeRoot(ty.members, v.slots, po);
  }

  method PutBitmap(oms: seq<nat>, members: seq<Member>, slots: seq<Option<Value>>, po: BitOutp)
    requires po.Valid() && |slots| == |members| && OmsInRange(oms, |members|)
    modifies po, po.tmpspace
    ensures po.Valid() && po.Written() == old(po.Written()) + Bitmap(oms, members, slots)
  {
    hide BitsOf, BytesBits, Prefix;
    var i := 0;
    ghost var goal := po.Written() + Bitmap(oms, members, slots);
    while i < |oms|
      invariant 0 <= i <= |oms| && po.Valid()
      invariant po.Written() + Bitmap(oms[i..], members, slots) == goal
    {
      var edx := oms[i];
      var m, slot := members[edx], slots[edx];
      var present := slot.Some?;
      if present && m.default.Some? && slot.value == m.default.value {
        present := false;
      }
      OneBit(present);
      assert oms[i..][1..] == oms[i + 1..];
      ghost var before, rest := po.Written(), Bitmap(oms[i + 1..], members, slots);
      assert before + ([present] + rest) == (before + [present]) + rest;
      var ret := po.PutFewBits(if present then 1 else 0, 1);
      i := i + 1;
    }
  }

  method EncodeRoot(members: seq<Member>, slots: seq<Option<Value>>, po: BitOutp) returns (r: Result)
    requires po.Valid() && |slots| == |members|
    modifies po, po.tmpspace
    ensures po.Valid() && Writes(EncodeMembers(members, slots), r, old(po.Written()), po.Written())
    decreases members, 2
  {
    hide BitsOf, BytesBits, Prefix, Encode, EncodeMember;
    var edx := 0;
    ghost var done: seq<bool> := [];
    assert members[0..] == members && slots[0..] == slots;
    while edx < |members|
      invariant 0 <= edx <= |members| && po.Valid()
      invariant po.Written() == old(po.Written()) + done
      invariant EncodeMembers(members, slots) == Then(Encoded(done), EncodeMembers(members[edx..], slots[edx..]))
    {
      var m, slot := members[edx], slots[edx];
      assert members[edx..][1..] == members[edx + 1..] && slots[edx..][1..] == slots[edx + 1..];
      if slot.None? && !(m.pointer && m.optional) {
        return Refused;
      }
      if slot.Some? && !(m.default.Some? && slot.value == m.default.value) {
        ghost var e := EncodeMember(m, slot.value);
        ThenAssoc(Encoded(done), e, EncodeMembers(members[edx + 1..], slots[edx + 1..]));
        r := EncodeMemberUper(members[edx], slot.value, po);
        if r != Done {
          return;
        }
        done := done + e.bits;
      }
      edx := edx + 1;
    }
    r := Done;
  }

  method EncodeMemberUper(m: Member, v: Value, po: BitOutp) returns (r: Result)
    requires po.Valid()
    modifies po, po.tmpspace
    ensures po.Valid() && Writes(EncodeMember(m, v), r, old(po.Written()), po.Written())
    decreases m, 2
  {
    r := EncodeUper(m.ty, v, po);
  }

  lemma SequenceOfUnfold(ty: Type, v: Value)
    requires ty.SequenceOf?
    ensures Encode(ty, v) ==
            if !v.List? then EncodeFailed
            else if |v.items| < ty.least || |v.items| > ty.most then if ty.extensible then EncodeBeyond else EncodeFailed
            else Then(Then(Encoded(Flag(ty.extensible, false)), Put(|v.items| - ty.least, ty.sizeBits)),
                      EncodeItems(ty.element, v.items))
  {
    hide EncodeMembers, EncodeItems, BitsOf, Flag, Bitmap;
    if v.List? && ty.least <= |v.items| {
      ThenAssoc(Encoded(Flag(ty.extensible, false)), Put(|v.items| - ty.least, ty.sizeBits), EncodeItems(ty.element, v.items));
    }
    hide Then;
  }

  method EncodeSequenceOf(ty: Type, v: Value, po: BitOutp) returns (r: Result)
    requires po.Valid() && ty.SequenceOf?
    modifies po, po.tmpspace
    ensures po.Valid() && Writes(Encode(ty, v), r, old(po.Written()), po.Written())
    decreases ty, 0
  {
    hide BitsOf, BytesBits, Prefix, EncodeItems, Encode, Flag;
    SequenceOfUnfold(ty, v);
    if !v.List? {
      return Refused;
    }
    var count := |v.items|;
    if count < ty.least || count > ty.most {
      return if ty.extensible then Extension else Refused;
    }
    PutFlag(ty.extensible, false, po);
    var ret := po.PutFewBits(count - ty.least, ty.sizeBits);
    if ret != 0 {
      return Refused;
    }
    r := EncodeElements(ty.element, v.items, po);
    WritesAfter(Flag(ty.extensible, false), BitsOf(count - ty.least, ty.sizeBits), EncodeItems(ty.element, v.items),
                r, old(po.Written()), po.Written());
  }

  method EncodeElements(element: Type, items: seq<Value>, po: BitOutp) returns (r: Result)
    requires po.Valid()
    modifies po, po.tmpspace
    ensures po.Valid() && Writes(EncodeItems(element, items), r, old(po.Written()), po.Written())
    decreases element, 2
  {
    hide BitsOf, BytesBits, Prefix, Encode;
    var edx := 0;
    ghost var done: seq<bool> := [];
    assert items[0..] == items;
    while edx < |items|
      invariant 0 <= edx <= |items| && po.Valid()
      invariant po.Written() == old(po.Written()) + done
      invariant EncodeItems(element, items) == Then(Encoded(done), EncodeItems(element, items[edx..]))
    {
      assert items[edx..][1..] == items[edx + 1..];
      ghost var e := Encode(element, items[edx]);
      ThenAssoc(Encoded(done), e, EncodeItems(element, items[edx + 1..]));
      r := EncodeUper(element, items[edx], po);
      if r != Done {
        return;
      }
      done := done + e.bits;
      edx := edx + 1;
    }
    r := Done;
  }
}
