/** The UPER decoders working on the bit reader, proved against the functions of Uper. */
module UperDecoder {
  import opened Wrappers
  import opened Bits
  import opened BitReader
  import opened Uper
  import opened UperCodec

  /** The extension flag: -1 when the stream is empty. */
  method GetFlag(extensible: bool, pd: BitData) returns (flag: int)
    requires pd.Valid()
    modifies pd
    ensures pd.Valid() && -1 <= flag <= 1
    ensures var had := old(pd.Remaining());
            if !extensible then flag == 0 && pd.Remaining() == had
            else if had == [] then flag == -1
            else flag == (if had[0] then 1 else 0) && pd.Remaining() == had[1..]
  {
    hide BytesBits, Num;
    flag := 0;
    if extensible {
      ghost var had := pd.Remaining();
      flag := pd.GetFewBits(1);
      if had != [] {
        assert had[..1] == [had[0]];
        OneBit(had[0]);
      }
    }
  }

  method DecodeUper(ty: Type, pd: BitData) returns (r: Result, v: Value, consumed: nat)
    requires pd.Valid()
    modifies pd
    ensures pd.Valid() && Reads(Decode(ty, old(pd.Remaining())), r, v, consumed, pd.Remaining())
    decreases ty, 1
  {
    match ty
    case Boolean => r, v, consumed := DecodeBoolean(ty, pd);
    case Null => r, v, consumed := Done, Nothing, 0;
    case Enumerated(_, _, _, _) => r, v, consumed := DecodeEnumerated(ty, pd);
    case Choice(_, _, _, _, _, _) => r, v, consumed := DecodeChoice(ty, pd);
    case Sequence(_, _, _) => r, v, consumed := DecodeSequence(ty, pd);
    case SequenceOf(_, _, _, _, _) => r, v, consumed := DecodeSequenceOf(ty, pd);
  }

  method DecodeBoolean(ty: Type, pd: BitData) returns (r: Result, v: Value, consumed: nat)
    requires pd.Valid() && ty.Boolean?
    modifies pd
    ensures pd.Valid() && Reads(Decode(ty, old(pd.Remaining())), r, v, consumed, pd.Remaining())
  {
    hide BytesBits, Num;
    var bit := pd.GetFewBits(1);
    if bit == 1 {
      return Done, Bool(true), 1;
    } else if bit == -1 {
      return Hungry, Bool(false), 0;
    }
    ghost var had := old(pd.Remaining());
    assert had[..1] == [had[0]];
    OneBit(had[0]);
    return Done, Bool(false), 1;
  }

  method DecodeEnumerated(ty: Type, pd: BitData) returns (r: Result, v: Value, consumed: nat)
    requires pd.Valid() && ty.Enumerated?
    modifies pd
    ensures pd.Valid() && Reads(Decode(ty, old(pd.Remaining())), r, v, consumed, pd.Remaining())
  {
    hide BytesBits, Num;
    v, consumed := Nothing, 0;
    var inext := GetFlag(ty.extensible, pd);
    if inext < 0 {
      return Hungry, v, 0;
    } else if inext > 0 {
      return Extension, v, 0;
    }
    var value := pd.GetFewBits(ty.rangeBits);
    if value < 0 {
      return Hungry, v, 0;
    }
    if value >= RootCount(ty.values, ty.extension) {
      return Refused, v, 0;
    } else if value >= |ty.values| {
      return Outside, v, 0;
    }
    return Done, Enum(ty.values[value]), 0;
  }

  lemma ChoiceRead(ty: Type, b: seq<bool>)
    requires ty.Choice?
    ensures Decode(ty, b) ==
            if ty.extensible && b == [] then Starved
            else if ty.extensible && b[0] then DecodeBeyond
            else
              var c := if ty.extensible then b[1..] else b;
              var i := Get(c, ty.indexBits);
              if i.None? then Starved
              else if i.value > ty.upper then DecodeFailed
              else if !InTables(|ty.alternatives|, ty.canonical, i.value) then DecodeOutside
              else
                var k := FromWire(ty.canonical, i.value);
                var d := Decode(ty.alternatives[k], c[ty.indexBits..]);
                if d.Decoded? then Decoded(Chosen(k + 1, Some(d.value)), d.consumed, d.rest) else d
  {
    hide Num, DecodeMembers, DecodeItems;
  }

  method DecodeChoice(ty: Type, pd: BitData) returns (r: Result, v: Value, consumed: nat)
    requires pd.Valid() && ty.Choice?
    modifies pd
    ensures pd.Valid() && Reads(Decode(ty, old(pd.Remaining())), r, v, consumed, pd.Remaining())
    decreases ty, 0
  {
    hide BytesBits, Num, Decode;
    ChoiceRead(ty, pd.Remaining());
    v, consumed := Nothing, 0;
    var inext := GetFlag(ty.extensible, pd);
    if inext < 0 {
      return Hungry, v, 0;
    } else if inext > 0 {
      return Extension, v, 0;
    }
    var value := pd.GetFewBits(ty.indexBits);
    if value < 0 {
      return Hungry, v, 0;
    }
    if value > ty.upper {
      return Refused, v, 0;
    } else if !InTables(|ty.alternatives|, ty.canonical, value) {
      return Outside, v, 0;
    }
    var k := FromWire(ty.canonical, value);
    r, v, consumed := DecodeUper(ty.alternatives[k], pd);
    v := Chosen(k + 1, Some(v));
  }

  /** The presence bitmap as a stream of its own. */
  method GetBitmap(n: nat, pd: BitData) returns (ok: bool, opmd: BitData)
    requires pd.Valid()
    modifies pd
    ensures pd.Valid() && fresh(opmd) && opmd.Valid() && (ok <==> n <= |old(pd.Remaining())|)
    ensures ok ==> opmd.Remaining() == old(pd.Remaining())[..n] && pd.Remaining() == old(pd.Remaining())[n..]
  {
    hide BytesBits, Zeros;
    if n == 0 {
      opmd := new BitData.At([], 0, 0, 0);
      return true, opmd;
    }
    var ret, opres := pd.GetManyBits(false, n);
    if ret != 0 {
      opmd := new BitData.At([], 0, 0, 0);
      return false, opmd;
    }
    ghost var had := old(pd.Remaining());
    assert BytesBits(opres)[0..n] == had[..n];
    opmd := new BitData.At(opres, 0, n, 0);
    ok := true;
  }

  method DecodeSequence(ty: Type, pd: BitData) returns (r: Result, v: Value, consumed: nat)
    requires pd.Valid() && ty.Sequence?
    modifies pd
    ensures pd.Valid() && Reads(Decode(ty, old(pd.Remaining())), r, v, consumed, pd.Remaining())
    decreases ty, 0
  {
    hide BytesBits, Num, DecodeMembers, DecodeItems;
    v, consumed := Nothing, 0;
    var extpresent := GetFlag(ty.extensible, pd);
    if extpresent < 0 {
      return Hungry, v, 0;
    }
    var ok, opmd := GetBitmap(|ty.oms|, pd);
    if !ok {
      return Hungry, v, 0;
    }
    r, v, consumed := DecodeRoot(ty.members, opmd, pd);
    if r == Done && extpresent > 0 {
      r := Extension;
    }
  }

  function PrependAll(slots: seq<Option<Value>>, d: Decoding): Decoding {
    if d.Decoded? && d.value.Struct? then d.(value := Struct(slots + d.value.slots)) else d
  }

  lemma PrependOne(slots: seq<Option<Value>>, x: Option<Value>, d: Decoding)
    ensures PrependAll(slots, Prepend(x, d)) == PrependAll(slots + [x], d)
  {
    if d.Decoded? && d.value.Struct? {
      assert slots + ([x] + d.value.slots) == slots + [x] + d.value.slots;
    }
  }

  lemma MembersUnfold(members: seq<Member>, k: nat, presence: seq<bool>, b: seq<bool>)
    requires k < |members|
    ensures var m := members[k];
            var more := if m.optional && presence != [] then presence[1..] else presence;
            var d := DecodeMember(m, b);
            DecodeMembers(members[k..], presence, b)
            == if m.optional && presence != [] && !presence[0] then
                 Prepend(m.default, DecodeMembers(members[k + 1..], more, b))
               else if d.Decoded? then Prepend(Some(d.value), DecodeMembers(members[k + 1..], more, d.rest)) else d
  {
    hide DecodeMember, Prepend;
    assert members[k..][1..] == members[k + 1..] && members[k..][0] == members[k];
  }

  /** The loop over the root members. */
  method DecodeRoot(members: seq<Member>, opmd: BitData, pd: BitData) returns (r: Result, v: Value, consumed: nat)
    requires pd.Valid() && opmd.Valid() && opmd != pd
    modifies pd, opmd
    ensures pd.Valid()
    ensures Reads(DecodeMembers(members, old(opmd.Remaining()), old(pd.Remaining())), r, v, consumed, pd.Remaining())
    decreases members, 2
  {
    hide BytesBits, Num, DecodeMembers, DecodeMember, Prepend, PrependAll;
    var edx, slots := 0, [];
    ghost var goal := DecodeMembers(members, opmd.Remaining(), pd.Remaining());
    consumed, v := 0, Nothing;
    assert members[0..] == members;
    PrependNone(goal);
    while edx < |members|
      invariant 0 <= edx <= |members| && pd.Valid() && opmd.Valid()
      invariant goal == PrependAll(slots, DecodeMembers(members[edx..], opmd.Remaining(), pd.Remaining()))
    {
      MembersUnfold(members, edx, opmd.Remaining(), pd.Remaining());
      var m := members[edx];
      var absent := false;
      ghost var presence, b := opmd.Remaining(), pd.Remaining();
      if m.optional {
        var present := opmd.GetFewBits(1);
        if presence != [] {
          assert presence[..1] == [presence[0]];
          OneBit(presence[0]);
        }
        absent := present == 0;
      }
      if absent {
        PrependOne(slots, m.default, DecodeMembers(members[edx + 1..], presence[1..], b));
        slots := slots + [m.default];
      } else {
        var rr, w, c := DecodeMemberUper(members[edx], pd);
        if rr != Done {
          PrependFails(slots, DecodeMember(m, b));
          return rr, v, 0;
        }
        PrependOne(slots, Some(w), DecodeMembers(members[edx + 1..], opmd.Remaining(), pd.Remaining()));
        slots := slots + [Some(w)];
      }
      edx := edx + 1;
    }
    MembersEnd(members[edx..], slots, opmd.Remaining(), pd.Remaining());
    return Done, Struct(slots), 0;
  }

  lemma PrependNone(d: Decoding)
    ensures PrependAll([], d) == d
  {
    if d.Decoded? && d.value.Struct? {
      assert [] + d.value.slots == d.value.slots;
    }
  }

  lemma PrependFails(slots: seq<Option<Value>>, d: Decoding)
    ensures !d.Decoded? ==> PrependAll(slots, d) == d
  {
  }

  lemma MembersEnd(members: seq<Member>, slots: seq<Option<Value>>, presence: seq<bool>, b: seq<bool>)
    requires members == []
    ensures PrependAll(slots, DecodeMembers(members, presence, b)) == Decoded(Struct(slots), 0, b)
  {
    assert slots + [] == slots;
  }

  method DecodeMemberUper(m: Member, pd: BitData) returns (r: Result, v: Value, consumed: nat)
    requires pd.Valid()
    modifies pd
    ensures pd.Valid() && Reads(DecodeMember(m, old(pd.Remaining())), r, v, consumed, pd.Remaining())
    decreases m, 2
  {
    r, v, consumed := DecodeUper(m.ty, pd);
  }

  method DecodeSequenceOf(ty: Type, pd: BitData) returns (r: Result, v: Value, consumed: nat)
    requires pd.Valid() && ty.SequenceOf?
    modifies pd
    ensures pd.Valid() && Reads(Decode(ty, old(pd.Remaining())), r, v, consumed, pd.Remaining())
    decreases ty, 0
  {
    hide BytesBits, Num, DecodeMembers, DecodeItems;
    v, consumed := Nothing, 0;
    var value := GetFlag(ty.extensible, pd);
    if value < 0 {
      return Hungry, v, 0;
    } else if value > 0 {
      return Extension, v, 0;
    }
    var nelems := pd.GetFewBits(ty.sizeBits);
    if nelems < 0 {
      return Hungry, v, 0;
    }
    nelems := nelems + ty.least;
    if nelems < 0 {
      return Extension, v, 0;
    }
    r, v, consumed := DecodeElements(ty.element, nelems, pd);
  }

  function ItemsBefore(items: seq<Value>, d: Decoding): Decoding {
    if d.Decoded? && d.value.List? then d.(value := List(items + d.value.items)) else d
  }

  lemma ItemsUnfold(element: Type, total: nat, k: nat, items: seq<Value>, b: seq<bool>)
    ensures ItemsBefore(items, DecodeItems(element, total, k, b)) ==
            if k == 0 then Decoded(List(items), 0, b)
            else
              var d := Decode(element, b);
              if !d.Decoded? then d
              else if d.consumed == 0 && total > 200 then DecodeFailed
              else ItemsBefore(items + [d.value], DecodeItems(element, total, k - 1, d.rest))
  {
    hide Decode;
    assert items + [] == items;
    if k > 0 && Decode(element, b).Decoded? {
      var d := Decode(element, b);
      var r := DecodeItems(element, total, k - 1, d.rest);
      if r.Decoded? {
        assert items + ([d.value] + r.value.items) == items + [d.value] + r.value.items;
      }
    }
  }

  /** The loop over the elements. */
  method DecodeElements(element: Type, nelems: nat, pd: BitData) returns (r: Result, v: Value, consumed: nat)
    requires pd.Valid()
    modifies pd
    ensures pd.Valid()
    ensures Reads(DecodeItems(element, nelems, nelems, old(pd.Remaining())), r, v, consumed, pd.Remaining())
    decreases element, 2
  {
    hide BytesBits, Num, Decode, DecodeItems, ItemsBefore;
    var i, items := 0, [];
    ghost var goal := DecodeItems(element, nelems, nelems, pd.Remaining());
    v, consumed := Nothing, 0;
    NoItemsBefore(goal);
    while i < nelems
      invariant 0 <= i <= nelems && pd.Valid()
      invariant goal == ItemsBefore(items, DecodeItems(element, nelems, nelems - i, pd.Remaining()))
    {
      ItemsUnfold(element, nelems, nelems - i, items, pd.Remaining());
      var rr, w, c := DecodeUper(element, pd);
      if rr != Done {
        return rr, v, 0;
      }
      items := items + [w];
      if c == 0 && nelems > 200 {
        return Refused, v, 0;
      }
      i := i + 1;
    }
    ItemsUnfold(element, nelems, 0, items, pd.Remaining());
    return Done, List(items), 0;
  }

  lemma NoItemsBefore(d: Decoding)
    ensures ItemsBefore([], d) == d
  {
    if d.Decoded? && d.value.List? {
      assert [] + d.value.items == d.value.items;
    }
  }
}
