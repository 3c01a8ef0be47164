/** The tables of the type descriptors: with complete tables no value and no input leads outside them. */
module UperTables {
  import opened Wrappers
  import opened Bits
  import opened Uper

  /** Every index that passes the checks of the codecs has its entry. */
  predicate TablesOk(ty: Type)
    decreases ty, 0
  {
    match ty
    case Boolean => true
    case Null => true
    case Enumerated(values, _, extension, _) => RootCount(values, extension) <= |values|
    case Choice(alternatives, canonical, _, _, upper, _) =>
      && (forall i :: 0 <= i < |alternatives| ==> HasWire(canonical, i))
      && (forall wire :: 0 <= wire <= upper ==> InTables(|alternatives|, canonical, wire))
      && AllTablesOk(alternatives)
    case Sequence(members, oms, _) => OmsInRange(oms, |members|) && MemberTablesOk(members)
    case SequenceOf(element, _, _, _, _) => TablesOk(element)
  }

  predicate AllTablesOk(tys: seq<Type>)
    decreases tys, 1
  {
    tys == [] || (TablesOk(tys[0]) && AllTablesOk(tys[1..]))
  }

  predicate OneTablesOk(m: Member)
    decreases m, 1
  {
    TablesOk(m.ty)
  }

  predicate MemberTablesOk(members: seq<Member>)
    decreases members, 1
  {
    members == [] || (OneTablesOk(members[0]) && MemberTablesOk(members[1..]))
  }

  lemma {:induction false} TablesAt(tys: seq<Type>, i: nat)
    requires AllTablesOk(tys) && i < |tys|
    ensures TablesOk(tys[i])
  {
    if i > 0 {
      TablesAt(tys[1..], i - 1);
    }
  }

  /** No bit stream whatever makes the decoders read outside the tables. */
  lemma {:induction false} DecodeStaysInside(ty: Type, b: seq<bool>)
    requires TablesOk(ty)
    ensures !Decode(ty, b).DecodeOutside?
    decreases ty, 0
  {
    hide Num, DecodeMembers, DecodeItems;
    match ty
    case Boolean =>
    case Null =>
    case Enumerated(_, _, _, _) =>
    case Choice(alternatives, canonical, indexBits, _, upper, extensible) =>
      var c := if extensible && b != [] then b[1..] else b;
      var i := Get(c, indexBits);
      if i.Some? && i.value <= upper {
        var k := FromWire(canonical, i.value);
        assert InTables(|alternatives|, canonical, i.value);
        TablesAt(alternatives, k);
        DecodeStaysInside(alternatives[k], c[indexBits..]);
      }
    case Sequence(members, oms, extensible) =>
      var c := if extensible && b != [] then b[1..] else b;
      if |oms| <= |c| {
        MembersStayInside(members, c[..|oms|], c[|oms|..]);
      }
    case SequenceOf(element, least, _, sizeBits, extensible) =>
      var c := if extensible && b != [] then b[1..] else b;
      var n := Get(c, sizeBits);
      if n.Some? && n.value + least >= 0 {
        ItemsStayInside(element, n.value + least, n.value + least, c[sizeBits..]);
      }
  }

  lemma {:induction false} MembersStayInside(members: seq<Member>, presence: seq<bool>, b: seq<bool>)
    requires MemberTablesOk(members)
    ensures !DecodeMembers(members, presence, b).DecodeOutside?
    decreases members, 1
  {
    hide Decode;
    if members != [] {
      var m := members[0];
      var more := if m.optional && presence != [] then presence[1..] else presence;
      MembersStayInside(members[1..], more, b);
      MemberStaysInside(m, b);
      var d := DecodeMember(m, b);
      if d.Decoded? {
        MembersStayInside(members[1..], more, d.rest);
      }
    }
  }

  lemma {:induction false} MemberStaysInside(m: Member, b: seq<bool>)
    requires OneTablesOk(m)
    ensures !DecodeMember(m, b).DecodeOutside?
    decreases m, 1
  {
    DecodeStaysInside(m.ty, b);
  }

  lemma {:induction false} ItemsStayInside(element: Type, total: nat, k: nat, b: seq<bool>)
    requires TablesOk(element)
    ensures !DecodeItems(element, total, k, b).DecodeOutside?
    decreases element, 1, k
  {
    hide Decode;
    if k > 0 {
      DecodeStaysInside(element, b);
      var d := Decode(element, b);
      if d.Decoded? {
        ItemsStayInside(element, total, k - 1, d.rest);
      }
    }
  }

  /** No value whatever makes the encoders read outside the tables. */
  lemma {:induction false} EncodeStaysInside(ty: Type, v: Value)
    requires TablesOk(ty)
    ensures !Encode(ty, v).EncodeOutside?
    decreases ty, 0
  {
    hide BitsOf, Bitmap, Find, EncodeMembers, EncodeItems;
    match ty
    case Boolean =>
    case Null =>
    case Enumerated(_, _, _, _) =>
    case Choice(alternatives, _, _, _, _, _) =>
      if v.Chosen? && 0 < v.present <= |alternatives| && v.slot.Some? {
        TablesAt(alternatives, v.present - 1);
        EncodeStaysInside(alternatives[v.present - 1], v.slot.value);
      }
    case Sequence(members, _, _) =>
      if v.Struct? && |v.slots| == |members| {
        SlotsStayInside(members, v.slots);
      }
    case SequenceOf(element, _, _, _, _) =>
      if v.List? {
        ListStaysInside(element, v.items);
      }
  }

  lemma {:induction false} SlotsStayInside(members: seq<Member>, slots: seq<Option<Value>>)
    requires MemberTablesOk(members) && |slots| == |members|
    ensures !EncodeMembers(members, slots).EncodeOutside?
    decreases members, 1
  {
    hide Encode;
    if members != [] {
      SlotsStayInside(members[1..], slots[1..]);
      if slots[0].Some? {
        SlotStaysInside(members[0], slots[0].value);
      }
    }
  }

  lemma {:induction false} SlotStaysInside(m: Member, v: Value)
    requires OneTablesOk(m)
    ensures !EncodeMember(m, v).EncodeOutside?
    decreases m, 1
  {
    EncodeStaysInside(m.ty, v);
  }

  lemma {:induction false} ListStaysInside(element: Type, items: seq<Value>)
    requires TablesOk(element)
    ensures !EncodeItems(element, items).EncodeOutside?
    decreases element, 1, |items|
  {
    hide Encode;
    if items != [] {
      EncodeStaysInside(element, items[0]);
      ListStaysInside(element, items[1..]);
    }
  }
}
