/** The OER encoder of SEQUENCE and the round trip. */
module OerRoundTrip {
  import opened Arith
  import opened Wrappers
  import opened Bits
  import opened BerHeader
  import opened OerSequence

  /** Whether a member is sent: set, and different from its default. */
  predicate OnWire<M, V(==)>(m: Member<M, V>, value: Option<V>) {
    value.Some? && !(m.default.Some? && value.value == m.default.value)
  }

  /** The presence bits of the optional members, in order. */
  function WireBits<M, V(==)>(ms: seq<Member<M, V>>, values: seq<Option<V>>): seq<bool>
    requires |values| == |ms|
  {
    if ms == [] then []
    else (if ms[0].optional then [OnWire(ms[0], values[0])] else []) + WireBits(ms[1..], values[1..])
  }

  /** Bits filled up with zeros to whole octets. */
  function Pack(b: seq<bool>): (s: seq<byte>)
    ensures |s| == Reach(|b|)
  {
    LowOctets(Shl(Num(b), 8 * Reach(|b|) - |b|), Reach(|b|))
  }

  lemma PackBits(b: seq<bool>)
    ensures BytesBits(Pack(b)) == b + Zeros(8 * Reach(|b|) - |b|)
  {
    hide BytesBits, Num, BitsOf, LowOctets, Shl, Zeros;
    var k := Reach(|b|);
    LowOctetsBits(Shl(Num(b), 8 * k - |b|), k);
    NumBits(b);
    BitsOfShl(Num(b), |b|, 8 * k - |b|);
  }

  function EncodeMembers<M, V(==)>(ms: seq<Member<M, V>>, values: seq<Option<V>>): Option<seq<byte>>
    requires |values| == |ms|
  {
    if ms == [] then Some([])
    else if values[0].None? && !ms[0].optional then None
    else
      var rest := EncodeMembers(ms[1..], values[1..]);
      if !OnWire(ms[0], values[0]) then rest
      else
        var e := ms[0].codec.enc(values[0].value);
        if e.Some? && rest.Some? then Some(e.value + rest.value) else None
  }

  /** The preamble, when there are presence bits, and the members. */
  function Encode<M, V(==)>(ty: SequenceType<M, V>, values: seq<Option<V>>): Option<seq<byte>>
    requires |values| == |ty.members|
  {
    var body := EncodeMembers(ty.members, values);
    if body.None? then None
    else Some((if ty.roms > 0 then Pack(WireBits(ty.members, values)) else []) + body.value)
  }

  /** The descriptor counts its optional members, and only these have defaults. */
  predicate TypeOk<M, V>(ty: SequenceType<M, V>) {
    && ty.roms == Optionals(ty.members, |ty.members|)
    && forall k :: 0 <= k < |ty.members| && ty.members[k].default.Some? ==> ty.members[k].optional
  }

  ghost predicate CodecsInvert<M(!new), V(!new)>(ty: SequenceType<M, V>) {
    forall k :: 0 <= k < |ty.members| ==> Inverts(ty.members[k].codec)
  }

  function SlotValue<M, V>(m: Member<M, V>, slot: Slot<M, V>): Option<V> {
    match slot
    case Unset => None
    case Defaulted(v) => Some(v)
    case Memory(mem) => Some(m.codec.val(mem))
  }

  /** The value that comes back for a member: defaults are filled in, also inside the value. */
  function Filled<M, V(==)>(m: Member<M, V>, value: Option<V>): Option<V> {
    if OnWire(m, value) then Some(m.codec.fill(value.value)) else m.default
  }

  /** From member k on the slots hold the values; before k they are those of s. */
  ghost predicate Holds<M, V>(ty: SequenceType<M, V>, values: seq<Option<V>>, k: nat, s: State<M, V>, t: State<M, V>)
    requires |values| == |ty.members| == |s.slots| == |t.slots|
  {
    && (forall j :: 0 <= j < k && j < |s.slots| ==> t.slots[j] == s.slots[j])
    && (forall j :: k <= j < |values| ==> SlotValue(ty.members[j], t.slots[j]) == Filled(ty.members[j], values[j]))
  }

  lemma TailOf<M, V>(ty: SequenceType<M, V>, values: seq<Option<V>>, k: nat)
    requires |values| == |ty.members| && k < |values|
    ensures ty.members[k..][1..] == ty.members[k + 1..] && values[k..][1..] == values[k + 1..]
    ensures ty.members[k..][0] == ty.members[k] && values[k..][0] == values[k]
  {
  }

  lemma {:induction false} RootTrip<M(!new), V(!new)>(ty: SequenceType<M, V>, s: State<M, V>, values: seq<Option<V>>, rest: seq<byte>)
    requires Valid(ty, s) && s.phase == AtRoot && !s.entered && CodecsResumable(ty) && CodecsInvert(ty) && TypeOk(ty)
    requires |values| == |ty.members|
    requires s.preamble == WireBits(ty.members[s.edx..], values[s.edx..])
    requires EncodeMembers(ty.members[s.edx..], values[s.edx..]).Some?
    ensures var e := EncodeMembers(ty.members[s.edx..], values[s.edx..]).value;
            var r := Root(ty, s, e + rest);
            r.code == Ok && r.used == |e| && Holds(ty, values, s.edx, s, r.state)
    decreases |ty.members| - s.edx
  {
    hide CodecsResumable, CodecsInvert;
    var k := s.edx;
    if k < |ty.members| {
      TailOf(ty, values, k);
      var m, more := ty.members[k], EncodeMembers(ty.members[k + 1..], values[k + 1..]).value;
      var e := EncodeMembers(ty.members[k..], values[k..]).value;
      var bits := WireBits(ty.members[k + 1..], values[k + 1..]);
      assert if m.optional then s.preamble[1..] == bits else s.preamble == bits;
      if OnWire(m, values[k]) {
        MemberTrip(ty, s, values, rest, bits, more);
      } else {
        var t := Presence(ty, s).next;
        RootTrip(ty, t, values, rest);
      }
    }
  }

  lemma {:induction false} MemberTrip<M(!new), V(!new)>(ty: SequenceType<M, V>, s: State<M, V>, values: seq<Option<V>>, rest: seq<byte>,
                                           bits: seq<bool>, more: seq<byte>)
    requires Valid(ty, s) && s.phase == AtRoot && !s.entered && CodecsResumable(ty) && CodecsInvert(ty) && TypeOk(ty)
    requires |values| == |ty.members| && s.edx < |values|
    requires bits == WireBits(ty.members[s.edx + 1..], values[s.edx + 1..])
    requires EncodeMembers(ty.members[s.edx + 1..], values[s.edx + 1..]) == Some(more)
    requires var m := ty.members[s.edx];
             && OnWire(m, values[s.edx]) && m.codec.enc(values[s.edx].value).Some?
             && s.preamble == (if m.optional then [true] else []) + bits
    ensures var e := ty.members[s.edx].codec.enc(values[s.edx].value).value + more;
            var r := Root(ty, s, e + rest);
            r.code == Ok && r.used == |e| && Holds(ty, values, s.edx, s, r.state)
    decreases |ty.members| - s.edx, 0
  {
    hide Root, CodecsResumable, WireBits, EncodeMembers, TypeOk;
    var k, m := s.edx, ty.members[s.edx];
    var v := values[k].value;
    var e := m.codec.enc(v).value;
    assert m.optional ==> s.preamble[1..] == bits;
    assert !m.optional ==> s.preamble == bits;
    var t := Presence(ty, s).into;
    var b := e + more + rest;
    assert b == e + (more + rest);
    assert Inverts(m.codec);
    assert InvertsAt(m.codec, v, more + rest);
    hide CodecsInvert;
    RootUnfold(ty, s, t, b);
    var r := m.codec.dec(m.codec.blank, b);
    var u := t.(slots := t.slots[k := Memory(r.memory)], edx := k + 1, entered := false);
    assert b[r.used..] == more + rest;
    RootTrip(ty, u, values, rest);
  }

  /** Round trip: if every member codec inverts, decoding the encoding gives the values with defaults filled in. */
  lemma RoundTrip<M(!new), V(!new)>(ty: SequenceType<M, V>, values: seq<Option<V>>, rest: seq<byte>)
    requires CodecsResumable(ty) && CodecsInvert(ty) && TypeOk(ty)
    requires |values| == |ty.members| && Encode(ty, values).Some?
    ensures var e := Encode(ty, values).value;
            var r := Run(ty, Fresh(ty), e + rest);
            && r.code == Ok && r.used == |e|
            && forall j :: 0 <= j < |values| ==> SlotValue(ty.members[j], r.state.slots[j]) == Filled(ty.members[j], values[j])
  {
    hide Root, CodecsResumable, CodecsInvert, BytesBits, EncodeMembers;
    var bits, body := WireBits(ty.members, values), EncodeMembers(ty.members, values).value;
    WireBitsCount(ty.members, values);
    PackBits(bits);
    var pre := Pack(bits);
    var b := Encode(ty, values).value + rest;
    assert ty.roms == 0 ==> pre == [];
    hide Pack, WireBits;
    assert b == pre + (body + rest);
    assert b[..|pre|] == pre && b[|pre|..] == body + rest;
    var t := Fresh(ty).(phase := AtRoot, preamble := BytesBits(pre)[..ty.roms]);
    assert BytesBits(pre)[..ty.roms] == bits;
    assert ty.members[0..] == ty.members && values[0..] == values;
    RootTrip(ty, t, values, rest);
  }

  lemma {:induction false} WireBitsCount<M, V>(ms: seq<Member<M, V>>, values: seq<Option<V>>)
    requires |values| == |ms|
    ensures |WireBits(ms, values)| == Optionals(ms, |ms|)
  {
    if ms != [] {
      WireBitsCount(ms[1..], values[1..]);
      OptionalsTail(ms, |ms|);
    }
  }

  lemma {:induction false} OptionalsTail<M, V>(ms: seq<Member<M, V>>, k: nat)
    requires 0 < k <= |ms|
    ensures Optionals(ms, k) == (if ms[0].optional then 1 else 0) + Optionals(ms[1..], k - 1)
  {
    if k > 1 {
      OptionalsTail(ms, k - 1);
    }
  }
}
