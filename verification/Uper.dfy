/**
 * Unaligned PER of BOOLEAN, NULL, ENUMERATED, CHOICE, SEQUENCE and SEQUENCE OF as functions on
 * bit sequences.
 */
module Uper {
  import opened Wrappers
  import opened Bits

  /** A type descriptor with the constraints that are in effect for it; extensible is APC_EXTENSIBLE. */
  datatype Type =
    | Boolean
    | Null
      // value2enum sorted by value, range_bits and the 1-based index of the first extension or 0
    | Enumerated(values: seq<int>, rangeBits: nat, extension: nat, extensible: bool)
    | Choice(alternatives: seq<Type>, canonical: Canonical, indexBits: nat, lower: int, upper: int, extensible: bool)
      // root members and the members listed in oms; extensible when first_extension is not negative
    | Sequence(members: seq<Member>, oms: seq<nat>, extensible: bool)
    | SequenceOf(element: Type, least: int, most: int, sizeBits: nat, extensible: bool)

  /** to_canonical_order and from_canonical_order, absent when the natural order is canonical. */
  datatype Canonical = Natural | Tables(to: seq<nat>, from: seq<nat>)

  datatype Member = Member(ty: Type, pointer: bool, optional: bool, default: Option<Value>)

  datatype Value =
    | Bool(b: bool)
    | Nothing
    | Enum(n: int)
    | Chosen(present: nat, slot: Option<Value>)   // present is 1-based, 0 when nothing is set
    | Struct(slots: seq<Option<Value>>)           // None for a null member pointer
    | List(items: seq<Value>)

  /**
   * Beyond marks the extension encodings, which are not part of this model, and Outside a read
   * past the end of a table of the descriptor, which the source does not test for.
   */
  datatype Encoding = Encoded(bits: seq<bool>) | EncodeFailed | EncodeBeyond | EncodeOutside

  /** On success: the value, rval.consumed as reported by the decoder, and the bits not read. */
  datatype Decoding = Decoded(value: Value, consumed: nat, rest: seq<bool>) 
                    | Starved | DecodeFailed | DecodeBeyond | DecodeOutside

  /** per_put_few_bits and per_get_few_bits on bit sequences. */
  function Put(v: nat, n: nat): Encoding {
    if n <= 31 then Encoded(BitsOf(v, n)) else EncodeFailed
  }

  function Get(b: seq<bool>, n: nat): Option<nat> {
    if n <= 31 && n <= |b| then Some(Num(b[..n])) else None
  }

  function Then(a: Encoding, b: Encoding): Encoding {
    if a.Encoded? && b.Encoded? then Encoded(a.bits + b.bits) else if a.Encoded? then b else a
  }

  /** The flag that precedes an extensible type. */
  function Flag(extensible: bool, on: bool): seq<bool> {
    if extensible then [on] else []
  }

  function Find(values: seq<int>, v: int): (r: Option<nat>)
    ensures r.Some? ==> r.value < |values| && values[r.value] == v
    ensures r.None? ==> v !in values
  {
    if values == [] then None
    else if values[|values| - 1] == v then Some(|values| - 1)
    else Find(values[..|values| - 1], v)
  }

  /** How many enumeration values belong to the root. */
  function RootCount(values: seq<int>, extension: nat): nat {
    if extension > 0 then extension - 1 else |values|
  }

  function ToWire(c: Canonical, i: nat): nat {
    if c.Tables? && i < |c.to| then c.to[i] else i
  }

  function FromWire(c: Canonical, i: nat): nat {
    if c.Tables? && i < |c.from| then c.from[i] else i
  }

  /** Whether the place of an alternative on the wire is in the tables. */
  predicate HasWire(c: Canonical, i: nat) {
    c.Tables? ==> i < |c.to|
  }

  /** Whether a place on the wire leads to one of n alternatives. */
  predicate InTables(n: nat, c: Canonical, wire: nat) {
    (c.Tables? ==> wire < |c.from|) && FromWire(c, wire) < n
  }

  /** Whether the member goes onto the wire: set, and different from its default. */
  predicate OnWire(m: Member, slot: Option<Value>) {
    slot.Some? && !(m.default.Some? && slot.value == m.default.value)
  }

  /** The presence bitmap, in the order of oms. */
  function Bitmap(oms: seq<nat>, members: seq<Member>, slots: seq<Option<Value>>): seq<bool>
    requires |slots| == |members| && forall i :: 0 <= i < |oms| ==> oms[i] < |members|
  {
    if oms == [] then []
    else [OnWire(members[oms[0]], slots[oms[0]])] + Bitmap(oms[1..], members, slots)
  }

  predicate OmsInRange(oms: seq<nat>, n: nat) {
    forall i :: 0 <= i < |oms| ==> oms[i] < n
  }

  function Encode(ty: Type, v: Value): Encoding
    decreases ty, 0
  {
    match ty
    case Boolean => if v.Bool? then Put(if v.b then 1 else 0, 1) else EncodeFailed
    case Null => if v.Nothing? then Encoded([]) else EncodeFailed
    case Enumerated(values, rangeBits, extension, extensible) =>
      if !v.Enum? || Find(values, v.n).None? then EncodeFailed
      else
        var i := Find(values, v.n).value;
        if i >= RootCount(values, extension) then if extensible then EncodeBeyond else EncodeFailed
        else Then(Encoded(Flag(extensible, false)), Put(i, rangeBits))
    case Choice(alternatives, canonical, indexBits, lower, upper, extensible) =>
      if !v.Chosen? || v.present == 0 || v.present > |alternatives| then EncodeFailed
      else
        var i := v.present - 1;
        var wire := ToWire(canonical, i);
        if !HasWire(canonical, i) then EncodeOutside
        else if wire < lower || wire > upper then if extensible then EncodeBeyond else EncodeFailed
        else if v.slot.None? then EncodeFailed
        else Then(Encoded(Flag(extensible, false)), Then(Put(wire, indexBits), Encode(alternatives[i], v.slot.value)))
    case Sequence(members, oms, extensible) =>
      if !v.Struct? || |v.slots| != |members| then EncodeFailed
      else if !OmsInRange(oms, |members|) then EncodeOutside
      else Then(Encoded(Flag(extensible, false) + Bitmap(oms, members, v.slots)), EncodeMembers(members, v.slots))
    case SequenceOf(element, least, most, sizeBits, extensible) =>
      if !v.List? then EncodeFailed
      else if |v.items| < least || |v.items| > most then if extensible then EncodeBeyond else EncodeFailed
      else Then(Encoded(Flag(extensible, false)), Then(Put(|v.items| - least, sizeBits), EncodeItems(element, v.items)))
  }

  /** The root members from left to right. */
  function EncodeMembers(members: seq<Member>, slots: seq<Option<Value>>): Encoding
    requires |slots| == |members|
    decreases members, 1
  {
    if members == [] then Encoded([])
    else
      var m, slot := members[0], slots[0];
      if slot.None? && !(m.pointer && m.optional) then EncodeFailed
      else if !OnWire(m, slot) then EncodeMembers(members[1..], slots[1..])
      else Then(EncodeMember(members[0], slot.value), EncodeMembers(members[1..], slots[1..]))
  }

  function EncodeMember(m: Member, v: Value): Encoding
    decreases m, 1
  {
    Encode(m.ty, v)
  }

  function EncodeItems(element: Type, items: seq<Value>): Encoding
    decreases element, 1, |items|
  {
    if items == [] then Encoded([]) else Then(Encode(element, items[0]), EncodeItems(element, items[1..]))
  }

  function Decode(ty: Type, b: seq<bool>): Decoding
    decreases ty, 0
  {
    match ty
    case Boolean =>
      if Get(b, 1).None? then Starved else Decoded(Bool(Get(b, 1).value == 1), 1, b[1..])
    case Null => Decoded(Nothing, 0, b)
    case Enumerated(values, rangeBits, extension, extensible) =>
      if extensible && b == [] then Starved
      else if extensible && b[0] then DecodeBeyond
      else
        var c := if extensible then b[1..] else b;
        var i := Get(c, rangeBits);
        if i.None? then Starved
        else if i.value >= RootCount(values, extension) then DecodeFailed
        else if i.value >= |values| then DecodeOutside
        else Decoded(Enum(values[i.value]), 0, c[rangeBits..])
    case Choice(alternatives, canonical, indexBits, lower, upper, extensible) =>
      if extensible && b == [] then Starved
      else if extensible && b[0] then DecodeBeyond
      else
        var c := if extensible then b[1..] else b;
        var i := Get(c, indexBits);
        if i.None? then Starved
        else if i.value > upper then DecodeFailed
        else if !InTables(|alternatives|, canonical, i.value) then DecodeOutside
        else
          var k := FromWire(canonical, i.value);
          var d := Decode(alternatives[k], c[indexBits..]);
          if d.Decoded? then Decoded(Chosen(k + 1, Some(d.value)), d.consumed, d.rest) else d
    case Sequence(members, oms, extensible) =>
      if extensible && b == [] then Starved
      else
        var c := if extensible then b[1..] else b;
        if |oms| > |c| then Starved
        else
          var d := DecodeMembers(members, c[..|oms|], c[|oms|..]);
          if d.Decoded? && extensible && b[0] then DecodeBeyond else d
    case SequenceOf(element, least, most, sizeBits, extensible) =>
      if extensible && b == [] then Starved
      else if extensible && b[0] then DecodeBeyond
      else
        var c := if extensible then b[1..] else b;
        var n := Get(c, sizeBits);
        if n.None? then Starved
        else if n.value + least < 0 then DecodeBeyond
        else DecodeItems(element, n.value + least, n.value + least, c[sizeBits..])
  }

  /** The root members; presence holds the bits of the bitmap that were not used yet. */
  function DecodeMembers(members: seq<Member>, presence: seq<bool>, b: seq<bool>): (d: Decoding)
    ensures d.Decoded? ==> d.value.Struct? && |d.value.slots| == |members|
    decreases members, 1
  {
    if members == [] then Decoded(Struct([]), 0, b)
    else
      var m := members[0];
      var more := if m.optional && presence != [] then presence[1..] else presence;
      if m.optional && presence != [] && !presence[0] then
        Prepend(m.default, DecodeMembers(members[1..], more, b))
      else
        var d := DecodeMember(members[0], b);
        if d.Decoded? then Prepend(Some(d.value), DecodeMembers(members[1..], more, d.rest)) else d
  }

  function DecodeMember(m: Member, b: seq<bool>): Decoding
    decreases m, 1
  {
    Decode(m.ty, b)
  }

  function Prepend(slot: Option<Value>, d: Decoding): Decoding {
    if d.Decoded? && d.value.Struct? then d.(value := Struct([slot] + d.value.slots)) else d
  }

  /** k elements of a list that announced total; long lists of elements that report nothing are refused. */
  function DecodeItems(element: Type, total: nat, k: nat, b: seq<bool>): (d: Decoding)
    ensures d.Decoded? ==> d.value.List?
    decreases element, 1, k
  {
    if k == 0 then Decoded(List([]), 0, b)
    else
      var d := Decode(element, b);
      if !d.Decoded? then d
      else if d.consumed == 0 && total > 200 then DecodeFailed
      else
        var r := DecodeItems(element, total, k - 1, d.rest);
        if r.Decoded? then r.(value := List([d.value] + r.value.items)) else r
  }
}
