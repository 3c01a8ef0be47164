/**
 * Member codecs of OER SEQUENCE: BOOLEAN (asn1/BOOLEAN.c), ENUMERATED (asn1/NativeEnumerated_oer.c) and
 * SEQUENCE itself, so that the theorems about sequences reach nested ones.
 */
module OerMembers {
  import opened Arith
  import opened Wrappers
  import opened Bits
  import opened BerHeader
  import opened OerSequence
  import opened OerRoundTrip
  import Integer

  /** BOOLEAN in one octet: any octet other than zero is true, and true is written as 255. */
  const BooleanCodec: Codec<int, int> :=
    Codec(0, (m: int) => true, (m: int) => if m != 0 then 1 else 0, (m: int, b: seq<byte>) => DecodeBoolean(m, b),
          (v: int) => if v == 1 then Some([0xff]) else if v == 0 then Some([0]) else None, (v: int) => v)

  function DecodeBoolean(m: int, b: seq<byte>): Progress<int> {
    if b == [] then Progress(WantMore, 0, m) else Progress(Ok, 1, b[0])
  }

  /** ENUMERATED: one octet up to 127, else a count of one to eight octets and a two's-complement number. */
  function DecodeEnumerated(m: int, b: seq<byte>): Progress<int> {
    if b == [] then Progress(WantMore, 0, m)
    else if b[0] < 128 then Progress(Ok, 1, b[0])
    else
      var length: int := b[0] - 128;
      if length < 1 || length > 8 then Progress(Fail, 0, m)
      else if 1 + length > |b| then Progress(WantMore, 0, m)
      else Progress(Ok, 1 + length, Integer.Signed(b[1..1 + length]))
  }

  function EncodeEnumerated(v: int): Option<seq<byte>> {
    if 0 <= v <= 127 then Some([v])
    else if -Integer.INTMAX_LIMIT <= v < Integer.INTMAX_LIMIT then
      var octets := Integer.Strip(Integer.Register(v, 8));
      Some([128 + |octets|] + octets)
    else None
  }

  const EnumeratedCodec: Codec<int, int> :=
    Codec(0, (m: int) => true, (m: int) => m, (m: int, b: seq<byte>) => DecodeEnumerated(m, b),
          (v: int) => EncodeEnumerated(v), (v: int) => v)

  /** NativeEnumerated_decode_oer for a type without field_unsigned; native is the memory of the member. */
  method DecodeEnumeratedOer(native: int, b: seq<byte>) returns (code: Code, used: nat, value: int)
    ensures Progress(code, used, value) == DecodeEnumerated(native, b)
  {
    if |b| < 1 {
      return WantMore, 0, native;
    }
    if b[0] < 0x80 {
      return Ok, 1, b[0];
    }
    var length: int := b[0] - 0x80;
    if length < 1 || length > 8 {
      return Fail, 0, native;
    }
    if 1 + length > |b| {
      return WantMore, 0, native;
    }
    value := Integer.Convert(b[1..1 + length]);
    return Ok, 1 + length, value;
  }

  /** The number that has n in front of some octets. */
  function Before(n: int, s: seq<byte>): int {
    if s == [] then n else 256 * Before(n, s[..|s| - 1]) + s[|s| - 1]
  }

  lemma {:induction false} BeforeFirst(n: int, x: byte, s: seq<byte>)
    ensures Before(n, [x] + s) == Before(256 * n + x, s)
    decreases |s|
  {
    var t := [x] + s;
    if s != [] {
      BeforeFirst(n, x, s[..|s| - 1]);
      assert t[..|t| - 1] == [x] + s[..|s| - 1];
    } else {
      assert t[..0] == [];
    }
  }

  /** Octets whose first one already shows the sign need nothing in front. */
  lemma {:induction false} SignShown(n: int, s: seq<byte>)
    requires s != [] && n == (if s[0] < 128 then 0 else -1)
    ensures Before(n, s) == Integer.Signed(s)
  {
    if |s| > 1 {
      SignShown(n, s[..|s| - 1]);
    } else {
      assert s[..0] == [];
    }
  }

  /** NativeEnumerated_encode_oer: octets from the end until the rest is only the sign. */
  method EncodeEnumeratedOer(value: int) returns (out: seq<byte>)
    requires -Integer.INTMAX_LIMIT <= value < Integer.INTMAX_LIMIT
    ensures EncodeEnumerated(value) == Some(out)
  {
    if 0 <= value <= 127 {
      return [value];
    }
    var octets := OctetsOf(value);
    Shortest(octets, value);
    out := [0x80 + |octets|] + octets;
  }

  method OctetsOf(value: int) returns (octets: seq<byte>)
    ensures octets != [] && Integer.Signed(octets) == value && !Integer.Superfluous(octets)
  {
    hide Integer.Superfluous;
    octets := [];
    var native := value;
    var finalPattern := if value < 0 then -1 else 0;
    while true
      invariant Before(native, octets) == value && (native < 0 <==> value < 0)
      invariant octets != [] ==> !(native == finalPattern && (octets[0] >= 128 <==> value < 0))
      decreases if native < 0 then -native else native + 1, octets == [],
                octets == [] || !(octets[0] >= 128 <==> value < 0)
    {
      var x: byte := native % 256;
      BeforeFirst(native / 256, x, octets);
      ghost var was := octets;
      octets, native := [x] + octets, native / 256;
      if native == finalPattern && (x >= 128 <==> value < 0) {
        NotSuperfluous(octets, was, value);
        break;
      }
    }
    SignShown(native, octets);
  }

  lemma NotSuperfluous(s: seq<byte>, was: seq<byte>, value: int)
    requires s != [] && s[1..] == was && (s[0] >= 128 <==> value < 0)
    requires was != [] ==> !((s[0] == (if value < 0 then 255 else 0)) && (was[0] >= 128 <==> value < 0))
    ensures !Integer.Superfluous(s)
  {
    assert |s| > 1 ==> s[1] == was[0];
  }

  lemma Shortest(s: seq<byte>, value: int)
    requires s != [] && !Integer.Superfluous(s) && Integer.Signed(s) == value
    requires -Integer.INTMAX_LIMIT <= value < Integer.INTMAX_LIMIT
    ensures s == Integer.Strip(Integer.Register(value, 8)) && |s| <= 8
  {
    assert Integer.Strip(s) == s;
    Integer.Half8();
    Integer.RegisterValue(value, 8);
    hide Integer.Signed, Integer.Strip, Integer.Register;
    Integer.StripUnique(s, Integer.Register(value, 8));
  }

  /** Neither decoder takes octets while it waits, and what it answers does not depend on what follows. */
  lemma LeafResumes(m: int, a: seq<byte>, b: seq<byte>)
    ensures ResumesAt(BooleanCodec, m, a, b) && ResumesAt(EnumeratedCodec, m, a, b)
    ensures BooleanCodec.dec(m, a).code == WantMore ==> BooleanCodec.dec(m, a).used == 0
    ensures EnumeratedCodec.dec(m, a).code == WantMore ==> EnumeratedCodec.dec(m, a).used == 0
  {
    hide Integer.Signed;
    assert a[0..] == a;
    if a != [] {
      assert (a + b)[0] == a[0];
      var first: int := a[0];
      var n := first - 127;
      assert 1 <= n <= |a| ==> (a + b)[1..n] == a[1..n];
    }
  }

  lemma EnumeratedInverts(v: int, rest: seq<byte>)
    ensures InvertsAt(EnumeratedCodec, v, rest)
  {
    hide Integer.Signed, Integer.Register, Integer.Strip;
    if !(0 <= v <= 127) && -Integer.INTMAX_LIMIT <= v < Integer.INTMAX_LIMIT {
      var octets := Integer.Strip(Integer.Register(v, 8));
      Integer.Half8();
      Integer.RegisterValue(v, 8);
      Integer.StripValue(Integer.Register(v, 8));
      var n := |octets|;
      var b := [128 + n] + octets + rest;
      assert b[0] == 128 + n && b[1..1 + n] == octets;
    }
  }

  lemma BooleanInverts(v: int, rest: seq<byte>)
    ensures InvertsAt(BooleanCodec, v, rest)
  {
    if v == 0 || v == 1 {
      var e: byte := if v == 1 then 0xff else 0;
      assert ([e] + rest)[0] == e;
    }
  }

  /** Both codecs meet everything that the theorems about sequences ask of members. */
  lemma LeafCodecs()
    ensures Resumable(BooleanCodec) && Inverts(BooleanCodec) && Steady(BooleanCodec)
    ensures Resumable(EnumeratedCodec) && Inverts(EnumeratedCodec) && Steady(EnumeratedCodec)
  {
    hide DecodeBoolean, DecodeEnumerated, EncodeEnumerated;
    forall m: int, a: seq<byte>, b: seq<byte>
      ensures ResumesAt(BooleanCodec, m, a, b) && ResumesAt(EnumeratedCodec, m, a, b)
    {
      LeafResumes(m, a, b);
    }
    forall a: seq<byte>, b: seq<byte>
      ensures SteadyAt(BooleanCodec, a, b) && SteadyAt(EnumeratedCodec, a, b)
    {
      LeafResumes(0, a, b);
    }
    forall v: int, rest: seq<byte>
      ensures InvertsAt(BooleanCodec, v, rest) && InvertsAt(EnumeratedCodec, v, rest)
    {
      BooleanInverts(v, rest);
      EnumeratedInverts(v, rest);
    }
  }

  function SlotValues<M, V>(ty: SequenceType<M, V>, s: State<M, V>): seq<Option<V>> {
    if |s.slots| != |ty.members| then []
    else seq(|s.slots|, i requires 0 <= i < |s.slots| == |ty.members| => SlotValue(ty.members[i], s.slots[i]))
  }

  ghost function DecodeSequence<M(!new), V>(ty: SequenceType<M, V>, s: State<M, V>, b: seq<byte>): Progress<State<M, V>>
    requires CodecsResumable(ty)
  {
    if Valid(ty, s) then var r := Run(ty, s, b); Progress(r.code, r.used, r.state) else Progress(Fail, 0, s)
  }

  function EncodeSequence<M, V(==)>(ty: SequenceType<M, V>, values: seq<Option<V>>): Option<seq<byte>> {
    if |values| == |ty.members| then Encode(ty, values) else None
  }

  /** The values of a structure with defaults filled in. */
  function FilledValues<M, V(==)>(ty: SequenceType<M, V>, values: seq<Option<V>>): seq<Option<V>> {
    if |values| != |ty.members| then values
    else seq(|values|, i requires 0 <= i < |values| == |ty.members| => Filled(ty.members[i], values[i]))
  }

  /** The sequence as a member of another one. */
  ghost function SequenceCodec<M(!new), V>(ty: SequenceType<M, V>): Codec<State<M, V>, seq<Option<V>>>
    requires CodecsResumable(ty)
  {
    Codec(Fresh(ty), (s: State<M, V>) => Valid(ty, s), (s: State<M, V>) => SlotValues(ty, s),
          (s: State<M, V>, b: seq<byte>) => DecodeSequence(ty, s, b), (values: seq<Option<V>>) => EncodeSequence(ty, values),
          (values: seq<Option<V>>) => FilledValues(ty, values))
  }

  /** A sequence of resumable members is a resumable member. */
  lemma SequenceResumable<M(!new), V(!new)>(ty: SequenceType<M, V>)
    requires CodecsResumable(ty)
    ensures Resumable(SequenceCodec(ty))
  {
    hide Run, CodecsResumable;
    var c := SequenceCodec(ty);
    forall s: State<M, V>, a: seq<byte>, b: seq<byte> | c.inv(s)
      ensures ResumesAt(c, s, a, b)
    {
      Resume(ty, s, a, b);
    }
  }

  /** A sequence of resumable members that invert is a member that inverts. */
  lemma SequenceInverts<M(!new), V(!new)>(ty: SequenceType<M, V>)
    requires CodecsResumable(ty) && CodecsInvert(ty) && TypeOk(ty)
    ensures Inverts(SequenceCodec(ty))
  {
    hide Run, CodecsResumable, CodecsInvert, Encode, TypeOk;
    var c := SequenceCodec(ty);
    forall values: seq<Option<V>>, rest: seq<byte>
      ensures InvertsAt(c, values, rest)
    {
      if c.enc(values).Some? {
        RoundTrip(ty, values, rest);
        var r := Run(ty, Fresh(ty), c.enc(values).value + rest);
        assert SlotValues(ty, r.state) == FilledValues(ty, values);
      }
    }
  }

  /** SEQUENCE { BOOLEAN, ENUMERATED } */
  const Inner: SequenceType<int, int> :=
    SequenceType([Member(BooleanCodec, false, None), Member(EnumeratedCodec, false, None)], 0)

  /** SEQUENCE { SEQUENCE { BOOLEAN, ENUMERATED } } */
  ghost function Outer(): SequenceType<State<int, int>, seq<Option<int>>>
    requires CodecsResumable(Inner)
  {
    Alone(SequenceCodec(Inner))
  }

  lemma InnerResumable()
    ensures CodecsResumable(Inner)
  {
    hide Resumable;
    LeafCodecs();
  }

  /** On the octets ff the inner sequence takes its BOOLEAN and waits; 80 is no length of an ENUMERATED. */
  lemma InnerRuns()
    requires CodecsResumable(Inner)
    ensures var r := Run(Inner, Fresh(Inner), [0xff]); r.code == WantMore && r.used == 1
    ensures Run(Inner, Fresh(Inner), [0xff, 0x80]).code == Fail
  {
    var one: seq<byte> := [0xff];
    var two: seq<byte> := [0xff, 0x80];
    var s := Fresh(Inner).(phase := AtRoot);
    var t := Presence(Inner, s).into;
    var u := t.(slots := t.slots[0 := Memory(0xff)], edx := 1, entered := false);
    var v := Presence(Inner, u).into;
    assert one[..0] == [] && one[0..] == one && two[..0] == [] && two[0..] == two && BytesBits([]) == [];
    RootUnfold(Inner, s, t, one);
    RootUnfold(Inner, s, t, two);
    RootUnfold(Inner, u, v, one[1..]);
    RootUnfold(Inner, u, v, two[1..]);
    hide Root;
    assert Run(Inner, Fresh(Inner), one) == Using(0, Root(Inner, s, one));
    assert Run(Inner, Fresh(Inner), two) == Using(0, Root(Inner, s, two));
  }

  /** A nested sequence whose failure on the octets ff 80 reports 0 octets after one call and 1 after two. */
  lemma FailureUsedDependsOnChunks()
    ensures CodecsResumable(Inner) && CodecsResumable(Outer())
    ensures var r, q := Run(Outer(), Fresh(Outer()), [0xff, 0x80]), Feed(Outer(), Fresh(Outer()), [], [[0xff], [0x80]]);
            r.code == q.code == Fail && r.used == 0 && q.used == 1
  {
    InnerResumable();
    SequenceResumable(Inner);
    var c := SequenceCodec(Inner);
    InnerRuns();
    var one: seq<byte> := [0xff];
    var more: seq<byte> := [0x80];
    hide Run, Resumable;
    assert one + more == [0xff, 0x80];
    LateFailure(c, one, more);
  }
}
