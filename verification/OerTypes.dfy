/** OER codecs of type trees: BOOLEAN, ENUMERATED and SEQUENCE types of any nesting, and their theorems by induction. */
module OerTypes {
  import opened Arith
  import opened Wrappers
  import opened BerHeader
  import opened OerSequence
  import opened OerRoundTrip
  import opened OerMembers

  datatype Value = Number(n: int) | Fields(fields: seq<Option<Value>>)

  datatype Type = Boolean | Enumerated | Sequence(fields: seq<Field>, roms: nat)

  datatype Field = Field(ty: Type, optional: bool, default: Option<Value>)

  /** The memory of a decoder: a number, or a structure with its context and the memories of its members. */
  datatype Store = Plain(m: int) | Structure(s: State<Store, Value>)

  /** A codec of numbers as a codec of values. */
  ghost function Leaf(c: Codec<int, int>): Codec<Store, Value> {
    Codec(Plain(c.blank), (m: Store) => m.Plain? && c.inv(m.m), (m: Store) => if m.Plain? then Number(c.val(m.m)) else Number(0),
          (m: Store, b: seq<byte>) => DecodeLeaf(c, m, b),
          (v: Value) => if v.Number? then c.enc(v.n) else None, (v: Value) => if v.Number? then Number(c.fill(v.n)) else v)
  }

  ghost function DecodeLeaf(c: Codec<int, int>, m: Store, b: seq<byte>): Progress<Store> {
    if m.Plain? then var r := c.dec(m.m, b); Progress(r.code, r.used, Plain(r.memory)) else Progress(Fail, 0, m)
  }

  /** A codec of structures as a codec of values. */
  ghost function Nested(c: Codec<State<Store, Value>, seq<Option<Value>>>): Codec<Store, Value> {
    Codec(Structure(c.blank), (m: Store) => m.Structure? && c.inv(m.s),
          (m: Store) => if m.Structure? then Fields(c.val(m.s)) else Number(0),
          (m: Store, b: seq<byte>) => DecodeNested(c, m, b),
          (v: Value) => if v.Fields? then c.enc(v.fields) else None, (v: Value) => if v.Fields? then Fields(c.fill(v.fields)) else v)
  }

  ghost function DecodeNested(c: Codec<State<Store, Value>, seq<Option<Value>>>, m: Store, b: seq<byte>): Progress<Store> {
    if m.Structure? then var r := c.dec(m.s, b); Progress(r.code, r.used, Structure(r.memory)) else Progress(Fail, 0, m)
  }

  lemma LeafResumable(c: Codec<int, int>)
    requires Resumable(c)
    ensures Resumable(Leaf(c))
  {
    forall m: Store, a: seq<byte>, b: seq<byte> | Leaf(c).inv(m)
      ensures ResumesAt(Leaf(c), m, a, b)
    {
      assert ResumesAt(c, m.m, a, b);
    }
  }

  lemma LeafInverts(c: Codec<int, int>)
    requires Inverts(c)
    ensures Inverts(Leaf(c))
  {
    forall v: Value, rest: seq<byte>
      ensures InvertsAt(Leaf(c), v, rest)
    {
      if v.Number? {
        assert InvertsAt(c, v.n, rest);
      }
    }
  }

  lemma NestedResumable(c: Codec<State<Store, Value>, seq<Option<Value>>>)
    requires Resumable(c)
    ensures Resumable(Nested(c))
  {
    forall m: Store, a: seq<byte>, b: seq<byte> | Nested(c).inv(m)
      ensures ResumesAt(Nested(c), m, a, b)
    {
      assert ResumesAt(c, m.s, a, b);
    }
  }

  lemma NestedInverts(c: Codec<State<Store, Value>, seq<Option<Value>>>)
    requires Inverts(c)
    ensures Inverts(Nested(c))
  {
    forall v: Value, rest: seq<byte>
      ensures InvertsAt(Nested(c), v, rest)
    {
      if v.Fields? {
        assert InvertsAt(c, v.fields, rest);
      }
    }
  }

  lemma BooleanResumable()
    ensures Resumable(Leaf(BooleanCodec)) && Resumable(Leaf(EnumeratedCodec))
  {
    hide Resumable;
    LeafCodecs();
    LeafResumable(BooleanCodec);
    LeafResumable(EnumeratedCodec);
  }

  /** The codec of a type tree. */
  ghost function CodecOf(ty: Type): (c: Codec<Store, Value>)
    ensures Resumable(c)
    decreases ty, 0
  {
    hide Resumable, CodecsResumable;
    match ty
    case Boolean => BooleanResumable(); Leaf(BooleanCodec)
    case Enumerated => BooleanResumable(); Leaf(EnumeratedCodec)
    case Sequence(fields, roms) =>
      var st := SequenceType(MembersOf(fields), roms);
      MembersResumable(st);
      SequenceResumable(st);
      NestedResumable(SequenceCodec(st));
      Nested(SequenceCodec(st))
  }

  lemma MembersResumable(st: SequenceType<Store, Value>)
    requires AllResumable(st.members)
    ensures CodecsResumable(st)
  {
  }

  ghost predicate AllResumable(ms: seq<Member<Store, Value>>) {
    forall k :: 0 <= k < |ms| ==> Resumable(ms[k].codec)
  }

  ghost function MemberOf(f: Field): (m: Member<Store, Value>)
    ensures Resumable(m.codec)
    decreases f, 1
  {
    Member(CodecOf(f.ty), f.optional, f.default)
  }

  ghost function MembersOf(fields: seq<Field>): (ms: seq<Member<Store, Value>>)
    ensures |ms| == |fields| && AllResumable(ms)
    decreases fields, 1
  {
    hide Resumable;
    if fields == [] then [] else [MemberOf(fields[0])] + MembersOf(fields[1..])
  }

  lemma {:induction false} MemberAt(fields: seq<Field>, k: nat)
    requires k < |fields|
    ensures MembersOf(fields)[k] == MemberOf(fields[k])
  {
    if k > 0 {
      MemberAt(fields[1..], k - 1);
    }
  }

  function OptionalFields(fields: seq<Field>, k: nat): nat
    requires k <= |fields|
  {
    if k == 0 then 0 else OptionalFields(fields, k - 1) + if fields[k - 1].optional then 1 else 0
  }

  /** Every SEQUENCE counts its optional members, and only these have defaults. */
  predicate TreeOk(ty: Type)
    decreases ty, 0
  {
    ty.Sequence? ==>
      && ty.roms == OptionalFields(ty.fields, |ty.fields|)
      && (forall k :: 0 <= k < |ty.fields| && ty.fields[k].default.Some? ==> ty.fields[k].optional)
      && AllOk(ty.fields)
  }

  predicate FieldOk(f: Field)
    decreases f, 1
  {
    TreeOk(f.ty)
  }

  predicate AllOk(fields: seq<Field>)
    decreases fields, 1
  {
    fields == [] || (FieldOk(fields[0]) && AllOk(fields[1..]))
  }

  lemma {:induction false} OptionalsOf(fields: seq<Field>, k: nat)
    requires k <= |fields|
    ensures Optionals(MembersOf(fields), k) == OptionalFields(fields, k)
  {
    hide CodecOf;
    if k > 0 {
      OptionalsOf(fields, k - 1);
      MemberAt(fields, k - 1);
    }
  }

  lemma TypeOfTree(ty: Type)
    requires ty.Sequence? && TreeOk(ty)
    ensures TypeOk(SequenceType(MembersOf(ty.fields), ty.roms))
  {
    hide CodecOf, AllOk, MembersOf;
    var ms := MembersOf(ty.fields);
    OptionalsOf(ty.fields, |ty.fields|);
    forall k | 0 <= k < |ms| && ms[k].default.Some?
      ensures ms[k].optional
    {
      MemberAt(ty.fields, k);
    }
  }

  /** The codec of every type tree inverts. */
  lemma {:induction false} TreeInverts(ty: Type)
    requires TreeOk(ty)
    ensures Inverts(CodecOf(ty))
    decreases ty, 0
  {
    hide Inverts, Resumable, CodecsResumable, TypeOk;
    match ty
    case Boolean =>
      LeafCodecs();
      LeafInverts(BooleanCodec);
    case Enumerated =>
      LeafCodecs();
      LeafInverts(EnumeratedCodec);
    case Sequence(fields, roms) =>
      var st := SequenceType(MembersOf(fields), roms);
      MembersResumable(st);
      FieldsInvert(fields);
      TypeOfTree(ty);
      SequenceInverts(st);
      NestedInverts(SequenceCodec(st));
  }

  lemma {:induction false} FieldInverts(f: Field)
    requires FieldOk(f)
    ensures Inverts(MemberOf(f).codec)
    decreases f, 1
  {
    TreeInverts(f.ty);
  }

  lemma {:induction false} FieldsInvert(fields: seq<Field>)
    requires AllOk(fields)
    ensures forall k :: 0 <= k < |fields| ==> Inverts(MembersOf(fields)[k].codec)
    decreases fields, 1
  {
    hide Inverts, Resumable, MemberOf, FieldOk;
    if fields != [] {
      FieldInverts(fields[0]);
      FieldsInvert(fields[1..]);
    }
  }

  /** The value with all defaults filled in, at every depth. */
  function Complete(ty: Type, v: Value): Value
    decreases ty, 0
  {
    if ty.Sequence? && v.Fields? && |v.fields| == |ty.fields| then Fields(CompleteAll(ty.fields, v.fields)) else v
  }

  function CompleteField(f: Field, value: Option<Value>): Option<Value>
    decreases f, 1
  {
    if value.Some? && value != f.default then Some(Complete(f.ty, value.value)) else f.default
  }

  function CompleteAll(fields: seq<Field>, values: seq<Option<Value>>): (r: seq<Option<Value>>)
    requires |values| == |fields|
    ensures |r| == |values|
    decreases fields, 1
  {
    if fields == [] then [] else [CompleteField(fields[0], values[0])] + CompleteAll(fields[1..], values[1..])
  }

  /** What the codecs fill in is that. */
  lemma {:induction false} FillsIn(ty: Type, v: Value)
    ensures CodecOf(ty).fill(v) == Complete(ty, v)
    decreases ty, 0
  {
    hide Resumable, CodecsResumable;
    if ty.Sequence? {
      var st := SequenceType(MembersOf(ty.fields), ty.roms);
      MembersResumable(st);
      assert CodecOf(ty) == Nested(SequenceCodec(st));
      if v.Fields? && |v.fields| == |ty.fields| {
        FillsInAll(ty.fields, v.fields);
        assert FilledValues(st, v.fields) == CompleteAll(ty.fields, v.fields);
      }
    }
  }

  lemma {:induction false} FillsInField(f: Field, value: Option<Value>)
    ensures Filled(MemberOf(f), value) == CompleteField(f, value)
    decreases f, 1
  {
    hide CodecOf, Complete;
    if value.Some? {
      FillsIn(f.ty, value.value);
    }
  }

  lemma {:induction false} FillsInAll(fields: seq<Field>, values: seq<Option<Value>>)
    requires |values| == |fields|
    ensures forall k :: 0 <= k < |values| ==> Filled(MembersOf(fields)[k], values[k]) == CompleteAll(fields, values)[k]
    decreases fields, 1
  {
    hide MemberOf, CompleteField, Filled, Resumable;
    if fields != [] {
      FillsInField(fields[0], values[0]);
      FillsInAll(fields[1..], values[1..]);
    }
  }

  /** Decoding the encoding of a value of any type tree, whatever follows, gives the value with its defaults filled in. */
  lemma RoundTrip(ty: Type, v: Value, rest: seq<byte>)
    requires TreeOk(ty) && CodecOf(ty).enc(v).Some?
    ensures var c := CodecOf(ty);
            var e := c.enc(v).value;
            var r := c.dec(c.blank, e + rest);
            r.code == Ok && r.used == |e| && c.val(r.memory) == Complete(ty, v)
  {
    hide CodecOf, Complete, TreeOk;
    TreeInverts(ty);
    FillsIn(ty, v);
    assert InvertsAt(CodecOf(ty), v, rest);
  }

  /** Feeding a decoder chunk by chunk, unused octets presented again before the next chunk. */
  ghost function FeedCodec<M(!new), V>(c: Codec<M, V>, m: M, pending: seq<byte>, chunks: seq<seq<byte>>): Progress<M>
    requires Resumable(c) && c.inv(m) && chunks != []
    decreases |chunks|
  {
    var input := pending + chunks[0];
    assert ResumesAt(c, m, input, []);
    var r := c.dec(m, input);
    if r.code != WantMore || |chunks| == 1 then r
    else var q := FeedCodec(c, r.memory, input[r.used..], chunks[1..]); q.(used := q.used + r.used)
  }

  lemma {:induction false} FeedIsDecode<M(!new), V>(c: Codec<M, V>, m: M, pending: seq<byte>, chunks: seq<seq<byte>>)
    requires Resumable(c) && c.inv(m) && chunks != []
    ensures Same(FeedCodec(c, m, pending, chunks), c.dec(m, pending + Joined(chunks)), 0)
    decreases |chunks|
  {
    var input, more := pending + chunks[0], Joined(chunks[1..]);
    assert pending + Joined(chunks) == input + more;
    assert ResumesAt(c, m, input, more);
    var r := c.dec(m, input);
    hide Resumable;
    if |chunks| == 1 {
      assert input + more == input;
    } else if r.code == WantMore {
      FeedIsDecode(c, r.memory, input[r.used..], chunks[1..]);
    }
  }

  /**
   * For every type tree, every input and every way to cut it the code is that of one call on everything, and
   * unless it is a failure so are the memory with all its nested contexts and the octets used.
   */
  lemma ChunkIndependence(ty: Type, chunks: seq<seq<byte>>)
    requires chunks != []
    ensures var c := CodecOf(ty); Same(FeedCodec(c, c.blank, [], chunks), c.dec(c.blank, Joined(chunks)), 0)
  {
    hide CodecOf;
    FeedIsDecode(CodecOf(ty), CodecOf(ty).blank, [], chunks);
    assert [] + Joined(chunks) == Joined(chunks);
  }

  /** So an encoding that arrives in any pieces gives the value with its defaults filled in. */
  lemma Arrives(ty: Type, v: Value, rest: seq<byte>, chunks: seq<seq<byte>>)
    requires TreeOk(ty) && CodecOf(ty).enc(v).Some? && chunks != [] && Joined(chunks) == CodecOf(ty).enc(v).value + rest
    ensures var c := CodecOf(ty);
            var r := FeedCodec(c, c.blank, [], chunks);
            r.code == Ok && r.used == |c.enc(v).value| && c.val(r.memory) == Complete(ty, v)
  {
    hide CodecOf, Complete, TreeOk, FeedCodec;
    RoundTrip(ty, v, rest);
    ChunkIndependence(ty, chunks);
  }
}
