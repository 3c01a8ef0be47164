/**
 * The resumable OER decoder of non-extensible SEQUENCE types and its encoder, over arbitrary
 * member codecs: asn1/constr_SEQUENCE_oer.c.
 */
module OerSequence {
  import opened Arith
  import opened Wrappers
  import opened Bits
  import opened BerHeader

  /** The result of a member decoder: code, octets used and the memory it works in. */
  datatype Progress<M> = Progress(code: Code, used: nat, memory: M)

  /**
   * A member codec: the zeroed memory of a member, the memories its decoder may be resumed with, the value a
   * memory holds, the decoder, the encoder, and the value that comes back for one that was encoded.
   */
  datatype Codec<!M, !V> = Codec(blank: M, inv: M -> bool, val: M -> V,
                                 dec: (M, seq<byte>) -> Progress<M>, enc: V -> Option<seq<byte>>, fill: V -> V)

  /** A call on m with a, then one on the rest with b added, is a call on both parts. */
  ghost predicate ResumesAt<M, V>(c: Codec<M, V>, m: M, a: seq<byte>, b: seq<byte>) {
    var r := c.dec(m, a);
    && r.used <= |a| && (r.code == WantMore ==> c.inv(r.memory))
    && match r.code
       case Ok => c.dec(m, a + b) == r
       case Fail => c.dec(m, a + b).code == Fail
       case WantMore => Same(c.dec(m, a + b), c.dec(r.memory, a[r.used..] + b), r.used)
  }

  /** r is what q was after n more octets; after a failure only the code matters. */
  ghost predicate Same<M>(r: Progress<M>, q: Progress<M>, n: nat) {
    r.code == q.code && (r.code != Fail ==> r.memory == q.memory && r.used == n + q.used)
  }

  ghost predicate Resumable<M(!new), V>(c: Codec<M, V>) {
    c.inv(c.blank) && forall m, a, b :: c.inv(m) ==> ResumesAt(c, m, a, b)
  }

  ghost predicate InvertsAt<M, V>(c: Codec<M, V>, v: V, rest: seq<byte>) {
    c.enc(v).Some? ==>
      var r := c.dec(c.blank, c.enc(v).value + rest);
      r.code == Ok && r.used == |c.enc(v).value| && c.val(r.memory) == c.fill(v)
  }

  ghost predicate Inverts<M, V(!new)>(c: Codec<M, V>) {
    forall v, rest :: InvertsAt(c, v, rest)
  }

  datatype Member<!M, !V> = Member(codec: Codec<M, V>, optional: bool, default: Option<V>)

  /** The root members and specs->roms_count. */
  datatype SequenceType<!M, !V> = SequenceType(members: seq<Member<M, V>>, roms: nat)

  /** A member of the structure being decoded: not there, set to its default, or in its decoder's hands. */
  datatype Slot<M, V> = Unset | Defaulted(v: V) | Memory(m: M)

  /** ctx->phase 0, 1 and 10. */
  datatype Phase = AtPreamble | AtRoot | AtEnd

  /** The structure and its context: step is 2 * edx, plus 1 once the presence bit of edx was dealt with. */
  datatype State<M, V> = State(phase: Phase, edx: nat, entered: bool, preamble: seq<bool>, slots: seq<Slot<M, V>>)

  datatype Outcome<M, V> = Outcome(code: Code, used: nat, state: State<M, V>)

  function Using<M, V>(n: nat, r: Outcome<M, V>): Outcome<M, V> {
    r.(used := r.used + n)
  }

  /** How many of the first k members are optional. */
  function Optionals<M, V>(ms: seq<Member<M, V>>, k: nat): nat
    requires k <= |ms|
  {
    if k == 0 then 0 else Optionals(ms, k - 1) + if ms[k - 1].optional then 1 else 0
  }

  function Fresh<M, V>(ty: SequenceType<M, V>): State<M, V> {
    State(AtPreamble, 0, false, [], seq(|ty.members|, _ => Unset))
  }

  ghost predicate Valid<M, V>(ty: SequenceType<M, V>, s: State<M, V>) {
    && |s.slots| == |ty.members|
    && (s.phase.AtRoot? ==>
          && s.edx <= |ty.members| && (s.entered ==> s.edx < |ty.members|)
          && (s.entered ==> s.slots[s.edx].Memory? && ty.members[s.edx].codec.inv(s.slots[s.edx].m)))
  }

  ghost predicate CodecsResumable<M(!new), V>(ty: SequenceType<M, V>) {
    forall k :: 0 <= k < |ty.members| ==> Resumable(ty.members[k].codec)
  }

  /** The outcome of dealing with the presence bit of the current member. */
  datatype Entry<M, V> = Skip(next: State<M, V>) | Enter(into: State<M, V>) | NoBit

  function Presence<M, V>(ty: SequenceType<M, V>, s: State<M, V>): Entry<M, V>
    requires |s.slots| == |ty.members| && s.edx < |ty.members|
  {
    var m := ty.members[s.edx];
    var into := s.(entered := true, slots := s.slots[s.edx := Memory(m.codec.blank)]);
    if s.entered then Enter(s)
    else if !m.optional then Enter(into)
    else if s.preamble == [] then NoBit
    else if s.preamble[0] then Enter(into.(preamble := s.preamble[1..]))
    else
      var slot := if m.default.Some? then Defaulted(m.default.value) else Unset;
      Skip(s.(edx := s.edx + 1, preamble := s.preamble[1..], slots := s.slots[s.edx := slot]))
  }

  /** Phase 1 and 2: the members from edx on. */
  ghost function Root<M(!new), V>(ty: SequenceType<M, V>, s: State<M, V>, b: seq<byte>): (r: Outcome<M, V>)
    requires Valid(ty, s) && s.phase == AtRoot && CodecsResumable(ty)
    ensures r.used <= |b| && (r.code != Fail ==> Valid(ty, r.state))
    decreases |ty.members| - s.edx
  {
    if s.edx == |ty.members| then Outcome(Ok, 0, s.(phase := AtEnd))
    else
      match Presence(ty, s)
      case NoBit => Outcome(Fail, 0, s)
      case Skip(t) => Root(ty, t, b)
      case Enter(t) =>
        assert Resumable(ty.members[s.edx].codec);
        assert ResumesAt(ty.members[s.edx].codec, t.slots[s.edx].m, b, []);
        var r := ty.members[s.edx].codec.dec(t.slots[s.edx].m, b);
        var u := t.(slots := t.slots[s.edx := Memory(r.memory)]);
        match r.code
        case Ok => Using(r.used, Root(ty, u.(edx := s.edx + 1, entered := false), b[r.used..]))
        case WantMore => Outcome(WantMore, r.used, u)
        case Fail => Outcome(Fail, 0, t)
  }

  /** One call of the decoder. */
  ghost function Run<M(!new), V>(ty: SequenceType<M, V>, s: State<M, V>, b: seq<byte>): (r: Outcome<M, V>)
    requires Valid(ty, s) && CodecsResumable(ty)
    ensures r.used <= |b| && (r.code != Fail ==> Valid(ty, r.state))
  {
    match s.phase
    case AtPreamble =>
      var bits := ty.roms;
      var bytes := Reach(bits);
      if bytes > |b| then Outcome(WantMore, 0, s)
      else
        var t := s.(phase := AtRoot, edx := 0, entered := false, preamble := BytesBits(b[..bytes])[..bits]);
        Using(bytes, Root(ty, t, b[bytes..]))
    case AtRoot => Root(ty, s, b)
    case AtEnd => Outcome(Ok, 0, s)
  }

  /** An input on which the decoder waits after taking octets is not continued into a failure. */
  ghost predicate SteadyAt<M, V>(c: Codec<M, V>, a: seq<byte>, b: seq<byte>) {
    var r := c.dec(c.blank, a);
    r.code == WantMore && r.used > 0 ==> c.dec(c.blank, a + b).code != Fail
  }

  /** A decoder that has taken octets and waits cannot fail any more. */
  ghost predicate Steady<M, V>(c: Codec<M, V>) {
    forall a, b :: SteadyAt(c, a, b)
  }

  ghost predicate CodecsSteady<M, V>(ty: SequenceType<M, V>) {
    forall k :: 0 <= k < |ty.members| ==> Steady(ty.members[k].codec)
  }

  /** What a resumed run agrees on: everything, but after a failure the octets used only if exact. */
  ghost predicate Agrees<M, V>(r: Outcome<M, V>, q: Outcome<M, V>, exact: bool) {
    r.code == q.code && (r.code != Fail ==> r == q) && (exact ==> r.used == q.used)
  }

  /** The members after the current one was decoded with outcome r. */
  ghost function AfterMember<M(!new), V>(ty: SequenceType<M, V>, t: State<M, V>, r: Progress<M>, b: seq<byte>): Outcome<M, V>
    requires Valid(ty, t) && t.phase == AtRoot && t.entered && CodecsResumable(ty)
    requires r.used <= |b| && (r.code == WantMore ==> ty.members[t.edx].codec.inv(r.memory))
  {
    var u := t.(slots := t.slots[t.edx := Memory(r.memory)]);
    match r.code
    case Ok => Using(r.used, Root(ty, u.(edx := t.edx + 1, entered := false), b[r.used..]))
    case WantMore => Outcome(WantMore, r.used, u)
    case Fail => Outcome(Fail, 0, t)
  }

  lemma RootUnfold<M(!new), V>(ty: SequenceType<M, V>, s: State<M, V>, t: State<M, V>, b: seq<byte>)
    requires Valid(ty, s) && s.phase == AtRoot && CodecsResumable(ty)
    requires s.edx < |ty.members| && Presence(ty, s) == Enter(t)
    ensures Valid(ty, t) && t.phase == AtRoot && t.entered && t.edx == s.edx
    ensures var r := ty.members[s.edx].codec.dec(t.slots[s.edx].m, b);
            && r.used <= |b| && (r.code == WantMore ==> ty.members[s.edx].codec.inv(r.memory))
            && Root(ty, s, b) == AfterMember(ty, t, r, b)
  {
    assert Resumable(ty.members[s.edx].codec);
    assert ResumesAt(ty.members[s.edx].codec, t.slots[s.edx].m, b, []);
  }

  lemma {:induction false} RootResumes<M(!new), V>(ty: SequenceType<M, V>, s: State<M, V>, a: seq<byte>, b: seq<byte>)
    requires Valid(ty, s) && s.phase == AtRoot && CodecsResumable(ty)
    ensures var r := Root(ty, s, a);
            && (r.code == WantMore ==> r.state.phase == AtRoot)
            && Agrees(Root(ty, s, a + b),
                      if r.code == WantMore then Using(r.used, Root(ty, r.state, a[r.used..] + b)) else r,
                      CodecsSteady(ty) && !s.entered)
    decreases |ty.members| - s.edx
  {
    if s.edx < |ty.members| {
      match Presence(ty, s)
      case NoBit =>
      case Skip(t) => RootResumes(ty, t, a, b);
      case Enter(t) => MemberResumes(ty, s, t, a, b);
    }
  }

  lemma {:induction false} MemberResumes<M(!new), V>(ty: SequenceType<M, V>, s: State<M, V>, t: State<M, V>,
                                                     a: seq<byte>, b: seq<byte>)
    requires Valid(ty, s) && s.phase == AtRoot && CodecsResumable(ty)
    requires s.edx < |ty.members| && Presence(ty, s) == Enter(t)
    ensures var r := Root(ty, s, a);
            && (r.code == WantMore ==> r.state.phase == AtRoot)
            && Agrees(Root(ty, s, a + b),
                      if r.code == WantMore then Using(r.used, Root(ty, r.state, a[r.used..] + b)) else r,
                      CodecsSteady(ty) && !s.entered)
    decreases |ty.members| - s.edx, 0
  {
    hide Root, Presence, CodecsResumable, CodecsSteady, Resumable;
    RootUnfold(ty, s, t, a);
    var c, m := ty.members[s.edx].codec, t.slots[s.edx].m;
    var r := c.dec(m, a);
    RootUnfold(ty, s, t, a + b);
    MemberAgrees(ty, s, t, a, b);
    match r.code
    case Ok =>
      assert (a + b)[r.used..] == a[r.used..] + b;
      var u := t.(slots := t.slots[t.edx := Memory(r.memory)], edx := t.edx + 1, entered := false);
      RootResumes(ty, u, a[r.used..], b);
      var q := Root(ty, u, a[r.used..]);
      assert a[r.used..][q.used..] == a[r.used + q.used..];
    case Fail =>
    case WantMore =>
      MemberWaits(ty, s, t, a, b);
  }

  /** The current member waits after a, and the next call goes on with it. */
  lemma MemberWaits<M(!new), V>(ty: SequenceType<M, V>, s: State<M, V>, t: State<M, V>, a: seq<byte>, b: seq<byte>)
    requires Valid(ty, s) && s.phase == AtRoot && CodecsResumable(ty)
    requires s.edx < |ty.members| && Presence(ty, s) == Enter(t)
    requires ty.members[s.edx].codec.dec(t.slots[s.edx].m, a).code == WantMore
    ensures var r := Root(ty, s, a);
            && r.code == WantMore && r.state.phase == AtRoot
            && Agrees(Root(ty, s, a + b), Using(r.used, Root(ty, r.state, a[r.used..] + b)), CodecsSteady(ty) && !s.entered)
  {
    if !s.entered && CodecsSteady(ty) {
      NoLateFailure(ty, s, t, a, b);
    }
    hide Root, Presence, CodecsResumable, CodecsSteady, Resumable, AfterMember;
    var c := ty.members[s.edx].codec;
    var r := c.dec(t.slots[s.edx].m, a);
    var u := t.(slots := t.slots[t.edx := Memory(r.memory)]);
    WaitingRoot(ty, s, t, a);
    RootUnfold(ty, s, t, a + b);
    MemberAgrees(ty, s, t, a, b);
    EnteredStays(ty, u);
    RootUnfold(ty, u, u, a[r.used..] + b);
    assert (a + b)[r.used..] == a[r.used..] + b;
    AfterWait(ty, t, u, c.dec(t.slots[s.edx].m, a + b), c.dec(r.memory, a[r.used..] + b), a + b, r.used);
  }

  lemma WaitingRoot<M(!new), V>(ty: SequenceType<M, V>, s: State<M, V>, t: State<M, V>, a: seq<byte>)
    requires Valid(ty, s) && s.phase == AtRoot && CodecsResumable(ty)
    requires s.edx < |ty.members| && Presence(ty, s) == Enter(t)
    requires Valid(ty, t) ==> ty.members[s.edx].codec.dec(t.slots[s.edx].m, a).code == WantMore
    ensures Valid(ty, t) && t.phase == AtRoot && t.entered && t.edx == s.edx
    ensures var r := ty.members[s.edx].codec.dec(t.slots[s.edx].m, a);
            var u := t.(slots := t.slots[t.edx := Memory(r.memory)]);
            r.used <= |a| && Valid(ty, u) && Root(ty, s, a) == Outcome(WantMore, r.used, u)
  {
    hide Root, Presence, CodecsResumable, Resumable, AfterMember;
    RootUnfold(ty, s, t, a);
    AfterWaiting(ty, t, ty.members[s.edx].codec.dec(t.slots[s.edx].m, a), a);
  }

  lemma AfterWaiting<M(!new), V>(ty: SequenceType<M, V>, t: State<M, V>, r: Progress<M>, b: seq<byte>)
    requires Valid(ty, t) && t.phase == AtRoot && t.entered && CodecsResumable(ty)
    requires r.code == WantMore && r.used <= |b| && ty.members[t.edx].codec.inv(r.memory)
    ensures var u := t.(slots := t.slots[t.edx := Memory(r.memory)]);
            Valid(ty, u) && AfterMember(ty, t, r, b) == Outcome(WantMore, r.used, u)
  {
  }

  /** Going on after a wait that took n octets, compared with one call that did not wait. */
  lemma AfterWait<M(!new), V>(ty: SequenceType<M, V>, t: State<M, V>, u: State<M, V>, r: Progress<M>, d: Progress<M>,
                              x: seq<byte>, n: nat)
    requires Valid(ty, t) && Valid(ty, u) && t.phase == AtRoot && t.entered && CodecsResumable(ty) && n <= |x|
    requires exists m :: u == t.(slots := t.slots[t.edx := Memory(m)])
    requires Same(r, d, n) && r.used <= |x| && d.used <= |x| - n
    requires r.code == WantMore ==> ty.members[t.edx].codec.inv(r.memory)
    ensures Agrees(AfterMember(ty, t, r, x), Using(n, AfterMember(ty, u, d, x[n..])), n == 0 || r.code != Fail)
  {
    hide Root, CodecsResumable;
    if r.code != Fail {
      assert x[n..][d.used..] == x[r.used..];
      assert t.slots[t.edx := Memory(d.memory)] == u.slots[t.edx := Memory(d.memory)];
    }
  }

  lemma NoLateFailure<M(!new), V>(ty: SequenceType<M, V>, s: State<M, V>, t: State<M, V>, a: seq<byte>, b: seq<byte>)
    requires Valid(ty, s) && s.edx < |ty.members| && Presence(ty, s) == Enter(t) && !s.entered && CodecsSteady(ty)
    ensures var c, m := ty.members[s.edx].codec, t.slots[s.edx].m;
            c.dec(m, a).code == WantMore && c.dec(m, a).used > 0 ==> c.dec(m, a + b).code != Fail
  {
    assert Steady(ty.members[s.edx].codec);
    assert SteadyAt(ty.members[s.edx].codec, a, b);
  }

  lemma EnteredStays<M(!new), V>(ty: SequenceType<M, V>, u: State<M, V>)
    requires Valid(ty, u) && u.phase == AtRoot && u.entered
    ensures Presence(ty, u) == Enter(u)
  {
  }

  lemma MemberAgrees<M(!new), V>(ty: SequenceType<M, V>, s: State<M, V>, t: State<M, V>, a: seq<byte>, b: seq<byte>)
    requires Valid(ty, t) && t.phase == AtRoot && t.entered && CodecsResumable(ty) && s.edx == t.edx
    ensures ResumesAt(ty.members[s.edx].codec, t.slots[s.edx].m, a, b)
  {
    assert Resumable(ty.members[s.edx].codec);
  }

  /** A call that waits, followed by one on the rest, is one call on both parts. */
  lemma Resume<M(!new), V>(ty: SequenceType<M, V>, s: State<M, V>, a: seq<byte>, b: seq<byte>)
    requires Valid(ty, s) && CodecsResumable(ty)
    ensures var r := Run(ty, s, a);
            Agrees(Run(ty, s, a + b), if r.code == WantMore then Using(r.used, Run(ty, r.state, a[r.used..] + b)) else r,
                   CodecsSteady(ty) && (s.phase == AtRoot ==> !s.entered))
  {
    hide Root, CodecsResumable, CodecsSteady;
    match s.phase
    case AtPreamble =>
      var n := Reach(ty.roms);
      if n <= |a| {
        var t := s.(phase := AtRoot, edx := 0, entered := false, preamble := BytesBits(a[..n])[..ty.roms]);
        assert (a + b)[..n] == a[..n] && (a + b)[n..] == a[n..] + b;
        RootResumes(ty, t, a[n..], b);
        var r := Root(ty, t, a[n..]);
        assert a[n..][r.used..] == a[n + r.used..];
      } else {
        assert a[0..] == a;
      }
    case AtRoot => RootResumes(ty, s, a, b);
    case AtEnd =>
  }

  /** Feeding chunks one call at a time, unused octets presented again before the next chunk. */
  ghost function Feed<M(!new), V>(ty: SequenceType<M, V>, s: State<M, V>, pending: seq<byte>, chunks: seq<seq<byte>>): Outcome<M, V>
    requires Valid(ty, s) && CodecsResumable(ty) && chunks != []
    decreases |chunks|
  {
    var input := pending + chunks[0];
    var r := Run(ty, s, input);
    if r.code != WantMore || |chunks| == 1 then r
    else Using(r.used, Feed(ty, r.state, input[r.used..], chunks[1..]))
  }

  /** Going on after octets a on which the decoder waits. */
  lemma {:induction false} FedAfter<M(!new), V>(ty: SequenceType<M, V>, a: seq<byte>, chunks: seq<seq<byte>>)
    requires CodecsResumable(ty) && chunks != [] && Run(ty, Fresh(ty), a).code == WantMore
    ensures var r := Run(ty, Fresh(ty), a);
            Agrees(Using(r.used, Feed(ty, r.state, a[r.used..], chunks)), Run(ty, Fresh(ty), a + Joined(chunks)),
                   CodecsSteady(ty))
    decreases |chunks|
  {
    hide Run, CodecsResumable, CodecsSteady;
    var r, c, more := Run(ty, Fresh(ty), a), chunks[0], Joined(chunks[1..]);
    var q := Run(ty, r.state, a[r.used..] + c);
    Resume(ty, Fresh(ty), a, c);
    Resume(ty, Fresh(ty), a + c, more);
    assert a + Joined(chunks) == (a + c) + more;
    if |chunks| == 1 {
      assert (a + c) + more == a + c;
    } else if q.code == WantMore {
      FedAfter(ty, a + c, chunks[1..]);
      assert (a[r.used..] + c)[q.used..] == (a + c)[r.used + q.used..];
    }
  }

  /**
   * Chunk independence: if every member decoder can be resumed, so can the sequence decoder; for
   * every input and every way to cut it the code is that of one call on everything, and unless
   * it is a failure so are the structure and the octets used. After a failure the octets used
   * are the same as well if no member decoder that has taken octets and waits can still fail.
   */
  lemma ChunkIndependence<M(!new), V>(ty: SequenceType<M, V>, chunks: seq<seq<byte>>)
    requires CodecsResumable(ty) && chunks != []
    ensures Agrees(Feed(ty, Fresh(ty), [], chunks), Run(ty, Fresh(ty), Joined(chunks)), CodecsSteady(ty))
  {
    hide Run, CodecsResumable, CodecsSteady;
    var first, more := chunks[0], Joined(chunks[1..]);
    assert [] + first == first;
    Resume(ty, Fresh(ty), first, more);
    if |chunks| == 1 {
      assert first + more == first;
    } else if Run(ty, Fresh(ty), first).code == WantMore {
      FedAfter(ty, first, chunks[1..]);
    }
  }

  /** A sequence of one mandatory member. */
  function Alone<M, V>(c: Codec<M, V>): SequenceType<M, V> {
    SequenceType([Member(c, false, None)], 0)
  }

  /** Every way to cut an input reports the octets that one call on it reports. */
  ghost predicate UsedAlike<M(!new), V>(ty: SequenceType<M, V>)
    requires CodecsResumable(ty)
  {
    forall chunks :: chunks != [] ==> Feed(ty, Fresh(ty), [], chunks).used == Run(ty, Fresh(ty), Joined(chunks)).used
  }

  /** What the sequence of one member answers, in terms of its member. */
  lemma AloneRun<M(!new), V>(c: Codec<M, V>, b: seq<byte>)
    requires Resumable(c) && CodecsResumable(Alone(c))
    ensures var r, q := Run(Alone(c), Fresh(Alone(c)), b), c.dec(c.blank, b);
            && r.code == q.code && r.used == (if q.code == Fail then 0 else q.used)
            && (q.code == WantMore ==>
                  && r.state == State(AtRoot, 0, true, [], [Memory(q.memory)]))
  {
    var ty := Alone(c);
    var s := State(AtRoot, 0, false, [], Fresh(ty).slots);
    var t := State(AtRoot, 0, true, [], [Memory(c.blank)]);
    assert b[..0] == [] && b[0..] == b && BytesBits([]) == [];
    assert Presence(ty, s) == Enter(t);
    RootUnfold(ty, s, t, b);
  }

  lemma AloneGoesOn<M(!new), V>(c: Codec<M, V>, m: M, b: seq<byte>)
    requires Resumable(c) && CodecsResumable(Alone(c)) && c.inv(m)
    ensures var s := State(AtRoot, 0, true, [], [Memory(m)]);
            && Valid(Alone(c), s)
            && (c.dec(m, b).code == Fail ==> Run(Alone(c), s, b).code == Fail && Run(Alone(c), s, b).used == 0)
  {
    var s := State(AtRoot, 0, true, [], [Memory(m)]);
    RootUnfold(Alone(c), s, s, b);
  }

  /**
   * The condition is exact: the sequence of a mandatory member reports the same octets for every way to cut
   * every input if and only if its decoder cannot fail any more once it has taken octets and waits.
   */
  lemma SteadyIff<M(!new), V>(c: Codec<M, V>)
    requires Resumable(c)
    ensures CodecsResumable(Alone(c))
    ensures Steady(c) <==> UsedAlike(Alone(c))
  {
    var ty := Alone(c);
    hide Run, Resumable;
    if Steady(c) {
      forall chunks: seq<seq<byte>> | chunks != []
        ensures Feed(ty, Fresh(ty), [], chunks).used == Run(ty, Fresh(ty), Joined(chunks)).used
      {
        ChunkIndependence(ty, chunks);
      }
    }
    if UsedAlike(ty) {
      forall a: seq<byte>, b: seq<byte>
        ensures SteadyAt(c, a, b)
      {
        LateFailureShows(c, a, b);
      }
    }
  }

  /** What a late failure of the only member does to the octets reported. */
  lemma LateFailure<M(!new), V>(c: Codec<M, V>, a: seq<byte>, b: seq<byte>)
    requires Resumable(c) && c.dec(c.blank, a).code == WantMore && c.dec(c.blank, a + b).code == Fail
    ensures CodecsResumable(Alone(c))
    ensures var ty := Alone(c);
            var r, q := Run(ty, Fresh(ty), a + b), Feed(ty, Fresh(ty), [], [a, b]);
            r.code == q.code == Fail && r.used == 0 && q.used == c.dec(c.blank, a).used
  {
    var r := c.dec(c.blank, a);
    assert ResumesAt(c, c.blank, a, b);
    AloneRun(c, a);
    AloneRun(c, a + b);
    AloneGoesOn(c, r.memory, a[r.used..] + b);
    hide Run, Resumable;
    assert [a, b][1..] == [b] && [] + a == a;
  }

  lemma LateFailureShows<M(!new), V>(c: Codec<M, V>, a: seq<byte>, b: seq<byte>)
    requires Resumable(c) && CodecsResumable(Alone(c))
    ensures var ty := Alone(c);
            SteadyAt(c, a, b) || Feed(ty, Fresh(ty), [], [a, b]).used != Run(ty, Fresh(ty), Joined([a, b])).used
  {
    hide Run, Resumable, Feed;
    TwoChunks(a, b);
    if !SteadyAt(c, a, b) {
      LateFailure(c, a, b);
    }
  }

  lemma TwoChunks(a: seq<byte>, b: seq<byte>)
    ensures Joined([a, b]) == a + b
  {
    assert [a, b][1..] == [b] && [b][1..] == [];
    assert Joined([b]) == b + [];
  }

  /** The presence bits that are still to be read are those of the members still to be entered. */
  predicate BitsLeft<M, V>(ty: SequenceType<M, V>, s: State<M, V>, bitmap: seq<bool>) {
    && s.edx <= |ty.members| && (s.entered ==> s.edx < |ty.members|)
    && var read := Optionals(ty.members, if s.entered then s.edx + 1 else s.edx);
       read <= |bitmap| && s.preamble == bitmap[read..]
  }

  /** Every presence bit is read exactly once, also when the decoder is left and entered again. */
  lemma {:induction false} BitsReadOnce<M(!new), V>(ty: SequenceType<M, V>, s: State<M, V>, bitmap: seq<bool>, b: seq<byte>)
    requires Valid(ty, s) && s.phase == AtRoot && CodecsResumable(ty)
    requires BitsLeft(ty, s, bitmap)
    ensures BitsLeft(ty, Root(ty, s, b).state, bitmap)
    decreases |ty.members| - s.edx
  {
    hide Presence, CodecsResumable, Root, BitsLeft;
    if s.edx < |ty.members| {
      BitTaken(ty, s, bitmap);
      RootSkips(ty, s, b);
      match Presence(ty, s)
      case NoBit =>
      case Skip(t) => BitsReadOnce(ty, t, bitmap, b);
      case Enter(t) => MemberBits(ty, s, t, bitmap, b);
    } else {
      RootEnds(ty, s, bitmap, b);
    }
  }

  lemma {:induction false} MemberBits<M(!new), V>(ty: SequenceType<M, V>, s: State<M, V>, t: State<M, V>,
                                                  bitmap: seq<bool>, b: seq<byte>)
    requires Valid(ty, s) && s.phase == AtRoot && CodecsResumable(ty)
    requires s.edx < |ty.members| && Presence(ty, s) == Enter(t) && BitsLeft(ty, t, bitmap)
    ensures BitsLeft(ty, Root(ty, s, b).state, bitmap)
    decreases |ty.members| - s.edx, 0
  {
    hide Presence, CodecsResumable, Root, BitsLeft;
    RootUnfold(ty, s, t, b);
    var r := ty.members[s.edx].codec.dec(t.slots[s.edx].m, b);
    BitsKept(ty, t, r.memory, bitmap);
    if r.code == Ok {
      BitsReadOnce(ty, NextMember(ty, t, r), bitmap, b[r.used..]);
    }
  }

  lemma BitsKept<M(!new), V>(ty: SequenceType<M, V>, t: State<M, V>, m: M, bitmap: seq<bool>)
    requires |t.slots| == |ty.members| && t.entered && BitsLeft(ty, t, bitmap)
    ensures var u := t.(slots := t.slots[t.edx := Memory(m)]);
            BitsLeft(ty, u, bitmap) && BitsLeft(ty, u.(edx := t.edx + 1, entered := false), bitmap)
  {
    hide Optionals;
  }

  lemma RootEnds<M(!new), V>(ty: SequenceType<M, V>, s: State<M, V>, bitmap: seq<bool>, b: seq<byte>)
    requires Valid(ty, s) && s.phase == AtRoot && CodecsResumable(ty) && s.edx == |ty.members| && BitsLeft(ty, s, bitmap)
    ensures BitsLeft(ty, Root(ty, s, b).state, bitmap)
  {
  }

  /** The state after the current member was decoded. */
  function NextMember<M, V>(ty: SequenceType<M, V>, t: State<M, V>, r: Progress<M>): State<M, V>
    requires |t.slots| == |ty.members| && t.edx < |ty.members|
  {
    t.(slots := t.slots[t.edx := Memory(r.memory)], edx := t.edx + 1, entered := false)
  }

  lemma RootSkips<M(!new), V>(ty: SequenceType<M, V>, s: State<M, V>, b: seq<byte>)
    requires Valid(ty, s) && s.phase == AtRoot && CodecsResumable(ty) && s.edx < |ty.members|
    ensures Presence(ty, s).NoBit? ==> Root(ty, s, b) == Outcome(Fail, 0, s)
    ensures Presence(ty, s).Skip? ==> var t := Presence(ty, s).next;
                                      Valid(ty, t) && t.phase == AtRoot && Root(ty, s, b) == Root(ty, t, b)
  {
    hide CodecsResumable;
  }

  lemma BitTaken<M(!new), V>(ty: SequenceType<M, V>, s: State<M, V>, bitmap: seq<bool>)
    requires Valid(ty, s) && s.phase == AtRoot && s.edx < |ty.members| && BitsLeft(ty, s, bitmap)
    ensures match Presence(ty, s)
            case NoBit => true
            case Skip(t) => Valid(ty, t) && t.phase == AtRoot && t.edx == s.edx + 1 && BitsLeft(ty, t, bitmap)
            case Enter(t) => BitsLeft(ty, t, bitmap)
  {
    var n := Optionals(ty.members, s.edx);
    assert Optionals(ty.members, s.edx + 1) == n + if ty.members[s.edx].optional then 1 else 0;
    assert n < |bitmap| ==> bitmap[n..][1..] == bitmap[n + 1..];
  }
}
