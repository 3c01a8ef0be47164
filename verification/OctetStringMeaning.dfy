/** What the decoder makes of well-formed strings of any nesting and any mix of length forms. */
module OctetStringMeaning {
  import opened Arith
  import opened BerTag
  import opened BerLength
  import opened BerHeader
  import opened BerTlv
  import opened OctetString

  /** Constructed and primitive forms are used as V demands, L fits, and all inner tags match. */
  predicate StringBody(ty: StringType, level: nat, t: seq<byte>, l: seq<byte>, v: Body)
    requires t != []
    decreases v, 0
  {
    && LengthFits(Constructed(t[0]), l, v)
    && match v
       case Flat(_) => !Constructed(t[0])
       case Definite(xs) => Constructed(t[0]) && Segments(ty, level, xs)
       case Indefinite(xs) => Constructed(t[0]) && Segments(ty, level, xs)
  }

  predicate Segment(ty: StringType, level: nat, x: Tlv)
    decreases x, 1
  {
    && x.t != [] && FetchTag(x.t).Got? && FetchTag(x.t).used == |x.t|
    && SegmentTag(ty, level, FetchTag(x.t).value)
    && StringBody(ty, level + 1, x.t, x.l, x.v)
  }

  predicate Segments(ty: StringType, level: nat, xs: seq<Tlv>)
    decreases xs, 0
  {
    xs == [] || (Segment(ty, level, xs[0]) && Segments(ty, level, xs[1..]))
  }

  /** A whole string; its outermost tag is free when the caller replaced it. */
  predicate StringTlv(ty: StringType, x: Tlv) {
    && x.t != [] && FetchTag(x.t).Got? && FetchTag(x.t).used == |x.t|
    && (ty.implicit || FetchTag(x.t).value == ty.tag)
    && StringBody(ty, 0, x.t, x.l, x.v)
  }

  /** End-of-contents octets are not the start of a segment. */
  predicate NoEocTag(ty: StringType) {
    ty.allTags != [] && 0 !in ty.allTags
  }

  /** The primitive contents in the order of the encoding. */
  function Leaves(v: Body): seq<seq<byte>>
    decreases v, 0
  {
    match v
    case Flat(c) => [c]
    case Definite(xs) => LeavesOf(xs)
    case Indefinite(xs) => LeavesOf(xs)
  }

  function LeavesOf(xs: seq<Tlv>): seq<seq<byte>>
    decreases xs, 0
  {
    if xs == [] then [] else Leaves(xs[0].v) + LeavesOf(xs[1..])
  }

  /** What the contents of one segment add to the string. */
  function AddLeaf(ty: StringType, s: State, c: seq<byte>): (r: State)
    ensures r.stack == s.stack && r.phase == s.phase
  {
    if c == [] then s
    else if ty.variant.Bit? then Append(s.(unused := c[0]), c[1..])
    else Append(s, c)
  }

  function AddLeaves(ty: StringType, s: State, cs: seq<seq<byte>>): (r: State)
    ensures r.stack == s.stack && r.phase == s.phase
    decreases |cs|
  {
    if cs == [] then s else AddLeaves(ty, AddLeaf(ty, s, cs[0]), cs[1..])
  }

  lemma {:induction false} AddLeavesSum(ty: StringType, s: State, cs: seq<seq<byte>>, ds: seq<seq<byte>>)
    ensures AddLeaves(ty, s, cs + ds) == AddLeaves(ty, AddLeaves(ty, s, cs), ds)
    decreases |cs|
  {
    hide AddLeaf;
    if cs == [] {
      assert cs + ds == ds;
    } else {
      assert (cs + ds)[1..] == cs[1..] + ds;
      AddLeavesSum(ty, AddLeaf(ty, s, cs[0]), cs[1..], ds);
    }
  }

  lemma {:induction false} AddLeavesStack(ty: StringType, s: State, st: seq<Frame>, ph: Phase, cs: seq<seq<byte>>)
    ensures AddLeaves(ty, s.(stack := st, phase := ph), cs) == AddLeaves(ty, s, cs).(stack := st, phase := ph)
    decreases |cs|
  {
    if cs != [] {
      AddLeavesStack(ty, AddLeaf(ty, s, cs[0]), st, ph, cs[1..]);
    }
  }

  /** The frame after n octets of inner TLVs were accounted to it. */
  function Charge(p: Frame, n: nat): Frame {
    p.(left := if p.left == -1 then -1 else p.left - n, got := p.got + n)
  }

  predicate Room(p: Frame, n: nat) {
    p.left == -1 || n <= p.left
  }

  /** The frame that a header of tlvl octets opens under p. */
  function Opened(p: Frame, v: Body, tlvl: nat): Frame {
    if v.Indefinite? then Frame(if p.left == -1 then -1 else p.left - tlvl, tlvl, true, false)
    else Frame(|EncodeBody(v)|, tlvl, false, false)
  }

  function PhaseOf(v: Body): Phase {
    if v.Flat? then AtContent else AtExpect
  }

  /** The frame once its V has been read. */
  function Read(ty: StringType, f: Frame, v: Body): Frame {
    Frame(0, f.got + |EncodeBody(v)|, false, ty.variant.Bit? && v.Flat? && v.content != [])
  }

  /** A frame that is ready for the V of a TLV. */
  predicate ReadyFor(s: State, base: seq<Frame>, f: Frame, v: Body) {
    && s.stack == base + [f] && StackOk(s.stack) && s.phase == PhaseOf(v)
    && !f.chopped && f.wantNulls == v.Indefinite?
    && (if v.Indefinite? then Room(f, |EncodeBody(v)|) else f.left == |EncodeBody(v)|)
  }

  lemma StackOkReplace(base: seq<Frame>, f: Frame, g: Frame)
    requires StackOk(base + [f]) && FrameOk(g)
    requires f.left != -1 ==> g.left != -1 && g.got + g.left <= f.got + f.left
    ensures StackOk(base + [g])
  {
    var n := |base|;
    forall i | 0 <= i < n + 1
      ensures FrameOk((base + [g])[i])
    {
      assert FrameOk((base + [f])[i]);
    }
    forall i | 0 < i < n + 1
      ensures Nested((base + [g])[i - 1], (base + [g])[i])
    {
      assert Nested((base + [f])[i - 1], (base + [f])[i]);
    }
  }

  /** The state that a header opens, entered from a frame with room for the whole TLV. */
  lemma OpenStep(ty: StringType, s: State, base: seq<Frame>, p: Frame, x: Tlv, rest: seq<byte>)
    requires s.phase == AtExpect && s.stack == base + [p] && StackOk(s.stack)
    requires NoEocTag(ty) && Segment(ty, |base|, x) && Room(p, |Encode(x)|)
    ensures var tlvl := |x.t| + |x.l|;
            var b := Encode(x) + rest;
            && b[tlvl..] == EncodeBody(x.v) + rest
            && ExpectStep(ty, s, b) == Next(s.(stack := s.stack + [Opened(p, x.v, tlvl)], phase := PhaseOf(x.v)), tlvl)
  {
    hide FetchTag, FetchLength, StackOk, EncodeBody, Segments, Constructed;
    var b, tlvl := Encode(x) + rest, |x.t| + |x.l|;
    var w := Window(s.stack, b);
    EncodeSplit(x, rest);
    WindowHolds(s.stack, p, Encode(x), rest);
    var d := w[|Encode(x)|..];
    EncodeSplit(x, d);
    HeaderOf(x.t, x.l, EncodeBody(x.v) + d);
    TagNotZero(x.t, FetchTag(x.t).value);
    assert b[tlvl..] == EncodeBody(x.v) + rest;
    assert Top(s) == p;
    assert b[0] == x.t[0];
    assert FrameOk(p) by {
      StackOkTop(base, p);
    }
    assert |x.t| > 0 && |x.l| > 0 by {
      LengthNotEmpty(Constructed(x.t[0]), x.l);
    }
    hide Header;
  }

  lemma StackOkTop(base: seq<Frame>, p: Frame)
    requires StackOk(base + [p])
    ensures FrameOk(p)
  {
    assert (base + [p])[|base|] == p;
  }

  lemma LengthNotEmpty(constructed: bool, l: seq<byte>)
    requires FetchLength(constructed, l).Got?
    ensures l != []
  {
  }

  lemma TagNotZero(t: seq<byte>, tag: nat)
    requires t != [] && FetchTag(t) == Got(|t|, tag) && tag != 0
    ensures t[0] != 0
  {
  }

  lemma WindowHolds(st: seq<Frame>, p: Frame, e: seq<byte>, rest: seq<byte>)
    requires StackOk(st) && st != [] && st[|st| - 1] == p && Room(p, |e|)
    ensures e <= Window(st, e + rest)
    ensures Window(st, e + rest) == e + Window(st, e + rest)[|e|..]
  {
  }

  /** A finished inner frame is charged to the frame around it. */
  lemma PopStep(ty: StringType, s: State, base: seq<Frame>, p: Frame, f: Frame, b: seq<byte>)
    requires s.phase == AtExpect && s.stack == base + [p] + [f] && StackOk(s.stack)
    requires f.left == 0 && !f.wantNulls
    ensures ExpectStep(ty, s, b) == Next(s.(stack := base + [Charge(p, f.got)]), 0)
  {
    hide Header;
    assert Nested(s.stack[|base|], s.stack[|base| + 1]);
    assert s.stack[..|base|] == base;
  }

  lemma RunNext(ty: StringType, s: State, b: seq<byte>)
    requires Valid(s) && DoStep(ty, s, b).Next?
    ensures var d := DoStep(ty, s, b);
            Run(ty, s, b) == Using(d.used, Run(ty, d.state, b[d.used..]))
  {
    hide DoStep;
  }

  /** After the V of a TLV: its leaves were added and its frame is finished. */
  function AfterBody(ty: StringType, s: State, base: seq<Frame>, f: Frame, v: Body): State {
    AddLeaves(ty, s, Leaves(v)).(phase := AtExpect, stack := base + [Read(ty, f, v)])
  }

  /** After a TLV inside the frame p: its leaves were added and its octets charged to p. */
  function AfterTlvs(ty: StringType, s: State, base: seq<Frame>, p: Frame, leaves: seq<seq<byte>>, n: nat): State {
    AddLeaves(ty, s, leaves).(stack := base + [Charge(p, n)])
  }

  lemma AfterBodyValid(ty: StringType, s: State, base: seq<Frame>, f: Frame, v: Body)
    requires ReadyFor(s, base, f, v)
    ensures Valid(AfterBody(ty, s, base, f, v))
  {
    hide EncodeBody, AddLeaves, Leaves;
    StackOkReplace(base, f, Read(ty, f, v));
  }

  lemma AfterTlvsValid(ty: StringType, s: State, base: seq<Frame>, p: Frame, leaves: seq<seq<byte>>, n: nat)
    requires s.phase == AtExpect && s.stack == base + [p] && StackOk(s.stack) && Room(p, n)
    ensures Valid(AfterTlvs(ty, s, base, p, leaves, n))
  {
    hide AddLeaves;
    StackOkTop(base, p);
    StackOkReplace(base, p, Charge(p, n));
  }

  lemma ReadyValid(s: State, base: seq<Frame>, f: Frame, v: Body)
    requires ReadyFor(s, base, f, v)
    ensures Valid(s)
  {
    hide EncodeBody;
    assert Top(s) == f;
  }

  /** Reading the V of a TLV, whose header has just been read. */
  lemma {:induction false} BodyRun(ty: StringType, s: State, base: seq<Frame>, f: Frame, t: seq<byte>, l: seq<byte>, v: Body, rest: seq<byte>)
    requires ReadyFor(s, base, f, v) && t != [] && StringBody(ty, |base|, t, l, v) && NoEocTag(ty)
    ensures Valid(s) && Valid(AfterBody(ty, s, base, f, v))
    ensures Run(ty, s, EncodeBody(v) + rest) == Using(|EncodeBody(v)|, Run(ty, AfterBody(ty, s, base, f, v), rest))
    decreases v, 0
  {
    hide Run, AddLeaves, StackOk, LengthFits;
    ReadyValid(s, base, f, v);
    AfterBodyValid(ty, s, base, f, v);
    match v
    case Flat(c) =>
      ContentAll(ty, s, base, f, c, rest);
    case Definite(xs) =>
      SegmentsRun(ty, s, base, f, xs, rest);
    case Indefinite(xs) =>
      SegmentsRun(ty, s, base, f, xs, EOC + rest);
      assert EncodeBody(v) + rest == EncodeAll(xs) + (EOC + rest);
      var n := |EncodeAll(xs)|;
      var u := AfterTlvs(ty, s, base, f, LeavesOf(xs), n);
      EocRun(ty, u, base, Charge(f, n), rest);
  }

  lemma ContentAll(ty: StringType, s: State, base: seq<Frame>, f: Frame, c: seq<byte>, rest: seq<byte>)
    requires ReadyFor(s, base, f, Flat(c)) && Valid(s)
    requires Valid(AfterBody(ty, s, base, f, Flat(c)))
    ensures Run(ty, s, c + rest) == Using(|c|, Run(ty, AfterBody(ty, s, base, f, Flat(c)), rest))
  {
    hide Run, StackOk, Grow;
    var b := c + rest;
    assert Top(s) == f;
    assert b[..|c|] == c && b[|c|..] == rest;
    assert AddLeaves(ty, s, [c]) == AddLeaf(ty, s, c) by {
      assert [c][1..] == [];
    }
    hide AddLeaves;
    assert ContentStep(ty, s, b) == Next(AfterBody(ty, s, base, f, Flat(c)), |c|);
    RunNext(ty, s, b);
  }

  lemma EocRun(ty: StringType, s: State, base: seq<Frame>, f: Frame, rest: seq<byte>)
    requires s.phase == AtExpect && s.stack == base + [f] && StackOk(s.stack)
    requires f.wantNulls && Room(f, 2)
    ensures var u := s.(stack := base + [f.(left := 0, got := f.got + 2, wantNulls := false)]);
            && Valid(u)
            && Run(ty, s, EOC + rest) == Using(2, Run(ty, u, rest))
  {
    hide Run;
    var b := EOC + rest;
    assert Top(s) == f;
    StackOkTop(base, f);
    HeaderOfEoc(Window(s.stack, b));
    hide Header;
    assert s.stack[|base| := f.(left := 0, got := f.got + 2, wantNulls := false)]
           == base + [f.(left := 0, got := f.got + 2, wantNulls := false)];
    assert b[2..] == rest;
    RunNext(ty, s, b);
  }

  /** Reading TLVs one after the other inside the frame p. */
  lemma {:induction false} SegmentsRun(ty: StringType, s: State, base: seq<Frame>, p: Frame, xs: seq<Tlv>, rest: seq<byte>)
    requires s.phase == AtExpect && s.stack == base + [p] && StackOk(s.stack) && !p.chopped
    requires Segments(ty, |base|, xs) && Room(p, |EncodeAll(xs)|) && NoEocTag(ty)
    ensures Valid(s) && Valid(AfterTlvs(ty, s, base, p, LeavesOf(xs), |EncodeAll(xs)|))
    ensures Run(ty, s, EncodeAll(xs) + rest)
            == Using(|EncodeAll(xs)|, Run(ty, AfterTlvs(ty, s, base, p, LeavesOf(xs), |EncodeAll(xs)|), rest))
    decreases xs, 2
  {
    hide Run, StackOk, Segment, Encode;
    AfterTlvsValid(ty, s, base, p, LeavesOf(xs), |EncodeAll(xs)|);
    if xs == [] {
      assert EncodeAll(xs) + rest == rest;
    } else {
      var x, more := xs[0], xs[1..];
      var n, m := |Encode(x)|, |EncodeAll(more)|;
      EncodeAllSplit(xs, rest);
      SegmentRun(ty, s, base, p, x, EncodeAll(more) + rest);
      var u := AfterTlvs(ty, s, base, p, Leaves(x.v), n);
      SegmentsRun(ty, u, base, Charge(p, n), more, rest);
      AddLeavesSum(ty, s, Leaves(x.v), LeavesOf(more));
      AddLeavesStack(ty, AddLeaves(ty, s, Leaves(x.v)), base + [Charge(p, n)], s.phase, LeavesOf(more));
    }
  }

  /** Reading a TLV inside the frame p. */
  lemma {:induction false} SegmentRun(ty: StringType, s: State, base: seq<Frame>, p: Frame, x: Tlv, rest: seq<byte>)
    requires s.phase == AtExpect && s.stack == base + [p] && StackOk(s.stack) && !p.chopped
    requires Segment(ty, |base|, x) && Room(p, |Encode(x)|) && NoEocTag(ty)
    ensures Valid(s) && Valid(AfterTlvs(ty, s, base, p, Leaves(x.v), |Encode(x)|))
    ensures Run(ty, s, Encode(x) + rest)
            == Using(|Encode(x)|, Run(ty, AfterTlvs(ty, s, base, p, Leaves(x.v), |Encode(x)|), rest))
    decreases x, 1
  {
    hide Run, StackOk, EncodeBody, StringBody, Leaves, ExpectStep;
    AfterTlvsValid(ty, s, base, p, Leaves(x.v), |Encode(x)|);
    var tlvl, f := |x.t| + |x.l|, Opened(p, x.v, |x.t| + |x.l|);
    OpenStep(ty, s, base, p, x, rest);
    RunNext(ty, s, Encode(x) + rest);
    var u := s.(stack := s.stack + [f], phase := PhaseOf(x.v));
    assert ReadyFor(u, s.stack, f, x.v);
    BodyRun(ty, u, s.stack, f, x.t, x.l, x.v, rest);
    var w := AfterBody(ty, u, s.stack, f, x.v);
    AddLeavesStack(ty, s, u.stack, u.phase, Leaves(x.v));
    PopStep(ty, w, base, p, Read(ty, f, x.v), rest);
    RunNext(ty, w, rest);
    assert rest[0..] == rest;
  }

  /** The string that segments denote: their octets in order, less the unused-bits octets of a BIT STRING. */
  function Contents(variant: Variant, cs: seq<seq<byte>>): seq<byte> {
    if cs == [] then []
    else (if variant.Bit? && cs[0] != [] then cs[0][1..] else cs[0]) + Contents(variant, cs[1..])
  }

  /** The unused-bits octet of the last segment that has one, or u. */
  function UnusedBits(cs: seq<seq<byte>>, u: byte): byte {
    if cs == [] then u else UnusedBits(cs[1..], if cs[0] == [] then u else cs[0][0])
  }

  lemma {:induction false} LeavesAddContents(ty: StringType, s: State, cs: seq<seq<byte>>)
    ensures AddLeaves(ty, s, cs).buf == s.buf + Contents(ty.variant, cs)
    ensures AddLeaves(ty, s, cs).unused == if ty.variant.Bit? then UnusedBits(cs, s.unused) else s.unused
    decreases |cs|
  {
    hide Grow;
    if cs != [] {
      var t := AddLeaf(ty, s, cs[0]);
      LeavesAddContents(ty, t, cs[1..]);
      var c := if ty.variant.Bit? && cs[0] != [] then cs[0][1..] else cs[0];
      assert t.buf == s.buf + c;
      assert s.buf + (c + Contents(ty.variant, cs[1..])) == (s.buf + c) + Contents(ty.variant, cs[1..]);
    }
  }

  /** The outcome for a string of given segments. */
  predicate Denotes(ty: StringType, leaves: seq<seq<byte>>, r: Step)
    requires r.Stop?
  {
    var data, u := Contents(ty.variant, leaves), UnusedBits(leaves, 0);
    match ty.variant
    case Str => r.code == Ok && r.state.buf == data
    case Bit =>
      if u > 7 || (data == [] && u != 0) then r.code == Fail
      else
        && r.code == Ok && r.state.unused == u
        && r.state.buf == if data == [] then [] else data[|data| - 1 := Mask(data[|data| - 1], u)]
  }

  lemma FinishDenotes(ty: StringType, s: State, leaves: seq<seq<byte>>)
    requires s.buf == Contents(ty.variant, leaves)
    requires ty.variant.Bit? ==> s.unused == UnusedBits(leaves, 0)
    ensures Denotes(ty, leaves, Finish(ty, s))
  {
    hide Contents, UnusedBits, Mask;
  }

  lemma PrimitiveMeaning(ty: StringType, x: Tlv, rest: seq<byte>)
    requires StringTlv(ty, x) && x.v.Flat?
    ensures var r := Run(ty, Fresh, Encode(x) + rest);
            r.used == |Encode(x)| && Denotes(ty, Leaves(x.v), r)
  {
    hide Header, FetchTag, FetchLength, Grow, Finish, Denotes, Constructed;
    var c, tlvl := x.v.content, |x.t| + |x.l|;
    var b := Encode(x) + rest;
    HeaderPhase(ty, x, rest);
    var s := Fresh.(phase := AtPrimitive, left := |c|);
    assert HeaderStep(ty, Fresh, b) == Next(s, tlvl);
    RunNext(ty, Fresh, b);
    assert b[tlvl..] == c + rest;
    assert (c + rest)[..|c|] == c;
    var t := TakePrimitive(ty, s, c);
    OneLeaf(ty.variant, c);
    FinishDenotes(ty, t, [c]);
    assert Run(ty, s, c + rest) == Using(|c|, Finish(ty, t));
    DenotesUsing(ty, [c], Finish(ty, t), |Encode(x)|);
  }

  lemma OneLeaf(variant: Variant, c: seq<byte>)
    ensures Contents(variant, [c]) == if variant.Bit? && c != [] then c[1..] else c
    ensures UnusedBits([c], 0) == if c == [] then 0 else c[0]
  {
    var cs := [c];
    assert cs[1..] == [];
  }

  lemma DenotesUsing(ty: StringType, leaves: seq<seq<byte>>, r: Step, n: nat)
    requires r.Stop? && Denotes(ty, leaves, r)
    ensures Denotes(ty, leaves, Using(n, r))
  {
    hide Contents, UnusedBits, Mask;
  }

  /** The tag check accepts the header of the string. */
  lemma HeaderPhase(ty: StringType, x: Tlv, rest: seq<byte>)
    requires StringTlv(ty, x)
    ensures var b, tlvl := Encode(x) + rest, |x.t| + |x.l|;
            && FetchTag(b).Got? && (ty.implicit || FetchTag(b).value == ty.tag)
            && b[tlvl..] == EncodeBody(x.v) + rest && tlvl > 0
            && Header(b).Got? && Header(b).used == tlvl
            && Header(b).value.constructed == !x.v.Flat?
            && Header(b).value.len == if x.v.Indefinite? then INDEFINITE else |EncodeBody(x.v)|
  {
    hide FetchTag, FetchLength, EncodeBody, Segments, Constructed;
    EncodeSplit(x, rest);
    HeaderOf(x.t, x.l, EncodeBody(x.v) + rest);
    FetchTagStable(x.t, x.l + (EncodeBody(x.v) + rest));
    hide Header;
    assert (Encode(x) + rest)[|x.t| + |x.l|..] == EncodeBody(x.v) + rest;
  }

  lemma ConstructedMeaning(ty: StringType, x: Tlv, rest: seq<byte>)
    requires StringTlv(ty, x) && !x.v.Flat? && NoEocTag(ty)
    ensures var r := Run(ty, Fresh, Encode(x) + rest);
            r.used == |Encode(x)| && Denotes(ty, Leaves(x.v), r)
  {
    hide Header, FetchTag, FetchLength, Grow, Finish, Denotes, Constructed, EncodeBody, StringBody, Leaves, AddLeaves, Run;
    var tlvl := |x.t| + |x.l|;
    var b := Encode(x) + rest;
    HeaderPhase(ty, x, rest);
    var h := Header(b).value;
    var s := Fresh.(phase := AtExpect, left := h.len);
    assert HeaderStep(ty, Fresh, b) == Next(s, 0);
    RunNext(ty, Fresh, b);
    assert b[0..] == b;
    var f := Frame(h.len, tlvl, x.v.Indefinite?, false);
    var u := s.(stack := [f]);
    assert ExpectStep(ty, s, b) == Next(u, tlvl);
    RunNext(ty, s, b);
    assert ReadyFor(u, [], f, x.v) by {
      assert [] + [f] == [f];
    }
    BodyRun(ty, u, [], f, x.t, x.l, x.v, rest);
    var w := AfterBody(ty, u, [], f, x.v);
    LastPop(ty, w, Read(ty, f, x.v), rest);
    LeavesAddContents(ty, u, Leaves(x.v));
    FinishDenotes(ty, w.(stack := []), Leaves(x.v));
    DenotesUsing(ty, Leaves(x.v), Finish(ty, w.(stack := [])), |Encode(x)|);
  }

  lemma LastPop(ty: StringType, s: State, f: Frame, b: seq<byte>)
    requires s.phase == AtExpect && s.stack == [f] && f.left == 0 && !f.wantNulls
    ensures Valid(s) && Run(ty, s, b) == Finish(ty, s.(stack := []))
  {
    hide Header, Finish;
  }

  /**
   * Meaning: a well-formed string of any nesting and any mix of length forms is consumed
   * exactly, whatever follows it, and denotes the concatenation of its segments.
   */
  lemma Meaning(ty: StringType, x: Tlv, rest: seq<byte>)
    requires StringTlv(ty, x) && NoEocTag(ty)
    ensures var r := Run(ty, Fresh, Encode(x) + rest);
            r.used == |Encode(x)| && Denotes(ty, Leaves(x.v), r)
  {
    if x.v.Flat? {
      PrimitiveMeaning(ty, x, rest);
    } else {
      ConstructedMeaning(ty, x, rest);
    }
  }
}
