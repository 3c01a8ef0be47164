/** The decoder accepts nothing but well-formed strings: the converse of OctetStringMeaning. */
module OctetStringAccepts {
  import opened Arith
  import opened BerTag
  import opened BerLength
  import opened BerHeader
  import opened BerTlv
  import opened OctetString
  import opened OctetStringMeaning

  /** T and L octets that make up a header. */
  predicate HeaderOctets(t: seq<byte>, l: seq<byte>, h: Head) {
    && t != [] && FetchTag(t) == Got(|t|, h.tag)
    && h.constructed == Constructed(t[0])
    && FetchLength(h.constructed, l) == Got(|l|, h.len)
  }

  /** A header that was read is made of its T and L octets. */
  lemma HeaderSplit(b: seq<byte>) returns (t: seq<byte>, l: seq<byte>)
    requires Header(b).Got?
    ensures HeaderOctets(t, l, Header(b).value) && |t| + |l| == Header(b).used && b[..Header(b).used] == t + l
  {
    hide FetchTag, FetchLength;
    var tl := FetchTag(b).used;
    var c := Constructed(b[0]);
    FetchTagLocal(b);
    FetchLengthLocal(c, b[tl..]);
    var ll := FetchLength(c, b[tl..]).used;
    t, l := b[..tl], b[tl..][..ll];
    TagUsed(b);
    assert t[0] == b[0];
  }

  /** The header in the window of the current frame, in terms of the input itself. */
  lemma WindowHeader(st: seq<Frame>, b: seq<byte>) returns (t: seq<byte>, l: seq<byte>)
    requires StackOk(st) && Header(Window(st, b)).Got?
    ensures var h := Header(Window(st, b));
            HeaderOctets(t, l, h.value) && |t| + |l| == h.used <= |b| && b == t + l + b[h.used..]
  {
    hide Header, HeaderOctets, StackOk;
    var w := Window(st, b);
    t, l := HeaderSplit(w);
    var n := Header(w).used;
    assert b[..n] == w[..n];
  }

  /** What follows the header of a frame that is to be filled. */
  predicate Fills(p: Frame, xs: seq<Tlv>, b: seq<byte>, rest: seq<byte>) {
    if p.wantNulls then b == EncodeAll(xs) + (EOC + rest) && Room(p, |EncodeAll(xs)| + 2)
    else b == EncodeAll(xs) + rest && |EncodeAll(xs)| == p.left
  }

  lemma StopsOrGoesOn(ty: StringType, s: State, b: seq<byte>)
    requires Valid(s) && Run(ty, s, b).code == Ok
    ensures var d := DoStep(ty, s, b);
            if d.Stop? then d.code == Ok else Run(ty, d.state, b[d.used..]).code == Ok
  {
    hide DoStep;
  }

  /** One TLV inside the frame p, entered through its header. */
  lemma {:induction false} SegmentOnly(ty: StringType, s: State, base: seq<Frame>, p: Frame, b: seq<byte>)
    returns (x: Tlv, rest: seq<byte>)
    requires s.phase == AtExpect && s.stack == base + [p] && StackOk(s.stack) && NoEocTag(ty)
    requires Run(ty, s, b).code == Ok && !(p.left <= 0 && !p.wantNulls) && !(p.wantNulls && EOC <= b)
    ensures Segment(ty, |base|, x) && Room(p, |Encode(x)|) && b == Encode(x) + rest && |rest| < |b|
    decreases |b|, 0
  {
    hide Run, Header, HeaderOctets, StackOk, Segment, Encode, EncodeBody;
    assert Top(s) == p;
    StopsOrGoesOn(ty, s, b);
    var w := Header(Window(s.stack, b));
    var t, l := WindowHeader(s.stack, b);
    var tlvl, h := w.used, w.value;
    EocFirst(b);
    assert ExpectStep(ty, s, b) == Open(s, h, tlvl);
    var after := b[tlvl..];
    var u := Open(s, h, tlvl).state;
    var f := Top(u);
    assert u.stack == s.stack + [f];
    var v;
    v, rest := BodyOnly(ty, u, s.stack, f, h, after);
    x := Tlv(t, l, v);
    SegmentMade(ty, |base|, x, h, rest);
    assert b == t + l + (EncodeBody(v) + rest);
  }

  lemma EocFirst(b: seq<byte>)
    ensures EOC <= b <==> |b| >= 2 && b[0] == 0 && b[1] == 0
  {
  }

  lemma SegmentMade(ty: StringType, level: nat, x: Tlv, h: Head, rest: seq<byte>)
    requires HeaderOctets(x.t, x.l, h) && SegmentTag(ty, level, h.tag) && BodyFits(ty, level + 1, h, x.v)
    ensures Segment(ty, level, x) && x.t + x.l + (EncodeBody(x.v) + rest) == Encode(x) + rest
    ensures |Encode(x)| == |x.t| + |x.l| + |EncodeBody(x.v)| && |x.t| > 0
  {
    hide FetchTag, FetchLength, Constructed;
  }

  /** V is of the form that the header announces. */
  predicate BodyFits(ty: StringType, level: nat, h: Head, v: Body) {
    && h.len == (if v.Indefinite? then INDEFINITE else |EncodeBody(v)|)
    && match v
       case Flat(_) => !h.constructed
       case Definite(xs) => h.constructed && Segments(ty, level, xs)
       case Indefinite(xs) => h.constructed && Segments(ty, level, xs)
  }

  /** The V of a TLV, right after its header has opened the frame f. */
  lemma {:induction false} BodyOnly(ty: StringType, u: State, base: seq<Frame>, f: Frame, h: Head, b: seq<byte>)
    returns (v: Body, rest: seq<byte>)
    requires u.phase == (if h.constructed then AtExpect else AtContent) && u.stack == base + [f] && Valid(u)
    requires !f.chopped && f.wantNulls == (h.len == INDEFINITE) && (h.len != INDEFINITE ==> f.left == h.len)
    requires (h.len == INDEFINITE ==> h.constructed) && NoEocTag(ty) && Run(ty, u, b).code == Ok
    ensures BodyFits(ty, |base|, h, v) && b == EncodeBody(v) + rest && Room(f, |EncodeBody(v)|)
    decreases |b|, 2
  {
    hide Run, StackOk;
    assert Top(u) == f;
    if h.constructed {
      var xs;
      xs, rest := FrameOnly(ty, u, base, f, b);
      v := if f.wantNulls then Indefinite(xs) else Definite(xs);
      assert EncodeAll(xs) + EOC + rest == EncodeAll(xs) + (EOC + rest);
    } else {
      StopsOrGoesOn(ty, u, b);
      assert ContentStep(ty, u, b).Next?;
      ContentThere(ty, u, f, b);
      v, rest := Flat(b[..f.left]), b[f.left..];
    }
  }

  lemma ContentThere(ty: StringType, u: State, f: Frame, b: seq<byte>)
    requires u.phase == AtContent && Valid(u) && Top(u) == f && ContentStep(ty, u, b).Next?
    ensures f.left <= |b|
  {
  }

  /** The TLVs up to the end of the frame p. */
  lemma {:induction false} FrameOnly(ty: StringType, s: State, base: seq<Frame>, p: Frame, b: seq<byte>)
    returns (xs: seq<Tlv>, rest: seq<byte>)
    requires s.phase == AtExpect && s.stack == base + [p] && StackOk(s.stack) && !p.chopped && NoEocTag(ty)
    requires Run(ty, s, b).code == Ok
    ensures Segments(ty, |base|, xs) && Fills(p, xs, b, rest)
    decreases |b|, 1
  {
    hide Run, StackOk, Segment, Encode;
    StackOkTop(base, p);
    if p.left <= 0 && !p.wantNulls {
      xs, rest := [], b;
      assert EncodeAll(xs) + rest == b;
    } else if p.wantNulls && EOC <= b {
      xs, rest := [], b[2..];
      EocFits(ty, s, base, p, b);
      assert EncodeAll(xs) + (EOC + rest) == b;
    } else {
      var x, more := SegmentOnly(ty, s, base, p, b);
      var n := |Encode(x)|;
      SegmentRun(ty, s, base, p, x, more);
      var u := AfterTlvs(ty, s, base, p, Leaves(x.v), n);
      NextFrame(u, base, p, n);
      var ys;
      ys, rest := FrameOnly(ty, u, base, Charge(p, n), more);
      xs := [x] + ys;
      assert xs[1..] == ys;
      EncodeAllSplit(xs, if p.wantNulls then EOC + rest else rest);
    }
  }

  lemma NextFrame(u: State, base: seq<Frame>, p: Frame, n: nat)
    requires u.phase == AtExpect && u.stack == base + [Charge(p, n)] && Valid(u)
    ensures StackOk(u.stack)
  {
  }

  lemma EocFits(ty: StringType, s: State, base: seq<Frame>, p: Frame, b: seq<byte>)
    requires s.phase == AtExpect && s.stack == base + [p] && StackOk(s.stack) && p.wantNulls && EOC <= b
    requires Run(ty, s, b).code == Ok
    ensures Room(p, 2) && b[..2] == EOC
  {
    hide Run, Header;
    StopsOrGoesOn(ty, s, b);
    assert Top(s) == p;
    assert Header(Window(s.stack, b)).Got?;
  }

  lemma WholeMade(ty: StringType, x: Tlv, h: Head, rest: seq<byte>)
    requires HeaderOctets(x.t, x.l, h) && (ty.implicit || h.tag == ty.tag) && BodyFits(ty, 0, h, x.v)
    ensures StringTlv(ty, x) && x.t + x.l + (EncodeBody(x.v) + rest) == Encode(x) + rest
  {
    hide FetchTag, FetchLength, Constructed;
  }

  /** The primitive form. */
  lemma FlatOnly(ty: StringType, s: State, b: seq<byte>) returns (v: Body, rest: seq<byte>)
    requires s.phase == AtPrimitive && Valid(s) && Run(ty, s, b).code == Ok
    ensures v.Flat? && |EncodeBody(v)| == s.left && b == EncodeBody(v) + rest
  {
    hide Run, Finish, Grow;
    StopsOrGoesOn(ty, s, b);
    assert PrimitiveStep(ty, s, b).Stop?;
    v, rest := Flat(b[..s.left]), b[s.left..];
  }

  /** The constructed form, whose outermost header is read a second time. */
  lemma NestedOnly(ty: StringType, s: State, h: Head, tlvl: nat, b: seq<byte>) returns (v: Body, rest: seq<byte>)
    requires s.phase == AtExpect && s.stack == [] && NoEocTag(ty) && h.constructed
    requires Header(b) == Got(tlvl, h) && Run(ty, s, b).code == Ok
    ensures BodyFits(ty, 0, h, v) && b[tlvl..] == EncodeBody(v) + rest
  {
    hide Run, Header, BodyFits, EncodeBody;
    StopsOrGoesOn(ty, s, b);
    assert ExpectStep(ty, s, b) == Open(s, h, tlvl);
    var u := Open(s, h, tlvl).state;
    assert u.stack == [] + [Top(u)];
    v, rest := BodyOnly(ty, u, [], Top(u), h, b[tlvl..]);
  }

  /**
   * Whatever the decoder accepts starts with a well-formed string, of which it has used
   * exactly the octets and returned the meaning.
   */
  lemma AcceptsOnly(ty: StringType, b: seq<byte>) returns (x: Tlv)
    requires NoEocTag(ty) && Run(ty, Fresh, b).code == Ok
    ensures StringTlv(ty, x) && Encode(x) <= b
    ensures var r := Run(ty, Fresh, b); r.used == |Encode(x)| && Denotes(ty, Leaves(x.v), r)
  {
    hide Run, FetchTag, HeaderOctets, Encode, EncodeBody, Header, Denotes, Leaves, StringTlv;
    StopsOrGoesOn(ty, Fresh, b);
    var d := HeaderStep(ty, Fresh, b);
    assert d.Next? && Header(b).Got?;
    var tlvl, h := Header(b).used, Header(b).value;
    var t, l := HeaderSplit(b);
    assert b == b[..tlvl] + b[tlvl..];
    assert b[0..] == b;
    HeaderTag(b);
    var v, rest;
    if h.constructed {
      v, rest := NestedOnly(ty, d.state, h, tlvl, b);
    } else {
      v, rest := FlatOnly(ty, d.state, b[tlvl..]);
    }
    x := Tlv(t, l, v);
    WholeMade(ty, x, h, rest);
    assert b == Encode(x) + rest;
    Meaning(ty, x, rest);
  }
}
