/**
 * Strings whose segments all carry the tag of the string type itself, as sections 8.6.4.2 and 8.7.3.2 of X.690 want
 * it for implicitly tagged types as well, and when the decoder accepts them.
 */
module OctetStringTags {
  import opened Arith
  import opened BerTag
  import opened BerLength
  import opened BerHeader
  import opened BerTlv
  import opened OctetString
  import opened OctetStringMeaning
  import opened OctetStringAccepts

  // Octets are the encoding of one string only.

  /** T and L octets can be told from what follows. */
  lemma HeadUnique(t: seq<byte>, l: seq<byte>, c: seq<byte>, t': seq<byte>, l': seq<byte>, c': seq<byte>)
    requires t != [] && FetchTag(t).Got? && FetchTag(t).used == |t|
    requires t' != [] && FetchTag(t').Got? && FetchTag(t').used == |t'|
    requires FetchLength(Constructed(t[0]), l).Got? && FetchLength(Constructed(t[0]), l).used == |l|
    requires FetchLength(Constructed(t'[0]), l').Got? && FetchLength(Constructed(t'[0]), l').used == |l'|
    requires t + (l + c) == t' + (l' + c')
    ensures t == t' && l == l' && c == c'
  {
    hide FetchTag, FetchLength, Constructed;
    FetchTagStable(t, l + c);
    FetchTagStable(t', l' + c');
    PrefixUnique(t, l + c, t', l' + c');
    FetchLengthStable(Constructed(t[0]), l, c);
    FetchLengthStable(Constructed(t[0]), l', c');
    PrefixUnique(l, c, l', c');
  }

  lemma PrefixUnique(a: seq<byte>, b: seq<byte>, a': seq<byte>, b': seq<byte>)
    requires a + b == a' + b' && |a| == |a'|
    ensures a == a' && b == b'
  {
    assert a == (a + b)[..|a|] && a' == (a' + b')[..|a|];
    assert b == (a + b)[|a|..] && b' == (a' + b')[|a|..];
  }

  lemma {:induction false} BodyUnique(p: StringType, i: nat, q: StringType, j: nat, t: seq<byte>, l: seq<byte>,
                                      v: Body, w: Body, a: seq<byte>, b: seq<byte>)
    requires NoEocTag(p) && NoEocTag(q) && t != [] && StringBody(p, i, t, l, v) && StringBody(q, j, t, l, w)
    requires EncodeBody(v) + a == EncodeBody(w) + b
    ensures v == w
    decreases v, 0
  {
    hide FetchLength, Constructed, Segments;
    if v.Indefinite? {
      assert EncodeBody(v) + a == EncodeAll(v.open) + (EOC + a);
      assert EncodeBody(w) + b == EncodeAll(w.open) + (EOC + b);
      ListUnique(p, i, q, j, v.open, w.open, EOC + a, EOC + b);
    } else {
      PrefixUnique(EncodeBody(v), a, EncodeBody(w), b);
      if v.Definite? {
        ListUnique(p, i, q, j, v.items, w.items, a, b);
      }
    }
  }

  lemma {:induction false} SegmentUnique(p: StringType, i: nat, q: StringType, j: nat, x: Tlv, y: Tlv, a: seq<byte>, b: seq<byte>)
    requires NoEocTag(p) && NoEocTag(q) && Segment(p, i, x) && Segment(q, j, y) && Encode(x) + a == Encode(y) + b
    ensures x == y && a == b
    decreases x, 1
  {
    hide FetchTag, FetchLength, Constructed, EncodeBody, Segments;
    EncodeSplit(x, a);
    EncodeSplit(y, b);
    HeadUnique(x.t, x.l, EncodeBody(x.v) + a, y.t, y.l, EncodeBody(y.v) + b);
    BodyUnique(p, i + 1, q, j + 1, x.t, x.l, x.v, y.v, a, b);
    PrefixUnique(EncodeBody(x.v), a, EncodeBody(y.v), b);
  }

  /** A segment does not start like the end-of-contents octets. */
  lemma SegmentStarts(p: StringType, i: nat, x: Tlv)
    requires NoEocTag(p) && Segment(p, i, x)
    ensures Encode(x) != [] && Encode(x)[0] != 0
  {
    TagNotZero(x.t, FetchTag(x.t).value);
    hide FetchTag, StringBody;
    assert Encode(x)[0] == x.t[0];
  }

  lemma ListStarts(p: StringType, i: nat, xs: seq<Tlv>, a: seq<byte>)
    requires NoEocTag(p) && Segments(p, i, xs)
    ensures xs != [] ==> EncodeAll(xs) != [] && !(EOC <= EncodeAll(xs) + a)
  {
    hide Encode, Segment;
    if xs != [] {
      SegmentStarts(p, i, xs[0]);
      assert (EncodeAll(xs) + a)[0] == Encode(xs[0])[0];
    }
  }

  lemma {:induction false} ListUnique(p: StringType, i: nat, q: StringType, j: nat, xs: seq<Tlv>, ys: seq<Tlv>,
                                      a: seq<byte>, b: seq<byte>)
    requires NoEocTag(p) && NoEocTag(q) && Segments(p, i, xs) && Segments(q, j, ys)
    requires EncodeAll(xs) + a == EncodeAll(ys) + b
    requires |EncodeAll(xs)| == |EncodeAll(ys)| || (EOC <= a && EOC <= b)
    ensures xs == ys
    decreases xs, 2
  {
    hide Encode, Segment;
    SameEmptiness(p, i, q, j, xs, ys, a, b);
    if xs != [] {
      EncodeAllSplit(xs, a);
      EncodeAllSplit(ys, b);
      SegmentUnique(p, i, q, j, xs[0], ys[0], EncodeAll(xs[1..]) + a, EncodeAll(ys[1..]) + b);
      ListUnique(p, i, q, j, xs[1..], ys[1..], a, b);
      assert xs == [xs[0]] + xs[1..] && ys == [ys[0]] + ys[1..];
    }
  }

  lemma SameEmptiness(p: StringType, i: nat, q: StringType, j: nat, xs: seq<Tlv>, ys: seq<Tlv>, a: seq<byte>, b: seq<byte>)
    requires NoEocTag(p) && NoEocTag(q) && Segments(p, i, xs) && Segments(q, j, ys)
    requires EncodeAll(xs) + a == EncodeAll(ys) + b
    requires |EncodeAll(xs)| == |EncodeAll(ys)| || (EOC <= a && EOC <= b)
    ensures xs == [] <==> ys == []
  {
    ListStarts(p, i, xs, a);
    ListStarts(q, j, ys, b);
    hide Segments;
    assert xs == [] ==> EncodeAll(xs) + a == a;
    assert ys == [] ==> EncodeAll(ys) + b == b;
  }

  /** No octets start with the encodings of two different strings, even of different types. */
  lemma StringUnique(p: StringType, q: StringType, x: Tlv, y: Tlv, a: seq<byte>, b: seq<byte>)
    requires NoEocTag(p) && NoEocTag(q) && StringTlv(p, x) && StringTlv(q, y) && Encode(x) + a == Encode(y) + b
    ensures x == y
  {
    hide FetchTag, FetchLength, Constructed, EncodeBody, Segments;
    EncodeSplit(x, a);
    EncodeSplit(y, b);
    HeadUnique(x.t, x.l, EncodeBody(x.v) + a, y.t, y.l, EncodeBody(y.v) + b);
    BodyUnique(p, 0, q, 0, x.t, x.l, x.v, y.v, a, b);
  }

  // Strings with one tag for all segments.

  /** The type whose segments carry the given tag at every depth. */
  function Standard(ty: StringType, tag: nat): StringType {
    ty.(allTags := [tag])
  }

  /** How deep segments are nested. */
  function Depth(v: Body): nat
    decreases v, 0
  {
    match v
    case Flat(_) => 0
    case Definite(xs) => DepthOf(xs)
    case Indefinite(xs) => DepthOf(xs)
  }

  function DepthOf(xs: seq<Tlv>): nat
    decreases xs, 0
  {
    if xs == [] then 0
    else
      var first, more := 1 + Depth(xs[0].v), DepthOf(xs[1..]);
      if first > more then first else more
  }

  /** The entries of all_tags for the depths from level on are the given tag. */
  predicate TagsFit(ty: StringType, level: nat, tag: nat, depth: nat) {
    forall k :: level <= k < level + depth ==> SegmentTag(ty, k, tag)
  }

  lemma {:induction false} BodyTags(ty: StringType, tag: nat, level: nat, t: seq<byte>, l: seq<byte>, v: Body)
    requires t != [] && StringBody(Standard(ty, tag), level, t, l, v)
    ensures StringBody(ty, level, t, l, v) <==> TagsFit(ty, level, tag, Depth(v))
    decreases v, 0
  {
    hide LengthFits, Constructed, SegmentTag, TagsFit;
    match v
    case Flat(_) => NoTags(ty, level, tag);
    case Definite(xs) => ListTags(ty, tag, level, xs);
    case Indefinite(xs) => ListTags(ty, tag, level, xs);
  }

  lemma NoTags(ty: StringType, level: nat, tag: nat)
    ensures TagsFit(ty, level, tag, 0)
  {
  }

  lemma {:induction false} ListTags(ty: StringType, tag: nat, level: nat, xs: seq<Tlv>)
    requires Segments(Standard(ty, tag), level, xs)
    ensures Segments(ty, level, xs) <==> TagsFit(ty, level, tag, DepthOf(xs))
    decreases xs, 0
  {
    hide TagsFit, Segment;
    if xs == [] {
      NoTags(ty, level, tag);
    } else {
      SegmentTags(ty, tag, level, xs[0]);
      ListTags(ty, tag, level, xs[1..]);
      DeeperFits(ty, level, tag, 1 + Depth(xs[0].v), DepthOf(xs[1..]));
    }
  }

  lemma {:induction false} SegmentTags(ty: StringType, tag: nat, level: nat, x: Tlv)
    requires Segment(Standard(ty, tag), level, x)
    ensures Segment(ty, level, x) <==> TagsFit(ty, level, tag, 1 + Depth(x.v))
    decreases x, 1
  {
    hide FetchTag, StringBody, TagsFit;
    BodyTags(ty, tag, level + 1, x.t, x.l, x.v);
    OneMoreFits(ty, level, tag, Depth(x.v));
  }

  lemma OneMoreFits(ty: StringType, level: nat, tag: nat, n: nat)
    ensures TagsFit(ty, level, tag, 1 + n) <==> SegmentTag(ty, level, tag) && TagsFit(ty, level + 1, tag, n)
  {
    hide SegmentTag;
  }

  lemma DeeperFits(ty: StringType, level: nat, tag: nat, n: nat, m: nat)
    ensures TagsFit(ty, level, tag, n) && TagsFit(ty, level, tag, m) <==> TagsFit(ty, level, tag, if n > m then n else m)
  {
    hide SegmentTag;
  }

  /** The unused-bits octets of a BIT STRING make sense. */
  predicate UnusedFit(variant: Variant, leaves: seq<seq<byte>>) {
    variant.Bit? ==> var u := UnusedBits(leaves, 0); u <= 7 && (Contents(variant, leaves) == [] ==> u == 0)
  }

  /**
   * A string whose segments carry one and the same tag at every depth is accepted if and only if its unused-bits
   * octets make sense and the entries of all_tags, as far as the string is deep, are that tag.
   */
  lemma AcceptsStandardIff(ty: StringType, tag: nat, x: Tlv, rest: seq<byte>)
    requires NoEocTag(ty) && tag != 0 && StringTlv(Standard(ty, tag), x)
    ensures Run(ty, Fresh, Encode(x) + rest).code == Ok
            <==> UnusedFit(ty.variant, Leaves(x.v)) && TagsFit(ty, 0, tag, Depth(x.v))
  {
    hide Run, FetchTag, StringBody, Encode, Contents, UnusedBits, TagsFit, Mask;
    var b := Encode(x) + rest;
    BodyTags(ty, tag, 0, x.t, x.l, x.v);
    if Run(ty, Fresh, b).code == Ok {
      var y := AcceptsOnly(ty, b);
      assert b == Encode(y) + b[|Encode(y)|..];
      StringUnique(Standard(ty, tag), ty, x, y, rest, b[|Encode(y)|..]);
    }
    if StringTlv(ty, x) {
      Meaning(ty, x, rest);
    }
  }

  /** [0] IMPLICIT OCTET STRING with its replaced tag in all_tags. */
  const IMPLICIT_OCTETS := StringType(Str, 2, [2, 16], false)

  /** The octets a0 03 04 01 61: one segment, which carries the tag UNIVERSAL 4. */
  const STANDARD_STRING := Tlv([0xa0], [0x03], Definite([Tlv([0x04], [0x01], Flat([0x61]))]))

  lemma StandardOctets()
    ensures Encode(STANDARD_STRING) == [0xa0, 0x03, 0x04, 0x01, 0x61]
    ensures StringTlv(Standard(IMPLICIT_OCTETS, 16), STANDARD_STRING)
  {
    var x := STANDARD_STRING.v.items[0];
    assert Encode(x) == [0x04, 0x01, 0x61];
    assert STANDARD_STRING.v.items == [x] && [x][1..] == [];
    assert EncodeAll([x]) == Encode(x) + EncodeAll([]);
    assert Segment(Standard(IMPLICIT_OCTETS, 16), 0, x);
  }

  /** The header of the string is taken; that of the segment has another tag than all_tags wants first. */
  lemma StandardSteps(b: seq<byte>)
    requires [0xa0, 0x03, 0x04, 0x01, 0x61] <= b
    ensures var s, t := Fresh.(left := 3, phase := AtExpect), State(AtExpect, 3, 0, [Frame(3, 2, false, false)], [], 0);
            && DoStep(IMPLICIT_OCTETS, Fresh, b) == Next(s, 0) && DoStep(IMPLICIT_OCTETS, s, b) == Next(t, 2)
            && DoStep(IMPLICIT_OCTETS, t, b[2..]) == Stop(Fail, t, 0)
  {
    hide Header;
    StandardHeaders(b);
    assert FetchTag(b) == Got(1, 2);
    hide FetchTag;
    OtherTag(b[2..]);
  }

  lemma OtherTag(c: seq<byte>)
    requires |c| >= 3 && Header(c[..3]) == Got(2, Head(16, false, 1))
    ensures var t := State(AtExpect, 3, 0, [Frame(3, 2, false, false)], [], 0);
            DoStep(IMPLICIT_OCTETS, t, c) == Stop(Fail, t, 0)
  {
    hide Header;
    var f := Frame(3, 2, false, false);
    assert Window([f], c) == c[..3];
    assert !SegmentTag(IMPLICIT_OCTETS, 0, 16);
  }

  lemma StandardHeaders(b: seq<byte>)
    requires [0xa0, 0x03, 0x04, 0x01, 0x61] <= b
    ensures Header(b) == Got(2, Head(2, true, 3)) && Header(b[2..][..3]) == Got(2, Head(16, false, 1))
  {
    var w: seq<byte> := [0x04, 0x01, 0x61];
    assert b[2..][..3] == w;
    assert b[1..][0] == 0x03 && w[1..][0] == 0x01;
  }

  /** Such a string is refused, whatever follows it. */
  lemma StandardRefused(rest: seq<byte>)
    ensures StringTlv(Standard(IMPLICIT_OCTETS, 16), STANDARD_STRING)
    ensures Run(IMPLICIT_OCTETS, Fresh, Encode(STANDARD_STRING) + rest).code == Fail
  {
    hide DoStep, Encode, StringTlv;
    StandardOctets();
    var b := Encode(STANDARD_STRING) + rest;
    StandardSteps(b);
    var s, t := Fresh.(left := 3, phase := AtExpect), State(AtExpect, 3, 0, [Frame(3, 2, false, false)], [], 0);
    assert b[0..] == b;
    assert Run(IMPLICIT_OCTETS, t, b[2..]).code == Fail;
    assert Run(IMPLICIT_OCTETS, s, b).code == Fail;
  }
}
