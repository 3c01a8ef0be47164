/** Skipping the L and V of a TLV whose T was read: ber_skip_length of asn1/ber_tlv_length.c. */
module BerSkip {
  import opened Arith
  import opened BerTag
  import opened BerLength
  import opened BerTlv

  /** r, found after n further octets were used. */
  function After<T>(n: nat, r: Fetch<T>): Fetch<T> {
    match r
    case More => More
    case Bad => Bad
    case Got(m, v) => Got(n + m, v)
  }

  /** Outcome of skipping L and V at the start of b. */
  function Skip(constructed: bool, b: seq<byte>): (r: Fetch<()>)
    ensures r.Got? ==> 1 <= r.used <= |b|
    decreases |b|, 0
  {
    match FetchLength(constructed, b)
    case More => More
    case Bad => Bad
    case Got(ll, vlen) =>
      if vlen < 0 then After(ll, SkipItems(b[ll..]))
      else if ll + vlen > |b| then More
      else Got(ll + vlen, ())
  }

  /** Outcome of skipping a whole TLV. */
  function SkipTlv(b: seq<byte>): (r: Fetch<()>)
    ensures r.Got? ==> 2 <= r.used <= |b|
    decreases |b|, 1
  {
    match FetchTag(b)
    case More => More
    case Bad => Bad
    case Got(tl, _) => After(tl, Skip(Constructed(b[0]), b[tl..]))
  }

  predicate AtEoc(b: seq<byte>) {
    |b| >= 2 && b[0] == 0 && b[1] == 0
  }

  /** Outcome of skipping TLVs up to and including an end-of-contents marker. */
  function SkipItems(b: seq<byte>): (r: Fetch<()>)
    ensures r.Got? ==> 2 <= r.used <= |b|
    decreases |b|, 2
  {
    match SkipTlv(b)
    case More => More
    case Bad => Bad
    case Got(n, _) => if AtEoc(b) then Got(n, ()) else After(n, SkipItems(b[n..]))
  }

  predicate Returns(r: Fetch<()>, ret: int) {
    match r
    case More => ret == 0
    case Bad => ret == -1
    case Got(n, _) => ret == n
  }

  lemma SkipUnfold(constructed: bool, b: seq<byte>)
    ensures match FetchLength(constructed, b)
            case More => Skip(constructed, b) == More
            case Bad => Skip(constructed, b) == Bad
            case Got(ll, vlen) =>
              Skip(constructed, b) == if vlen < 0 then After(ll, SkipItems(b[ll..]))
                                      else if ll + vlen > |b| then More else Got(ll + vlen, ())
  {
  }

  lemma SkipItemsUnfold(b: seq<byte>)
    ensures FetchTag(b).More? ==> SkipItems(b) == More
    ensures FetchTag(b).Bad? ==> SkipItems(b) == Bad
    ensures FetchTag(b).Got? ==>
              var tl := FetchTag(b).used;
              var s := Skip(Constructed(b[0]), b[tl..]);
              SkipItems(b) == if !s.Got? then s
                              else if AtEoc(b) then Got(tl + s.used, ())
                              else After(tl + s.used, SkipItems(b[tl + s.used..]))
  {
    hide FetchTag, Skip, SkipTlv, SkipItems, AtEoc, Constructed;
    SkipTlvUnfold(b);
    SkipItemsStep(b);
  }

  lemma SkipItemsStep(b: seq<byte>)
    ensures SkipTlv(b).More? ==> SkipItems(b) == More
    ensures SkipTlv(b).Bad? ==> SkipItems(b) == Bad
    ensures SkipTlv(b).Got? ==>
              var n := SkipTlv(b).used;
              SkipItems(b) == if AtEoc(b) then Got(n, ()) else After(n, SkipItems(b[n..]))
  {
    hide SkipTlv, AtEoc;
  }

  lemma SkipTlvUnfold(b: seq<byte>)
    ensures FetchTag(b).More? ==> SkipTlv(b) == More
    ensures FetchTag(b).Bad? ==> SkipTlv(b) == Bad
    ensures FetchTag(b).Got? ==> var tl := FetchTag(b).used; SkipTlv(b) == After(tl, Skip(Constructed(b[0]), b[tl..]))
  {
    hide FetchTag, Skip, Constructed;
  }

  /** Terminates on every input and never reports more octets than there are. */
  method BerSkipLength(constructed: bool, b: seq<byte>) returns (ret: int)
    ensures Returns(Skip(constructed, b), ret)
    ensures -1 <= ret <= |b|
    decreases |b|
  {
    hide FetchTag, FetchLength, Skip, SkipTlv, SkipItems, Constructed;
    var ll, vlen := BerFetchLength(constructed, b);
    SkipUnfold(constructed, b);
    if ll <= 0 {
      return ll;
    }
    if vlen >= 0 {
      var skip := ll + vlen;
      return if skip > |b| then 0 else skip;
    }
    var skip, ptr := ll, b[ll..];
    while true
      invariant ll <= skip && skip + |ptr| == |b|
      invariant Skip(constructed, b) == After(skip, SkipItems(ptr))
      decreases |ptr|
    {
      SkipItemsUnfold(ptr);
      var tl, tag := BerFetchTag(ptr);
      if tl <= 0 {
        return tl;
      }
      var vl := BerSkipLength(Constructed(ptr[0]), ptr[tl..]);
      if vl <= 0 {
        return vl;
      }
      skip := skip + tl + vl;
      if ptr[0] == 0 && ptr[1] == 0 {
        return skip;
      }
      ptr := ptr[tl + vl..];
    }
  }

  lemma SliceOfSum(b: seq<byte>, c: seq<byte>, i: nat)
    requires i <= |b|
    ensures (b + c)[i..] == b[i..] + c
  {
  }

  /** The result of a finished skip does not depend on the octets that follow. */
  lemma {:induction false} SkipStable(constructed: bool, b: seq<byte>, c: seq<byte>)
    ensures !Skip(constructed, b).More? ==> Skip(constructed, b + c) == Skip(constructed, b)
    decreases |b|, 0
  {
    hide FetchLength, SkipItems;
    FetchLengthStable(constructed, b, c);
    if FetchLength(constructed, b).Got? && FetchLength(constructed, b).value < 0 {
      var ll := FetchLength(constructed, b).used;
      SliceOfSum(b, c, ll);
      SkipItemsStable(b[ll..], c);
    }
  }

  lemma {:induction false} SkipTlvStable(b: seq<byte>, c: seq<byte>)
    ensures !SkipTlv(b).More? ==> SkipTlv(b + c) == SkipTlv(b)
    decreases |b|, 1
  {
    hide FetchTag, Skip;
    FetchTagStable(b, c);
    if FetchTag(b).Got? {
      SliceOfSum(b, c, FetchTag(b).used);
      SkipStable(Constructed(b[0]), b[FetchTag(b).used..], c);
    }
  }

  lemma {:induction false} SkipItemsStable(b: seq<byte>, c: seq<byte>)
    ensures !SkipItems(b).More? ==> SkipItems(b + c) == SkipItems(b)
    decreases |b|, 2
  {
    hide SkipTlv;
    SkipTlvStable(b, c);
    if SkipTlv(b).Got? {
      var n := SkipTlv(b).used;
      SliceOfSum(b, c, n);
      if !AtEoc(b) {
        SkipItemsStable(b[n..], c);
      }
    }
  }

  /** The V of a TLV as the skipper sees it: definite lengths are not looked into. */
  predicate SkippableBody(constructed: bool, l: seq<byte>, v: Body)
    decreases v, 0
  {
    && LengthFits(constructed, l, v)
    && (v.Indefinite? ==> SkippableAll(v.open))
  }

  predicate Skippable(x: Tlv)
    decreases x, 1
  {
    && FetchTag(x.t).Got? && FetchTag(x.t).used == |x.t|
    && SkippableBody(Constructed(x.t[0]), x.l, x.v)
    && NotEoc(x)
  }

  predicate SkippableAll(xs: seq<Tlv>)
    decreases xs, 0
  {
    xs == [] || (Skippable(xs[0]) && SkippableAll(xs[1..]))
  }

  /** Completeness: a well-formed L and V is skipped exactly, at any depth and before any octets. */
  lemma {:induction false} SkipWellFormed(constructed: bool, l: seq<byte>, v: Body, rest: seq<byte>)
    requires SkippableBody(constructed, l, v)
    ensures Skip(constructed, l + (EncodeBody(v) + rest)) == Got(|l| + |EncodeBody(v)|, ())
    decreases v, 0
  {
    hide FetchLength, SkipItems;
    var b := l + (EncodeBody(v) + rest);
    FetchLengthStable(constructed, l, EncodeBody(v) + rest);
    if v.Indefinite? {
      SkipAllWellFormed(v.open, rest);
      assert b[|l|..] == EncodeAll(v.open) + (EOC + rest);
    }
  }

  lemma {:induction false} SkipTlvWellFormed(x: Tlv, rest: seq<byte>)
    requires Skippable(x)
    ensures SkipTlv(Encode(x) + rest) == Got(|Encode(x)|, ())
    ensures !AtEoc(Encode(x) + rest)
    decreases x, 1
  {
    hide FetchTag, Skip, FetchLength, EncodeBody;
    var r := x.l + (EncodeBody(x.v) + rest);
    EncodeSplit(x, rest);
    FetchTagStable(x.t, r);
    SkipWellFormed(Constructed(x.t[0]), x.l, x.v, rest);
    assert (x.t + r)[|x.t|..] == r;
    ZeroTag(x.t);
  }

  lemma {:induction false} SkipAllWellFormed(xs: seq<Tlv>, rest: seq<byte>)
    requires SkippableAll(xs)
    ensures SkipItems(EncodeAll(xs) + (EOC + rest)) == Got(|EncodeAll(xs)| + 2, ())
    decreases xs, 1
  {
    hide SkipTlv, Encode, Skippable;
    var b := EncodeAll(xs) + (EOC + rest);
    if xs == [] {
      SkipEoc(b);
    } else {
      var tail := EncodeAll(xs[1..]) + (EOC + rest);
      EncodeAllSplit(xs, EOC + rest);
      SkipTlvWellFormed(xs[0], tail);
      SkipAllWellFormed(xs[1..], rest);
      assert b[|Encode(xs[0])|..] == tail;
    }
  }

  lemma ZeroTag(b: seq<byte>)
    ensures b != [] && b[0] == 0 ==> FetchTag(b) == Got(1, 0)
  {
  }

  lemma SkipEoc(b: seq<byte>)
    requires AtEoc(b)
    ensures SkipTlv(b) == Got(2, ())
  {
    assert b[1..][0] == 0;
  }

  /** The V that a successful skip ran over. */
  ghost function SkippedBody(constructed: bool, b: seq<byte>): Body
    requires Skip(constructed, b).Got?
    decreases |b|, 0
  {
    var ll, vlen := FetchLength(constructed, b).used, FetchLength(constructed, b).value;
    if vlen >= 0 then Flat(b[ll..ll + vlen]) else Indefinite(SkippedItems(b[ll..]))
  }

  ghost function SkippedTlv(b: seq<byte>): Tlv
    requires SkipTlv(b).Got?
    decreases |b|, 1
  {
    var tl := FetchTag(b).used;
    var r := b[tl..];
    var body := SkippedBody(Constructed(b[0]), r);
    Tlv(b[..tl], r[..FetchLength(Constructed(b[0]), r).used], body)
  }

  ghost function SkippedItems(b: seq<byte>): seq<Tlv>
    requires SkipItems(b).Got?
    decreases |b|, 2
  {
    if AtEoc(b) then [] else [SkippedTlv(b)] + SkippedItems(b[SkipTlv(b).used..])
  }

  /** Soundness: what was skipped is a well-formed L and V, ending where the result says. */
  lemma {:induction false} SkipSound(constructed: bool, b: seq<byte>)
    requires Skip(constructed, b).Got?
    ensures FetchLength(constructed, b).Got?
    ensures var l, v := b[..FetchLength(constructed, b).used], SkippedBody(constructed, b);
            SkippableBody(constructed, l, v) && b[..Skip(constructed, b).used] == l + EncodeBody(v)
    decreases |b|, 0
  {
    hide FetchLength, SkipItems, SkippedItems;
    var ll, vlen := FetchLength(constructed, b).used, FetchLength(constructed, b).value;
    FetchLengthLocal(constructed, b);
    if vlen >= 0 {
      TakeSum(b, ll, vlen);
    } else {
      SkipItemsSound(b[ll..]);
      TakeSum(b, ll, SkipItems(b[ll..]).used);
    }
  }

  lemma TakeSum(b: seq<byte>, n: nat, m: nat)
    requires n + m <= |b|
    ensures b[..n + m] == b[..n] + b[n..][..m]
    ensures b[n..][..m] == b[n..n + m]
  {
  }

  lemma {:induction false} SkipTlvSound(b: seq<byte>)
    requires SkipTlv(b).Got? && !AtEoc(b)
    ensures Skippable(SkippedTlv(b)) && Encode(SkippedTlv(b)) == b[..SkipTlv(b).used]
    decreases |b|, 1
  {
    hide FetchTag, FetchLength, Skip, SkippedBody, SkippableBody, EncodeBody;
    var tl := FetchTag(b).used;
    var c, r := Constructed(b[0]), b[tl..];
    FetchTagLocal(b);
    SkipSound(c, r);
    TakeSum(b, tl, Skip(c, r).used);
    ZeroTag(b);
    var x := SkippedTlv(b);
    assert Encode(x) == x.t + (x.l + EncodeBody(x.v));
  }

  lemma {:induction false} SkipItemsSound(b: seq<byte>)
    requires SkipItems(b).Got?
    ensures SkippableAll(SkippedItems(b))
    ensures b[..SkipItems(b).used] == EncodeAll(SkippedItems(b)) + EOC
    decreases |b|, 2
  {
    hide SkipTlv, SkippedTlv, Encode, Skippable;
    if AtEoc(b) {
      SkipEoc(b);
    } else {
      var n := SkipTlv(b).used;
      SkipTlvSound(b);
      SkipItemsSound(b[n..]);
      TakeSum(b, n, SkipItems(b[n..]).used);
      assert SkippedItems(b)[1..] == SkippedItems(b[n..]);
    }
  }
}
