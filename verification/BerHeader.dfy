/** T and L of a TLV read together, as the BER decoders do. */
module BerHeader {
  import opened Arith
  import opened BerTag
  import opened BerLength

  /** asn_dec_rval_code_e: RC_OK, RC_WMORE and RC_FAIL. */
  datatype Code = Ok | WantMore | Fail

  /** What T and L say; len is INDEFINITE for the indefinite form. */
  datatype Head = Head(tag: nat, constructed: bool, len: int)

  function Header(b: seq<byte>): (r: Fetch<Head>)
    ensures r.Got? ==> 2 <= r.used <= |b| && INDEFINITE <= r.value.len <= LENGTH_MAX
    ensures r.Got? && r.value.len == INDEFINITE ==> r.value.constructed
  {
    match FetchTag(b)
    case More => More
    case Bad => Bad
    case Got(tl, tag) =>
      match FetchLength(Constructed(b[0]), b[tl..])
      case More => More
      case Bad => Bad
      case Got(ll, len) => Got(tl + ll, Head(tag, Constructed(b[0]), len))
  }

  /** A header that was read, or an error, does not depend on the octets that follow. */
  lemma HeaderStable(b: seq<byte>, c: seq<byte>)
    ensures !Header(b).More? ==> Header(b + c) == Header(b)
  {
    hide FetchTag, FetchLength;
    FetchTagStable(b, c);
    if FetchTag(b).Got? {
      var tl := FetchTag(b).used;
      assert (b + c)[tl..] == b[tl..] + c;
      FetchLengthStable(Constructed(b[0]), b[tl..], c);
    }
  }

  lemma HeaderOfEoc(b: seq<byte>)
    requires |b| >= 2 && b[0] == 0 && b[1] == 0
    ensures Header(b) == Got(2, Head(0, false, 0))
  {
    assert b[1..][0] == 0;
  }

  /** The header of octets that start with accepted T and L octets. */
  lemma HeaderOf(t: seq<byte>, l: seq<byte>, rest: seq<byte>)
    requires FetchTag(t).Got? && FetchTag(t).used == |t|
    requires FetchLength(Constructed(t[0]), l).Got? && FetchLength(Constructed(t[0]), l).used == |l|
    ensures Header(t + (l + rest))
            == Got(|t| + |l|, Head(FetchTag(t).value, Constructed(t[0]), FetchLength(Constructed(t[0]), l).value))
  {
    hide FetchTag, FetchLength;
    var b := t + (l + rest);
    FetchTagStable(t, l + rest);
    assert b[|t|..] == l + rest;
    FetchLengthStable(Constructed(t[0]), l, rest);
  }

  /** A header depends only on the octets reported as used. */
  lemma HeaderLocal(b: seq<byte>, n: nat)
    requires Header(b).Got? && Header(b).used <= n <= |b|
    ensures Header(b[..n]) == Header(b)
  {
    hide FetchTag, FetchLength;
    var tl := FetchTag(b).used;
    FetchTagLocal(b);
    FetchTagStable(b[..tl], b[tl..n]);
    assert b[..tl] + b[tl..n] == b[..n];
    var r := b[tl..];
    var ll := FetchLength(Constructed(b[0]), r).used;
    FetchLengthLocal(Constructed(b[0]), r);
    FetchLengthStable(Constructed(b[0]), r[..ll], r[ll..n - tl]);
    assert r[..ll] + r[ll..n - tl] == b[..n][tl..];
    TagUsed(b);
  }

  lemma TagUsed(b: seq<byte>)
    requires FetchTag(b).Got?
    ensures 0 < FetchTag(b).used <= |b|
  {
  }

  lemma HeaderTag(b: seq<byte>)
    requires Header(b).Got?
    ensures FetchTag(b).Got? && FetchTag(b).value == Header(b).value.tag && b != []
    ensures Header(b).value.constructed == Constructed(b[0])
  {
  }
}
