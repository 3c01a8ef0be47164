/** The T of a BER TLV: asn1/ber_tlv_tag.c. */
module BerTag {
  import opened Arith
  import opened Base128

  /** Outcome of fetching an item from a buffer: 0, -1 or the number of octets used. */
  datatype Fetch<+T> = More | Bad | Got(used: nat, value: T)

  const TAG_LIMIT: nat := 0x1_0000_0000

  /** Continuation octets of the high-tag-number form; val is what was gathered before b[i]. */
  function FetchLong(b: seq<byte>, i: nat, val: nat, cls: nat): (r: Fetch<nat>)
    requires i <= |b| && val < 0x80_0000 && cls < 4
    ensures r.Got? ==> i < r.used <= |b| && r.value < TAG_LIMIT
    decreases |b| - i
  {
    if i == |b| then More
    else if b[i] >= 128 then
      var v := val * 128 + b[i] % 128;
      if v >= 0x80_0000 then Bad else FetchLong(b, i + 1, v, cls)
    else Got(i + 1, (val * 128 + b[i]) * 4 + cls)
  }

  function FetchTag(b: seq<byte>): (r: Fetch<nat>)
    ensures r.Got? ==> 1 <= r.used <= |b| && r.value < TAG_LIMIT
  {
    if b == [] then More
    else if b[0] % 32 != 31 then Got(1, b[0] % 32 * 4 + b[0] / 64)
    else FetchLong(b, 1, 0, b[0] / 64)
  }

  predicate Constructed(first: byte) {
    first / 32 % 2 == 1
  }

  method BerFetchTag(b: seq<byte>) returns (ret: int, tag: nat)
    ensures match FetchTag(b)
            case More => ret == 0
            case Bad => ret == -1
            case Got(used, t) => ret == used && tag == t
  {
    tag := 0;
    if |b| == 0 {
      return 0, tag;
    }
    var val: nat, cls := b[0], b[0] / 64;
    val := val % 32;
    if val != 31 {
      return 1, val * 4 + cls;
    }
    val := 0;
    var skipped := 2;
    while skipped <= |b|
      invariant 2 <= skipped <= |b| + 1
      invariant val < 0x80_0000
      invariant FetchTag(b) == FetchLong(b, skipped - 1, val, cls)
    {
      var oct := b[skipped - 1];
      if oct >= 128 {
        val := val * 128 + oct % 128;
        if val >= 0x80_0000 {
          return -1, tag;
        }
      } else {
        val := val * 128 + oct;
        return skipped, val * 4 + cls;
      }
      skipped := skipped + 1;
    }
    ret := 0;
  }

  lemma {:induction false} FetchLongStable(b: seq<byte>, c: seq<byte>, i: nat, val: nat, cls: nat)
    requires i <= |b| && val < 0x80_0000 && cls < 4
    ensures !FetchLong(b, i, val, cls).More? ==> FetchLong(b + c, i, val, cls) == FetchLong(b, i, val, cls)
    decreases |b| - i
  {
    if i < |b| {
      assert (b + c)[i] == b[i];
      var v := val * 128 + b[i] % 128;
      if b[i] >= 128 && v < 0x80_0000 {
        FetchLongStable(b, c, i + 1, v, cls);
      }
    }
  }

  /** A tag that was found, or an error, does not depend on the octets that follow. */
  lemma FetchTagStable(b: seq<byte>, c: seq<byte>)
    ensures !FetchTag(b).More? ==> FetchTag(b + c) == FetchTag(b)
  {
    if b != [] {
      FetchLongStable(b, c, 1, 0, b[0] / 64);
    }
  }

  lemma {:induction false} FetchLongLocal(b: seq<byte>, i: nat, val: nat, cls: nat)
    requires i <= |b| && val < 0x80_0000 && cls < 4
    requires FetchLong(b, i, val, cls).Got?
    ensures var r := FetchLong(b, i, val, cls);
            FetchLong(b[..r.used], i, val, cls) == r
    decreases |b| - i
  {
    if b[i] >= 128 {
      FetchLongLocal(b, i + 1, val * 128 + b[i] % 128, cls);
    }
  }

  /** A fetched tag depends only on the octets reported as used. */
  lemma FetchTagLocal(b: seq<byte>)
    requires FetchTag(b).Got?
    ensures FetchTag(b[..FetchTag(b).used]) == FetchTag(b)
  {
    if b[0] % 32 == 31 {
      FetchLongLocal(b, 1, 0, b[0] / 64);
    }
  }

  /** What the serializer writes: class in the two top bits, the number in one or more octets. */
  function TagOctets(tag: nat): (s: seq<byte>)
    requires tag < TAG_LIMIT
  {
    if tag / 4 <= 30 then [tag % 4 * 64 + tag / 4] else [tag % 4 * 64 + 31] + Groups(tag / 4)
  }

  lemma {:induction false} FetchLeading(b: seq<byte>, i: nat, u: nat, cls: nat)
    requires u < 0x80_0000 && cls < 4
    requires i + |Leading(u)| <= |b| && b[i..i + |Leading(u)|] == Leading(u)
    ensures FetchLong(b, i, 0, cls) == FetchLong(b, i + |Leading(u)|, u, cls)
  {
    if u > 0 {
      hide FetchLong, Leading;
      LeadingParts(b, i, u);
      FetchLeading(b, i, u / 128, cls);
      FetchLongStep(b, i + |Leading(u / 128)|, u / 128, u, cls);
    } else {
      assert i + |Leading(u)| == i;
    }
  }

  lemma FetchLongStep(b: seq<byte>, i: nat, val: nat, v: nat, cls: nat)
    requires i < |b| && b[i] >= 128 && val * 128 + b[i] % 128 == v && val < 0x80_0000 && v < 0x80_0000 && cls < 4
    ensures FetchLong(b, i, val, cls) == FetchLong(b, i + 1, v, cls)
  {
  }

  lemma LeadingParts(b: seq<byte>, i: nat, u: nat)
    requires u > 0 && i + |Leading(u)| <= |b| && b[i..i + |Leading(u)|] == Leading(u)
    ensures var m := |Leading(u / 128)|;
            m + 1 == |Leading(u)| && b[i..i + m] == Leading(u / 128) && b[i + m] == 128 + u % 128
  {
    hide Leading;
    var s, x: byte := Leading(u / 128), 128 + u % 128;
    LeadingNext(u);
    assert |Leading(u)| == |s| + 1;
    PartAt(b, i, s, x);
  }

  lemma LeadingNext(u: nat)
    requires u > 0
    ensures Leading(u) == Leading(u / 128) + [128 + u % 128]
  {
  }

  lemma PartAt(b: seq<byte>, i: nat, s: seq<byte>, x: byte)
    requires i + |s| + 1 <= |b| && b[i..i + |s| + 1] == s + [x]
    ensures b[i..i + |s|] == s && b[i + |s|] == x
  {
    var w := b[i..i + |s| + 1];
    assert b[i..i + |s|] == w[..|s|];
    assert b[i + |s|] == w[|s|];
  }

  /** Fetching inverts serializing for every 32-bit tag, whatever follows. */
  lemma TagRoundTrip(tag: nat, rest: seq<byte>)
    requires tag < TAG_LIMIT
    ensures FetchTag(TagOctets(tag) + rest) == Got(|TagOctets(tag)|, tag)
  {
    hide Groups, FetchLong;
    var v, cls := tag / 4, tag % 4;
    var b := TagOctets(tag) + rest;
    if v > 30 {
      LongRoundTrip(v, cls, [cls * 64 + 31], rest);
      assert b == [cls * 64 + 31] + Groups(v) + rest;
    }
  }

  lemma LongRoundTrip(v: nat, cls: nat, first: seq<byte>, rest: seq<byte>)
    requires v < 0x4000_0000 && cls < 4
    ensures FetchLong(first + Groups(v) + rest, |first|, 0, cls) == Got(|first| + |Groups(v)|, v * 4 + cls)
  {
    var b, u := first + Groups(v) + rest, v / 128;
    var n := |first| + |Leading(u)|;
    assert b[|first|..n] == Leading(u);
    assert b[n] == v % 128;
    FetchLeading(b, |first|, u, cls);
  }

  /** The size loop of the serializer; the source's shift count is 7 * i. */
  method CountGroups(tval: nat) returns (required: nat)
    requires tval < 0x4000_0000
    ensures required == |Groups(tval)|
  {
    required := 1;
    var i := 1;
    while i < 5
      invariant required == i <= 5
      invariant i <= |Groups(tval)|
    {
      LeadingLength(tval / 128, i - 1);
      if Shift7(tval, i) > 0 {
        required := required + 1;
      } else {
        return;
      }
      i := i + 1;
    }
    FiveGroups(tval);
  }

  /**
   * Serializes into a buffer of the given size and always reports the size needed; a buffer
   * that is too short receives at most the leading octet.
   */
  method TagSerialize(tag: nat, buf: array<byte>) returns (required: nat)
    requires tag < TAG_LIMIT
    modifies buf
    ensures required == |TagOctets(tag)|
    ensures required <= buf.Length ==> buf[..required] == TagOctets(tag)
    ensures forall k :: 0 <= k < buf.Length && (if required <= buf.Length then required else 1) <= k
                        ==> buf[k] == old(buf[k])
  {
    hide Groups;
    var cls, tval := tag % 4, tag / 4;
    if tval <= 30 {
      if buf.Length > 0 {
        buf[0] := cls * 64 + tval;
      }
      return 1;
    } else if buf.Length > 0 {
      buf[0] := cls * 64 + 31;
    }
    var req := CountGroups(tval);
    if buf.Length < 1 + req {
      return req + 1;
    }
    PutGroups(tval, req, buf);
    assert buf[..1 + req] == [buf[0]] + buf[1..1 + req];
    required := req + 1;
  }

  /** The loop of the serializer after the first octet. */
  method PutGroups(tval: nat, req: nat, buf: array<byte>)
    requires tval < 0x4000_0000 && req == |Groups(tval)| && buf.Length > req
    modifies buf
    ensures buf[1..1 + req] == Groups(tval)
    ensures forall k :: 0 <= k < buf.Length && (k == 0 || req < k) ==> buf[k] == old(buf[k])
  {
    hide Groups, Shift7;
    GroupsEnd(tval);
    var p := 0;
    while p < req - 1
      invariant 0 <= p <= req - 1
      invariant buf[1..1 + p] == Groups(tval)[..p]
      invariant forall k :: 0 <= k < buf.Length && (k == 0 || req < k) ==> buf[k] == old(buf[k])
    {
      GroupsAt(tval, req - 1 - p);
      buf[1 + p] := 128 + Shift7(tval, req - 1 - p) % 128;
      p := p + 1;
    }
    buf[1 + p] := tval % 128;
  }

  lemma GroupsEnd(v: nat)
    ensures Groups(v) != [] && Groups(v)[|Groups(v)| - 1] == v % 128
  {
  }
}
