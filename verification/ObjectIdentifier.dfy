/** OBJECT IDENTIFIER contents as lists of 32-bit arcs: asn1/OBJECT_IDENTIFIER.c. */
module ObjectIdentifier {
  import opened Arith
  import opened Base128
  import opened BerTag

  const ARC_LIMIT: nat := 0x1_0000_0000

  /** One arc from b[i] on; the 32-bit accumulator drops what does not fit. */
  function ArcFrom(b: seq<byte>, i: nat, accum: nat): (r: Fetch<nat>)
    requires i <= |b|
    ensures !r.More? && (r.Got? ==> i < r.used <= |b| && r.value < ARC_LIMIT)
    decreases |b| - i
  {
    if i == |b| then Bad
    else
      var a := (accum * 128 + b[i] % 128) % ARC_LIMIT;
      if b[i] < 128 then Got(i + 1, a) else ArcFrom(b, i + 1, a)
  }

  /** The first arc of b: More when b is empty. */
  function SingleArc(b: seq<byte>): (r: Fetch<nat>)
    ensures r.More? <==> b == []
    ensures r.Got? ==> 0 < r.used <= |b| && r.value < ARC_LIMIT
  {
    if b == [] then More else ArcFrom(b, 0, 0)
  }

  method GetSingleArc(b: seq<byte>) returns (ret: int, value: nat)
    ensures match SingleArc(b)
            case More => ret == 0
            case Bad => ret == -1
            case Got(n, v) => ret == n && value == v
  {
    value := 0;
    if |b| == 0 {
      return 0, 0;
    }
    var accum, i := 0, 0;
    while i < |b|
      invariant 0 <= i <= |b| && 0 <= accum
      invariant SingleArc(b) == ArcFrom(b, i, accum)
    {
      accum := (accum * 128 + b[i] % 128) % ARC_LIMIT;
      if b[i] < 128 {
        return i + 1, accum;
      }
      i := i + 1;
    }
    return -1, 0;
  }

  lemma {:induction false} ArcFromValue(b: seq<byte>, i: nat, accum: nat)
    requires i <= |b| && accum == Value(b[..i]) % ARC_LIMIT && ArcFrom(b, i, accum).Got?
    ensures var r := ArcFrom(b, i, accum);
            r.value == Value(b[..r.used]) % ARC_LIMIT
    decreases |b| - i
  {
    var a := (accum * 128 + b[i] % 128) % ARC_LIMIT;
    assert b[..i + 1] == b[..i] + [b[i]];
    ValueSnoc(b[..i], b[i]);
    ModStep(Value(b[..i]), b[i] % 128);
    if b[i] >= 128 {
      ArcFromValue(b, i + 1, a);
    }
  }

  lemma ModStep(v: nat, d: nat)
    ensures (v % ARC_LIMIT * 128 + d) % ARC_LIMIT == (v * 128 + d) % ARC_LIMIT
  {
    var q, r := v / ARC_LIMIT, v % ARC_LIMIT;
    var x := r * 128 + d;
    assert v * 128 + d == (q * 128) * ARC_LIMIT + x;
    assert v * 128 + d == (q * 128 + x / ARC_LIMIT) * ARC_LIMIT + x % ARC_LIMIT;
    DivModUnique(v * 128 + d, ARC_LIMIT, q * 128 + x / ARC_LIMIT, x % ARC_LIMIT);
  }

  /** An arc is read correctly exactly when its number fits into 32 bits; no error is raised otherwise. */
  lemma ArcCorrectIffFits(b: seq<byte>)
    requires SingleArc(b).Got?
    ensures var r := SingleArc(b);
            r.value == Value(b[..r.used]) <==> Value(b[..r.used]) < ARC_LIMIT
  {
    assert b[..0] == [];
    ArcFromValue(b, 0, 0);
  }

  lemma ArcNext(b: seq<byte>, i: nat, accum: nat)
    requires i < |b|
    ensures var a := (accum * 128 + b[i] % 128) % ARC_LIMIT;
            ArcFrom(b, i, accum) == if b[i] < 128 then Got(i + 1, a) else ArcFrom(b, i + 1, a)
  {
  }

  /** The first arc that is cut off: 2^32 is read as 0. */
  lemma LargeArcCutOff()
    ensures var b: seq<byte> := [0x90, 0x80, 0x80, 0x80, 0x00]; SingleArc(b) == Got(5, 0) && Value(b) == ARC_LIMIT
  {
    hide ArcFrom, Value;
    var b: seq<byte> := [0x90, 0x80, 0x80, 0x80, 0x00];
    ArcNext(b, 0, 0);
    ArcNext(b, 1, 0x10);
    ArcNext(b, 2, 0x800);
    ArcNext(b, 3, 0x4_0000);
    ArcNext(b, 4, 0x200_0000);
    LargeArcValue();
  }

  lemma LargeArcValue()
    ensures Value([0x90, 0x80, 0x80, 0x80, 0x00]) == ARC_LIMIT
  {
    hide Value;
    NoValue();
    ValueSnoc([], 0x90);
    ValueSnoc([0x90], 0x80);
    ValueSnoc([0x90, 0x80], 0x80);
    ValueSnoc([0x90, 0x80, 0x80], 0x80);
    ValueSnoc([0x90, 0x80, 0x80, 0x80], 0x00);
    assert [] + [0x90] == [0x90] && [0x90] + [0x80] == [0x90, 0x80] && [0x90, 0x80] + [0x80] == [0x90, 0x80, 0x80];
    assert [0x90, 0x80, 0x80] + [0x80] == [0x90, 0x80, 0x80, 0x80];
    assert [0x90, 0x80, 0x80, 0x80] + [0x00] == [0x90, 0x80, 0x80, 0x80, 0x00];
  }

  lemma ArcStep(b: seq<byte>, i: nat, u: nat)
    requires u < ARC_LIMIT && i < |b| && b[i] % 128 == u % 128
    ensures ArcFrom(b, i, u / 128) == if b[i] < 128 then Got(i + 1, u) else ArcFrom(b, i + 1, u)
  {
    assert (u / 128 * 128 + b[i] % 128) % ARC_LIMIT == u;
  }

  lemma {:induction false} ArcLeading(b: seq<byte>, i: nat, u: nat)
    requires u < ARC_LIMIT
    requires i + |Leading(u)| <= |b| && b[i..i + |Leading(u)|] == Leading(u)
    ensures ArcFrom(b, i, 0) == ArcFrom(b, i + |Leading(u)|, u)
  {
    hide ArcFrom;
    if u > 0 {
      var m := |Leading(u / 128)|;
      assert b[i..i + m] == b[i..i + m + 1][..m] == Leading(u / 128);
      assert b[i + m] == b[i..i + m + 1][m] == 128 + u % 128;
      ArcLeading(b, i, u / 128);
      ArcStep(b, i + m, u);
    }
  }

  /** Reading inverts writing for every 32-bit arc, whatever follows. */
  lemma ArcRoundTrip(v: nat, rest: seq<byte>)
    requires v < ARC_LIMIT
    ensures SingleArc(Groups(v) + rest) == Got(|Groups(v)|, v)
    ensures (Groups(v) + rest)[|Groups(v)|..] == rest
  {
    hide ArcFrom, Leading;
    var b, u := Groups(v) + rest, v / 128;
    assert b[0..|Leading(u)|] == Leading(u);
    assert b[|Leading(u)|] == v % 128;
    ArcLeading(b, 0, u);
    ArcStep(b, |Leading(u)|, v);
  }

  /** Writes an arc into a scratch pad from its end and hands over what was filled, if it fits. */
  method SetSingleArc(avail: nat, value: nat) returns (ret: int, octets: seq<byte>)
    requires value < ARC_LIMIT
    ensures ret == if |Groups(value)| <= avail then |Groups(value)| else -1
    ensures ret > 0 ==> octets == Groups(value)
    ensures |Groups(value)| <= 5
  {
    FiveGroups(value);
    var v, mask := value, 0;
    octets := [];
    while true
      invariant 0 <= v < ARC_LIMIT && (mask == 0 || mask == 128)
      invariant if mask == 0 then octets == [] && v == value else v > 0 && Groups(value) == Leading(v) + octets
      decreases v
    {
      octets := [mask + v % 128] + octets;
      if v / 128 == 0 {
        break;
      }
      assert mask == 128 ==> Leading(v) == Leading(v / 128) + [128 + v % 128];
      v, mask := v / 128, 128;
    }
    assert octets == Groups(value);
    ret := if |octets| > avail then -1 else |octets|;
  }

  predicate ArcsInRange(arcs: seq<nat>) {
    forall i :: 0 <= i < |arcs| ==> arcs[i] < ARC_LIMIT
  }

  /** Section 8.19.4 of X.690: three roots, 40 arcs under the first two. */
  predicate FirstArcsOk(arcs: seq<nat>) {
    |arcs| >= 2 && (if arcs[0] <= 1 then arcs[1] < 40 else arcs[0] == 2 && arcs[1] < ARC_LIMIT - 80)
  }

  function ArcsOctets(arcs: seq<nat>): seq<byte> {
    if arcs == [] then [] else Groups(arcs[0]) + ArcsOctets(arcs[1..])
  }

  function OidOctets(arcs: seq<nat>): seq<byte>
    requires FirstArcsOk(arcs)
  {
    Groups(arcs[0] * 40 + arcs[1]) + ArcsOctets(arcs[2..])
  }

  /** Succeeds exactly when the first two arcs are admissible; the estimated buffer is always large enough. */
  method SetArcs(arcs: seq<nat>) returns (ret: int, buf: seq<byte>)
    requires ArcsInRange(arcs)
    ensures ret == if FirstArcsOk(arcs) then 0 else -1
    ensures ret == 0 ==> buf == OidOctets(arcs)
  {
    buf := [];
    if |arcs| < 2 {
      return -1, buf;
    }
    var arc0, arc1 := arcs[0], arcs[1];
    if arc0 <= 1 {
      if arc1 >= 40 {
        return -1, buf;
      }
    } else if arc0 == 2 {
      if arc1 > ARC_LIMIT - 1 - 80 {
        return -1, buf;
      }
    } else {
      return -1, buf;
    }
    var size := 5 * |arcs|;
    var wrote, octets := SetSingleArc(size, arc0 * 40 + arc1);
    buf := octets;
    size := size - wrote;
    var i := 2;
    while i < |arcs|
      invariant 2 <= i <= |arcs| && size >= 5 * (|arcs| - i)
      invariant buf + ArcsOctets(arcs[i..]) == OidOctets(arcs)
    {
      assert arcs[i..][1..] == arcs[i + 1..];
      wrote, octets := SetSingleArc(size, arcs[i]);
      assert buf + (Groups(arcs[i]) + ArcsOctets(arcs[i + 1..])) == buf + Groups(arcs[i]) + ArcsOctets(arcs[i + 1..]);
      buf := buf + octets;
      size := size - wrote;
      i := i + 1;
    }
    ret := 0;
  }

  datatype Arcs = NoArcs | SomeArcs(list: seq<nat>)

  /** The arcs of the octets after the first one. */
  function RestArcs(b: seq<byte>): Arcs
    decreases |b|
  {
    match SingleArc(b)
    case More => SomeArcs([])
    case Bad => NoArcs
    case Got(n, v) =>
      var r := RestArcs(b[n..]);
      if r.SomeArcs? then SomeArcs([v] + r.list) else NoArcs
  }

  /** The two arcs that the first number stands for. */
  function FirstTwo(v: nat): seq<nat> {
    if v >= 80 then [2, v - 80] else if v >= 40 then [1, v - 40] else [0, v]
  }

  function AllArcs(b: seq<byte>): Arcs {
    match SingleArc(b)
    case More => NoArcs
    case Bad => NoArcs
    case Got(n, v) =>
      var r := RestArcs(b[n..]);
      if r.SomeArcs? then SomeArcs(FirstTwo(v) + r.list) else NoArcs
  }

  /** All arcs are counted, and as many of them as there are slots are stored. */
  method GetArcs(b: seq<byte>, slots: nat) returns (ret: int, arcs: seq<nat>)
    ensures match AllArcs(b)
            case NoArcs => ret == -1
            case SomeArcs(list) => ret == |list| && arcs == list[..Min(slots, |list|)]
  {
    hide SingleArc;
    arcs := [];
    var rd, value := GetSingleArc(b);
    if rd <= 0 {
      return -1, arcs;
    }
    var two := FirstTwo(value);
    arcs := two[..Min(slots, 2)];
    ghost var all := two;
    var num, rest := 2, b[rd..];
    assert forall r :: r == RestArcs(rest) && r.SomeArcs? ==> all + r.list == two + r.list;
    while true
      invariant num == |all| && arcs == all[..Min(slots, num)]
      invariant AllArcs(b) == var r := RestArcs(rest); if r.SomeArcs? then SomeArcs(all + r.list) else NoArcs
      decreases |rest|
    {
      hide AllArcs, FirstTwo;
      var n, arc := GetSingleArc(rest);
      if n < 0 {
        return -1, arcs;
      } else if n == 0 {
        break;
      }
      ghost var r := RestArcs(rest[n..]);
      if r.SomeArcs? {
        assert all + ([arc] + r.list) == all + [arc] + r.list;
      }
      all := all + [arc];
      if num < slots {
        arcs := arcs + [arc];
      }
      num := num + 1;
      rest := rest[n..];
    }
    assert all + [] == all;
    ret := num;
  }

  lemma {:induction false} RestRoundTrip(arcs: seq<nat>)
    requires ArcsInRange(arcs)
    ensures RestArcs(ArcsOctets(arcs)) == SomeArcs(arcs)
  {
    hide SingleArc, Groups;
    if arcs == [] {
      NoOctets();
    } else {
      ArcRoundTrip(arcs[0], ArcsOctets(arcs[1..]));
      RestRoundTrip(arcs[1..]);
      assert [arcs[0]] + arcs[1..] == arcs;
    }
  }

  lemma NoOctets()
    ensures SingleArc([]).More?
  {
  }

  /** Reading inverts writing for every admissible list of 32-bit arcs. */
  lemma OidRoundTrip(arcs: seq<nat>)
    requires ArcsInRange(arcs) && FirstArcsOk(arcs)
    ensures AllArcs(OidOctets(arcs)) == SomeArcs(arcs)
  {
    hide SingleArc, Groups;
    var v := arcs[0] * 40 + arcs[1];
    ArcRoundTrip(v, ArcsOctets(arcs[2..]));
    RestRoundTrip(arcs[2..]);
    assert FirstTwo(v) == arcs[..2];
    assert arcs[..2] + arcs[2..] == arcs;
  }
}
