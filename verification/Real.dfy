/** Binary REAL contents of normal doubles: asn_double2REAL and the binary branch of asn_REAL2double, asn1/REAL.c. */
module Real {
  import opened Arith
  import opened Bits
  import Integer

  const TWO48: nat := 0x1_0000_0000_0000
  const TWO52: nat := 0x10_0000_0000_0000

  /** A normal non-zero IEEE 754 double, by its fields. */
  datatype Double = Double(negative: bool, exponent: nat, fraction: nat) {
    predicate Normal() {
      0 < exponent < 2047 && fraction < TWO52
    }

    /** The double is Significand() * 2^Power(), with its sign. */
    function Significand(): nat {
      TWO52 + fraction
    }

    function Power(): int {
      exponent - 1075
    }
  }

  /** What the contents octets say, before it is turned into a double. */
  datatype Fields = Invalid | OutOfRange | Number(negative: bool, mantissa: nat, exponent: int)

  /** The exponent has elen + 1 octets from position p on; the rest is the mantissa. */
  function FieldsAt(buf: seq<byte>, p: nat, elen: nat): Fields
    requires 0 < p && p + elen < |buf|
  {
    var base := match (buf[0] / 16) % 4 case 0 => 1 case 1 => 3 case _ => 4;
    Number((buf[0] / 64) % 2 == 1,
           Base256.Value(buf[p + elen + 1..]),
           Integer.Signed(buf[p..p + elen + 1]) * base + (buf[0] / 4) % 4)
  }

  function BinaryFields(buf: seq<byte>): Fields
    requires buf != [] && buf[0] >= 0x80
  {
    var elen: int := buf[0] % 4;
    if (buf[0] / 16) % 4 == 3 || |buf| <= 1 + elen then Invalid
    else if elen < 3 then FieldsAt(buf, 1, elen)
    else
      var n: int := buf[1];
      if n == 0 || |buf| <= 2 + n then Invalid
      else if n >= 3 then OutOfRange
      else FieldsAt(buf, 2, n)
  }

  /** How many low bits of a number a significand of 53 bits has no room for. */
  function Excess(n: nat): nat {
    if n < 2 * TWO52 then 0 else 1 + Excess(n / 2)
  }

  predicate Representable(n: nat) {
    Low(n, Excess(n)) == 0
  }

  /** Rounding to 53 bits, to the nearest and in the middle to the even one. */
  function Nearest(n: nat): nat {
    var t := Excess(n);
    var q, r, unit := Shr(n, t), Low(n, t), Shl(1, t);
    Shl(if 2 * r > unit || (2 * r == unit && q % 2 == 1) then q + 1 else q, t)
  }

  /** 2^1024, the first number that is too large for a double. */
  const DOUBLE_LIMIT: nat := Shl(TWO52, 972)

  datatype Gathered = Finite(n: nat) | Overflow

  function Kept(n: nat): Gathered {
    if Nearest(n) < DOUBLE_LIMIT then Finite(Nearest(n)) else Overflow
  }

  /** The mantissa as a double accumulates it, octet by octet. */
  function Gather(v: nat): Gathered {
    if v == 0 then Finite(0)
    else match Gather(v / 256)
         case Overflow => Overflow
         case Finite(n) => Kept(n * 256 + v % 256)
  }

  lemma {:induction false} ExcessRange(n: nat)
    requires n >= TWO52
    ensures TWO52 <= Shr(n, Excess(n)) < 2 * TWO52
  {
    if n >= 2 * TWO52 {
      ExcessRange(n / 2);
    }
  }

  lemma {:induction false} ExcessShl(q: nat, t: nat)
    requires TWO52 <= q < 2 * TWO52
    ensures Excess(Shl(q, t)) == t
  {
    if t > 0 {
      ExcessShl(q, t - 1);
      ShlGrows(q, t - 1);
    }
  }

  lemma ShlRepresentable(q: nat, t: nat)
    requires TWO52 <= q <= 2 * TWO52
    ensures Representable(Shl(q, t))
  {
    if q < 2 * TWO52 {
      ExcessShl(q, t);
      ShlLow(q, t);
    } else {
      ShlOnce(TWO52, t);
      ExcessShl(TWO52, t + 1);
      ShlLow(TWO52, t + 1);
    }
  }

  lemma NearestExact(n: nat)
    requires Representable(n)
    ensures Nearest(n) == n
  {
    hide Shl, Shr, Low, Excess;
    var t := Excess(n);
    ShlShr(n, t);
    ShlGrows(1, t);
  }

  lemma NearestRepresentable(n: nat)
    ensures Representable(Nearest(n))
  {
    hide Shl, Shr, Low;
    if n < 2 * TWO52 {
      SmallRepresentable(n);
      NearestExact(n);
    } else {
      ExcessRange(n);
      ShlRepresentable(Shr(n, Excess(n)), Excess(n));
      ShlRepresentable(Shr(n, Excess(n)) + 1, Excess(n));
    }
  }

  lemma SmallRepresentable(n: nat)
    requires n < 2 * TWO52
    ensures Representable(n)
  {
  }

  /** The error is at most half a unit of the last place. */
  lemma NearestError(n: nat)
    ensures var u := Shl(1, Excess(n)); 2 * Nearest(n) <= 2 * n + u && 2 * n <= 2 * Nearest(n) + u
  {
    hide Shl, Shr, Low, Excess;
    var t := Excess(n);
    HighLow(n, t);
    ShlSum(Shr(n, t), 1, t);
    LowBound(n, t);
  }

  lemma {:induction false} LowBound(n: nat, t: nat)
    ensures Low(n, t) < Shl(1, t)
    decreases t
  {
    if t > 0 {
      LowBound(n / 2, t - 1);
    }
  }

  lemma HalfRepresentable(n: nat)
    requires Representable(n)
    ensures Representable(n / 2)
  {
  }

  lemma OctetRepresentable(n: nat)
    requires Representable(n)
    ensures Representable(n / 256)
  {
    hide Representable;
    var a := n / 2 / 2;
    HalfRepresentable(n);
    HalfRepresentable(n / 2);
    HalfRepresentable(a);
    HalfRepresentable(a / 2);
    var b := a / 2 / 2;
    HalfRepresentable(b);
    HalfRepresentable(b / 2);
    HalfRepresentable(b / 2 / 2);
    HalfRepresentable(b / 2 / 2 / 2);
    assert b / 2 / 2 / 2 / 2 == n / 256;
  }

  lemma {:induction false} GatherExact(v: nat)
    requires Representable(v)
    ensures Gather(v) == if v < DOUBLE_LIMIT then Finite(v) else Overflow
  {
    hide Representable, Nearest;
    if v == 0 {
      ShlGrows(TWO52, 972);
    } else {
      OctetRepresentable(v);
      GatherExact(v / 256);
      NearestExact(v);
    }
  }

  /** The accumulated mantissa is the one encoded if and only if a finite double can hold that. */
  lemma GatherExactIff(v: nat)
    ensures Gather(v) == Finite(v) <==> Representable(v) && v < DOUBLE_LIMIT
  {
    if Representable(v) {
      GatherExact(v);
    } else if v > 0 && Gather(v / 256).Finite? {
      NearestRepresentable(Gather(v / 256).n * 256 + v % 256);
    }
  }

  lemma {:induction false} GatherRepresentable(v: nat)
    requires Gather(v).Finite?
    ensures Representable(Gather(v).n)
  {
    if v > 0 {
      NearestRepresentable(Gather(v / 256).n * 256 + v % 256);
    }
  }

  /** n * 2^e as a significand of 53 bits and its power; exact for representable n. */
  function Scale(n: nat, e: int): (r: (nat, int))
    requires n > 0
    ensures TWO52 <= r.0 < 2 * TWO52
    decreases if n < 2 * TWO52 then 2 * TWO52 - n else n
  {
    if n < TWO52 then Scale(2 * n, e - 1)
    else if n >= 2 * TWO52 then Scale(n / 2, e + 1)
    else (n, e)
  }

  /** n * 2^e and s * 2^p are the same number. */
  predicate SameValue(n: nat, e: int, s: nat, p: int) {
    if p <= e then Shl(n, e - p) == s else n == Shl(s, p - e)
  }

  /** What ldexp makes of a finite double; a result below the normal range is not given in detail. */
  datatype Scaled = Zero(negative: bool) | Exact(d: Double) | Infinite | Tiny

  function Ldexp(negative: bool, n: nat, e: int): Scaled {
    if n == 0 then Zero(negative)
    else
      var (s, p) := Scale(n, e);
      var biased := p + 1075;
      if biased >= 2047 then Infinite
      else if biased <= 0 then Tiny
      else Exact(Double(negative, biased, s - TWO52))
  }

  /** The double that the decoder makes of the number in the contents octets. */
  function Decoded(negative: bool, mantissa: nat, exponent: int): Scaled {
    match Gather(mantissa)
    case Overflow => Infinite
    case Finite(n) => Ldexp(negative, n, exponent)
  }

  /** Scaling keeps the value. */
  lemma {:induction false} ScaleExact(n: nat, e: int)
    requires n > 0 && Representable(n)
    ensures var (s, p) := Scale(n, e); SameValue(n, e, s, p)
    decreases if n < 2 * TWO52 then 2 * TWO52 - n else n
  {
    var (s, p) := Scale(n, e);
    if n < TWO52 {
      ScaleExact(2 * n, e - 1);
      ScaleUp(2 * n, e - 1);
      ShlOnce(n, e - 1 - p);
    } else if n >= 2 * TWO52 {
      ScaleExact(n / 2, e + 1);
      ScaleDown(n, e);
      assert n == 2 * (n / 2);
    } else {
      ShlZero(n);
    }
  }

  lemma {:induction false} ScaleUp(n: nat, e: int)
    requires 0 < n < 2 * TWO52
    ensures Scale(n, e).1 <= e
    decreases 2 * TWO52 - n
  {
    if n < TWO52 {
      ScaleUp(2 * n, e - 1);
    }
  }

  lemma {:induction false} ScaleDown(n: nat, e: int)
    requires n >= TWO52
    ensures Scale(n, e).1 >= e && (n >= 2 * TWO52 ==> Scale(n, e).1 > e)
    decreases n
  {
    if n >= 2 * TWO52 {
      ScaleDown(n / 2, e + 1);
    }
  }

  lemma {:induction false} ShlOnce(m: nat, n: nat)
    ensures Shl(2 * m, n) == Shl(m, n + 1)
  {
    if n > 0 {
      ShlOnce(m, n - 1);
    }
  }

  /** There is only one significand and power for a value. */
  lemma {:induction false} ScaleUnique(n: nat, e: int, s: nat, p: int)
    requires n > 0 && TWO52 <= s < 2 * TWO52 && SameValue(n, e, s, p)
    ensures Scale(n, e) == (s, p)
    decreases if p <= e then e - p else p - e
  {
    if p < e {
      ShlOnce(n, e - p - 1);
      ShlGrows(2 * n, e - p - 1);
      ScaleUnique(2 * n, e - 1, s, p);
    } else if p > e {
      ShlGrows(s, p - e - 1);
      ScaleUnique(n / 2, e + 1, s, p);
    }
  }

  lemma {:induction false} ShlGrows(m: nat, n: nat)
    ensures Shl(m, n) >= m
  {
    if n > 0 {
      ShlGrows(m, n - 1);
    }
  }

  /** The binary branch of asn_REAL2double. */
  method Real2double(buf: seq<byte>) returns (ret: int, value: Scaled)
    requires buf != [] && buf[0] >= 0x80
    ensures match BinaryFields(buf)
            case Number(negative, m, e) => value == Decoded(negative, m, e) && ret == (if value.Infinite? then -1 else 0)
            case _ => ret == -1
  {
    hide Ldexp, Gather, Integer.Signed, Base256.Value;
    value := Infinite;
    var octv := buf[0];
    var baseF;
    match (octv / 16) % 4 {
      case 0 => baseF := 1;
      case 1 => baseF := 3;
      case 2 => baseF := 4;
      case _ => return -1, value;
    }
    var negative := (octv / 64) % 2 == 1;
    var scaleF := (octv / 4) % 4;
    var elen: int := octv % 4;
    if |buf| <= 1 + elen {
      return -1, value;
    }
    var ptr := 1;
    if elen == 3 {
      elen := buf[1];
      if elen == 0 || |buf| <= 2 + elen {
        return -1, value;
      }
      ptr := 2;
    }
    if elen >= 3 {
      return -1, value;
    }
    var expval := FetchExponent(buf[ptr..ptr + elen + 1]);
    var m := FetchMantissa(buf[ptr + elen + 1..]);
    value := match m case Overflow => Infinite case Finite(n) => Ldexp(negative, n, expval * baseF + scaleF);
    ret := if value.Infinite? then -1 else 0;
  }

  method FetchExponent(s: seq<byte>) returns (expval: int)
    requires s != []
    ensures expval == Integer.Signed(s)
  {
    var first: int := s[0];
    expval := if first < 128 then first else first - 256;
    var i := 1;
    assert s[..1] == [s[0]];
    while i < |s|
      invariant 1 <= i <= |s| && expval == Integer.Signed(s[..i])
    {
      assert s[..i + 1][..i] == s[..i];
      expval := expval * 256 + s[i];
      i := i + 1;
    }
    assert s[..|s|] == s;
  }

  /** The loop that adds the octets of the mantissa up in a double. */
  method FetchMantissa(s: seq<byte>) returns (m: Gathered)
    ensures m == Gather(Base256.Value(s))
  {
    hide Kept;
    m := Finite(0);
    var i := 0;
    while i < |s|
      invariant 0 <= i <= |s| && m == Gather(Base256.Value(s[..i]))
    {
      GatherMore(Base256.Value(s[..i]), s[i]);
      assert s[..i + 1][..i] == s[..i];
      if m.Finite? {
        m := Kept(Base256.Join(m.n, s[i]));
      }
      i := i + 1;
    }
    assert s[..|s|] == s;
  }

  lemma GatherMore(v: nat, x: byte)
    ensures Gather(v * 256 + x) == match Gather(v) case Overflow => Overflow case Finite(n) => Kept(n * 256 + x)
  {
    hide Nearest;
    if v == 0 && x == 0 {
      SmallRepresentable(0);
      NearestExact(0);
      ShlGrows(TWO52, 972);
    }
  }

  /** The seven low octets of the double in big-endian order: four exponent bits, then the fraction. */
  function LowSeven(d: Double): (s: seq<byte>)
    requires d.Normal()
    ensures |s| == 7
  {
    [(d.exponent % 16) * 16 + d.fraction / TWO48] + Integer.Register(d.fraction, 6)
  }

  /** The same with the exponent bits replaced by the implicit one of the significand. */
  function Masked(s: seq<byte>): (r: seq<byte>)
    requires s != []
    ensures |r| == |s|
  {
    s[0 := 0x10 + s[0] % 16]
  }

  lemma {:induction false} RegisterDigits(a: byte, v: nat, n: nat)
    requires v < Pow(256, n)
    ensures Base256.Value([a] + Integer.Register(v, n)) == a * Pow(256, n) + v
    decreases n
  {
    var s := [a] + Integer.Register(v, n);
    if n == 0 {
      Base256.ValueOf1(s);
    } else {
      RegisterDigits(a, v / 256, n - 1);
      assert s[..n] == [a] + Integer.Register(v / 256, n - 1);
      MulAssoc(256, a, Pow(256, n - 1));
      MulAssoc(a, 256, Pow(256, n - 1));
    }
  }

  lemma SixOctets()
    ensures Pow(256, 6) == TWO48
  {
    assert Pow(256, 2) == 65536;
    assert Pow(256, 4) == 65536 * Pow(256, 2);
  }

  lemma MaskedValue(d: Double)
    requires d.Normal()
    ensures Base256.Value(Masked(LowSeven(d))) == d.Significand()
  {
    hide Pow, Base256.Value, Integer.Register;
    var top, low := d.fraction / TWO48, d.fraction % TWO48;
    SixOctets();
    RegisterLow(d.fraction, low, 6);
    TopFour(d);
    assert Masked(LowSeven(d)) == [0x10 + top] + Integer.Register(low, 6);
    RegisterDigits(0x10 + top, low, 6);
  }

  lemma TopFour(d: Double)
    requires d.Normal()
    ensures var top := d.fraction / TWO48;
            top < 16 && ((d.exponent % 16) * 16 + top) % 16 == top && d.fraction == top * TWO48 + d.fraction % TWO48
  {
  }

  /** Only the n low octets of a number matter for n octets. */
  lemma {:induction false} RegisterLow(v: nat, w: nat, n: nat)
    requires w == v % Pow(256, n)
    ensures Integer.Register(v, n) == Integer.Register(w, n)
    decreases n
  {
    if n > 0 {
      var k := Pow(256, n - 1);
      var q, r := v / (256 * k), v % (256 * k);
      assert v == (q * k) * 256 + r;
      assert v / 256 == q * k + r / 256 && v % 256 == r % 256;
      DivModUnique(v / 256, k, q, r / 256);
      RegisterLow(v / 256, w / 256, n - 1);
    }
  }

  /** Copies the octets and finds the last one that is not zero; the first one counts whatever it is. */
  method FillScratch(d: Double) returns (dscr: array<byte>, mstop: nat)
    requires d.Normal()
    ensures fresh(dscr) && dscr.Length == 8 && dscr[..7] == Masked(LowSeven(d))
    ensures mstop < 7 && dscr[mstop] != 0 && forall k :: mstop < k < 7 ==> dscr[k] == 0
  {
    hide Integer.Register;
    var s := LowSeven(d);
    dscr := new byte[8];
    mstop := 0;
    var i := 0;
    while i < 7
      invariant 0 <= i <= 7 && mstop < 7 && (mstop == 0 || (mstop < i && s[mstop] != 0))
      invariant forall k :: 0 <= k < i ==> dscr[k] == s[k]
      invariant forall k :: mstop < k < i ==> s[k] == 0
    {
      dscr[i] := s[i];
      if s[i] != 0 {
        mstop := i;
      }
      i := i + 1;
    }
    dscr[0] := 0x10 + dscr[0] % 16;
  }

  /** The number of zero bits at the end of an even octet. */
  method ShiftCount(mval: byte) returns (shiftCount: nat)
    requires mval != 0 && mval % 2 == 0
    ensures 1 <= shiftCount <= 7 && Shr(mval, shiftCount) % 2 == 1
    ensures Low(mval, shiftCount) == 0
  {
    shiftCount := 1;
    if mval % 16 == 0 {
      shiftCount := 4;
      LowFour(mval);
    }
    while Shr(mval, shiftCount) % 2 == 0
      invariant 1 <= shiftCount <= 7 && Low(mval, shiftCount) == 0
      decreases 8 - shiftCount
    {
      LowNext(mval, shiftCount);
      if shiftCount == 7 {
        ShrBound(mval, 8);
        assert Pow(2, 8) == 256;
        LowOfSmall(mval, 8);
      }
      shiftCount := shiftCount + 1;
    }
  }

  lemma LowFour(v: nat)
    requires v % 16 == 0
    ensures Low(v, 4) == 0
  {
    var k := v / 16;
    assert Shl(k, 0) == k;
    assert Shl(k, 2) == 4 * Shl(k, 0);
    assert Shl(k, 4) == 4 * Shl(k, 2);
    ShlLow(k, 4);
  }

  lemma {:induction false} LowNext(v: nat, n: nat)
    requires Low(v, n) == 0 && Shr(v, n) % 2 == 0
    ensures Low(v, n + 1) == 0
    decreases n
  {
    if n > 0 {
      LowNext(v / 2, n - 1);
    }
  }

  lemma {:induction false} ShrSum(v: nat, x: nat, n: nat, c: nat)
    requires c <= n
    ensures Shr(Shl(v, n) + x, c) == Shl(v, n - c) + Shr(x, c)
    decreases c
  {
    if c > 0 {
      assert (Shl(v, n) + x) / 2 == Shl(v, n - 1) + x / 2;
      ShrSum(v, x / 2, n - 1, c - 1);
    }
  }

  lemma {:induction false} HighLow(v: nat, n: nat)
    ensures v == Shl(Shr(v, n), n) + Low(v, n)
    decreases n
  {
    if n > 0 {
      HighLow(v / 2, n - 1);
    }
  }

  lemma {:induction false} ShlSum(a: nat, b: nat, n: nat)
    ensures Shl(a + b, n) == Shl(a, n) + Shl(b, n)
  {
    if n > 0 {
      ShlSum(a, b, n - 1);
    }
  }

  /** Shifting left to the end of the next octet splits off what leaves the octet. */
  lemma ShlSplit(v: nat, c: nat)
    requires c <= 8
    ensures Shl(v, 8 - c) == 256 * Shr(v, c) + Shl(Low(v, c), 8 - c)
  {
    hide Shl, Shr, Low;
    HighLow(v, c);
    ShlSum(Shl(Shr(v, c), c), Low(v, c), 8 - c);
    ShlShl(Shr(v, c), c, 8 - c);
    ShlOctet(Shr(v, c));
  }

  lemma OctetBound(l: nat, y: nat, c: nat)
    requires c <= 8 && Shr(l, c) == 0 && Shr(y, 8 - c) == 0
    ensures Shl(l, 8 - c) + y < 256
  {
    hide Shl, Shr;
    ShrSum(l, y, 8 - c, 8 - c);
    ShlZero(l);
    ShrShr(Shl(l, 8 - c) + y, 8 - c, c);
    ShrBound(Shl(l, 8 - c) + y, 8);
    assert Pow(2, 8) == 256;
  }

  lemma ShlZero(v: nat)
    ensures Shl(v, 0) == v
  {
  }

  /** Shifting one more octet: the bits pushed out of the previous octet come in from the left. */
  lemma ShiftStep(v: nat, prev: byte, x: byte, c: nat)
    requires 1 <= c <= 7 && v % 256 == prev
    ensures Low(Shl(prev, 8 - c), 8 - c) == 0 && Shr(Shr(x, c), 8 - c) == 0
    ensures Base256.Join(Shr(v, c), Or(Shl(prev, 8 - c), Shr(x, c), 8 - c) % 256) == Shr(Base256.Join(v, x), c)
  {
    hide Shr, Shl, Low;
    ShlLow(prev, 8 - c);
    ShrShr(x, c, 8 - c);
    ShrBound(x, 8);
    assert Pow(2, 8) == 256;
    ShlOctet(v);
    ShrSum(v, x, 8, c);
    ShlSplit(v, c);
    ShlSplit(prev, c);
    LastOctet(v / 256, prev, c);
    assert Base256.Join(v / 256, prev) == v;
    BitsOfLow(v, c);
    OctetBound(Low(v, c), Shr(x, c), c);
  }

  lemma FirstShift(x: byte, c: nat)
    requires 1 <= c <= 7
    ensures Shl(0, 8 - c) == 0 && Shr(x, c) < 256
  {
    HighLow(0, 8 - c);
    ZeroShr(8 - c);
    ShrSmaller(x, c);
  }

  lemma {:induction false} ShrSmaller(v: nat, n: nat)
    ensures Shr(v, n) <= v
    decreases n
  {
    if n > 0 {
      ShrSmaller(v / 2, n - 1);
    }
  }

  /** The octet that takes the place of x, with prev the octet before x or 0. */
  function ShiftedOctet(prev: byte, x: byte, c: nat): byte
    requires 1 <= c <= 7
  {
    ShiftStep(prev, prev, x, c);
    Or(Shl(prev, 8 - c), Shr(x, c), 8 - c) % 256
  }

  lemma ShiftedStep(v: nat, prev: byte, x: byte, c: nat)
    requires 1 <= c <= 7 && v % 256 == prev
    ensures Base256.Join(Shr(v, c), ShiftedOctet(prev, x, c)) == Shr(Base256.Join(v, x), c)
  {
    hide Shr, Shl, Low, Base256.Join, Or;
    ShiftStep(v, prev, x, c);
  }

  lemma ShiftedFirst(x: byte, c: nat)
    requires 1 <= c <= 7
    ensures ShiftedOctet(0, x, c) == Shr(x, c)
  {
    hide Shr, Shl, Low;
    FirstShift(x, c);
  }

  /** The octet before the next one, or 0. */
  function Last(s: seq<byte>): byte {
    if s == [] then 0 else s[|s| - 1]
  }

  lemma LastOf(s: seq<byte>, x: byte)
    ensures Last(s + [x]) == x
  {
  }

  lemma LastIsLow(s: seq<byte>)
    ensures Base256.Value(s) % 256 == Last(s)
  {
  }

  lemma ShiftPrefix(was: seq<byte>, shifted: seq<byte>, prev: byte, x: byte, c: nat)
    requires 1 <= c <= 7 && prev == Last(was)
    requires Base256.Value(shifted) == Shr(Base256.Value(was), c)
    ensures Base256.Value(shifted + [ShiftedOctet(prev, x, c)]) == Shr(Base256.Value(was + [x]), c)
  {
    hide Shr, Base256.Value, ShiftedOctet, Last;
    LastIsLow(was);
    ShiftedStep(Base256.Value(was), prev, x, c);
    Base256.ValueSnoc(was, x);
    Base256.ValueSnoc(shifted, ShiftedOctet(prev, x, c));
  }

  /** Shifts the first n octets right in place. */
  method ShiftRight(dscr: array<byte>, n: nat, shiftCount: nat)
    requires n <= dscr.Length && 1 <= shiftCount <= 7
    modifies dscr
    ensures Base256.Value(dscr[..n]) == Shr(Base256.Value(old(dscr[..n])), shiftCount)
    ensures n > 0 ==> dscr[0] == Shr(old(dscr[0]), shiftCount)
  {
    hide Shr, ShiftedOctet;
    ghost var was := dscr[..];
    var mptr, prev: byte := 0, 0;
    ZeroShr(shiftCount);
    while mptr < n
      invariant 0 <= mptr <= n
      invariant forall k :: mptr <= k < n ==> dscr[k] == was[k]
      invariant prev == Last(was[..mptr])
      invariant mptr > 0 ==> dscr[0] == Shr(was[0], shiftCount)
      invariant Base256.Value(dscr[..mptr]) == Shr(Base256.Value(was[..mptr]), shiftCount)
    {
      hide Base256.Value, Last;
      var mval := dscr[mptr];
      ghost var before := dscr[..mptr];
      ShiftPrefix(was[..mptr], before, prev, mval, shiftCount);
      ShiftedFirst(mval, shiftCount);
      dscr[mptr] := ShiftedOctet(prev, mval, shiftCount);
      LastOf(was[..mptr], mval);
      assert was[..mptr + 1] == was[..mptr] + [mval];
      assert dscr[..mptr + 1] == before + [dscr[mptr]];
      prev := mval;
      mptr := mptr + 1;
    }
    assert was[..n] == old(dscr[..n]);
  }

  /** The exponent in the fewest octets. */
  method EncodeExponent(expval: int) returns (octets: seq<byte>)
    requires -0x80_0000 <= expval <= 0x7f_ffff
    ensures 1 <= |octets| <= 3 && Integer.Signed(octets) == expval && !Integer.Superfluous(octets)
  {
    hide Integer.Signed;
    if expval < 0 {
      if expval / 128 == -1 {
        octets := [expval % 256];
      } else if expval / 0x8000 == -1 {
        octets := [(expval / 256) % 256, expval % 256];
      } else {
        octets := [(expval / 65536) % 256, (expval / 256) % 256, expval % 256];
      }
    } else if expval <= 0x7f {
      octets := [expval];
    } else if expval <= 0x7fff {
      octets := [expval / 256, expval % 256];
    } else {
      octets := [expval / 65536, (expval / 256) % 256, expval % 256];
    }
    FewOctets(octets, expval);
  }

  lemma FewOctets(s: seq<byte>, v: int)
    requires 1 <= |s| <= 3 && s[|s| - 1] == v % 256
    requires |s| == 1 ==> -128 <= v < 128
    requires |s| == 2 ==> -32768 <= v < 32768 && s[0] == (v / 256) % 256
    requires |s| == 3 ==> -0x80_0000 <= v < 0x80_0000 && s[0] == (v / 65536) % 256 && s[1] == (v / 256) % 256
    ensures Integer.Signed(s) == v
  {
    if |s| == 2 {
      FewOctets(s[..1], v / 256);
    } else if |s| == 3 {
      DivTwice(v);
      FewOctets(s[..2], v / 256);
    }
  }

  lemma DivTwice(v: int)
    ensures v / 65536 == v / 256 / 256
  {
  }

  /** The number with sign, mantissa m and exponent e is the double d. */
  predicate SameNumber(f: Fields, d: Double) {
    f.Number? && f.negative == d.negative && SameValue(f.mantissa, f.exponent, d.Significand(), d.Power())
  }

  lemma {:induction false} ShlShl(v: nat, m: nat, n: nat)
    ensures Shl(Shl(v, m), n) == Shl(v, m + n)
  {
    if n > 0 {
      ShlShl(v, m, n - 1);
    }
  }

  lemma {:induction false} ZeroTail(s: seq<byte>, n: nat)
    requires n <= |s| && forall k :: n <= k < |s| ==> s[k] == 0
    ensures Base256.Value(s) == Shl(Base256.Value(s[..n]), 8 * (|s| - n))
    decreases |s|
  {
    if n == |s| {
      assert s[..n] == s;
    } else {
      var m := |s| - 1;
      ZeroTail(s[..m], n);
      assert s[..m][..n] == s[..n];
      var v := Shl(Base256.Value(s[..n]), 8 * (m - n));
      ShlOctet(v);
      ShlShl(Base256.Value(s[..n]), 8 * (m - n), 8);
    }
  }

  lemma {:induction false} LastOctet(v: nat, x: byte, n: nat)
    requires n <= 7
    ensures Low(Base256.Join(v, x), n) == Low(x, n)
    ensures Shr(Base256.Join(v, x), n) % 2 == Shr(x, n) % 2
  {
    LastBits(128 * v, x, n, 7);
  }

  lemma {:induction false} LastBits(u: nat, x: nat, n: nat, k: nat)
    requires n <= k && u % Pow(2, k) == 0
    ensures Low(2 * u + x, n) == Low(x, n) && Shr(2 * u + x, n) % 2 == Shr(x, n) % 2
    decreases n
  {
    if n > 0 {
      var half := Pow(2, k - 1);
      var q := u / Pow(2, k);
      assert u == q * (2 * half) == 2 * (q * half);
      DivModUnique(u / 2, half, q, 0);
      assert (2 * u + x) / 2 == 2 * (u / 2) + x / 2;
      LastBits(u / 2, x / 2, n - 1, k - 1);
    }
  }

  lemma {:induction false} TwosOf(m: nat, n: nat)
    requires m % 2 == 1
    ensures Shl(m, n) > 0 && Twos(Shl(m, n)) == n
    decreases n
  {
    if n > 0 {
      TwosOf(m, n - 1);
    }
  }

  /** Binary encoding, sign, base 2, no scaling factor, n exponent octets. */
  function FirstOctet(negative: bool, n: nat): byte
    requires 1 <= n <= 3
  {
    0x80 + (if negative then 0x40 else 0) + (n - 1)
  }

  lemma FirstOctetFields(negative: bool, n: nat)
    requires 1 <= n <= 3
    ensures var o := FirstOctet(negative, n);
            && o >= 0x80 && (o / 64) % 2 == (if negative then 1 else 0)
            && (o / 16) % 4 == 0 && (o / 4) % 4 == 0 && o % 4 == n - 1 && (o % 64) / 4 == 0
  {
    assert n == 1 || n == 2 || n == 3;
  }

  lemma FieldsOf(negative: bool, exponent: seq<byte>, mantissa: seq<byte>)
    requires 1 <= |exponent| <= 3
    ensures FirstOctet(negative, |exponent|) >= 0x80
    ensures BinaryFields([FirstOctet(negative, |exponent|)] + exponent + mantissa)
              == Number(negative, Base256.Value(mantissa), Integer.Signed(exponent))
  {
    hide Base256.Value, Integer.Signed, FirstOctet;
    var n := |exponent|;
    var buf := [FirstOctet(negative, n)] + exponent + mantissa;
    FirstOctetFields(negative, n);
    assert buf[1..1 + n] == exponent && buf[1 + n..] == mantissa;
    assert buf[0] == FirstOctet(negative, n);
  }

  /** Where the exponent octets end and the mantissa begins. */
  function MantissaStart(buf: seq<byte>): nat
    requires buf != []
  {
    2 + buf[0] % 4
  }

  /** Taking the odd part of the mantissa out of the scratch pad keeps the number. */
  lemma OddPart(s: nat, whole: nat, m: nat, shift: nat, zeros: nat)
    requires s == Shl(whole, 8 * zeros) && whole == Shl(m, shift) && m % 2 == 1 && shift <= 7
    ensures s == Shl(m, shift + 8 * zeros) && s > 0 && Twos(s) % 8 == shift
  {
    ShlShl(m, shift, 8 * zeros);
    TwosOf(m, shift + 8 * zeros);
  }

  lemma WhichShift(x: byte, c: nat)
    requires 16 <= x < 32 && c <= 7
    ensures Shr(x, c) != 0 <==> c < 5
  {
    ShrBound(x, c);
    assert Pow(2, 4) == 16;
    assert Pow(2, 5) == 32;
    if c < 5 {
      PowMono(2, c, 4);
    } else {
      PowMono(2, 5, c);
    }
  }

  lemma OddShift(s: seq<byte>, c: nat)
    requires s != [] && c <= 7 && Low(s[|s| - 1], c) == 0 && Shr(s[|s| - 1], c) % 2 == 1
    ensures Base256.Value(s) == Shl(Shr(Base256.Value(s), c), c) && Shr(Base256.Value(s), c) % 2 == 1
  {
    hide Shl, Shr, Low;
    SplitLast(s);
    LastOctet(Base256.Value(s[..|s| - 1]), s[|s| - 1], c);
    ShlShr(Base256.Value(s), c);
  }

  /** Shifts the octets up to the last one, which is not zero, until they end in a one. */
  method MakeOdd(dscr: array<byte>, mstop: nat) returns (shiftCount: nat)
    requires mstop < dscr.Length && dscr[mstop] != 0
    modifies dscr
    ensures shiftCount <= 7 && dscr[0] == Shr(old(dscr[0]), shiftCount)
    ensures Base256.Value(dscr[..mstop + 1]) % 2 == 1
    ensures Base256.Value(old(dscr[..mstop + 1])) == Shl(Base256.Value(dscr[..mstop + 1]), shiftCount)
  {
    hide Shl, Shr, Low, Base256.Value;
    ghost var was := dscr[..mstop + 1];
    if dscr[mstop] % 2 == 0 {
      shiftCount := ShiftCount(dscr[mstop]);
      OddShift(was, shiftCount);
      ShiftRight(dscr, mstop + 1, shiftCount);
    } else {
      shiftCount := 0;
      ShiftNone(dscr[mstop]);
      OddShift(was, 0);
      ShrZero(dscr[0]);
      ShrZero(Base256.Value(was));
    }
  }

  lemma ShiftNone(x: byte)
    ensures Low(x, 0) == 0 && Shr(x, 0) == x
  {
  }

  /** The odd mantissa and its exponent. */
  method OddMantissa(d: Double) returns (mantissa: seq<byte>, expval: int)
    requires d.Normal()
    ensures 0 < |mantissa| <= 7 && Base256.Value(mantissa) % 2 == 1
    ensures -1100 <= expval <= 1100 && expval >= d.Power()
    ensures Shl(Base256.Value(mantissa), expval - d.Power()) == d.Significand()
    ensures mantissa[0] != 0 <==> Twos(d.Significand()) % 8 < 5
  {
    hide Shl, Shr, Twos, LowSeven;
    var dscr, mstop := FillScratch(d);
    MaskedValue(d);
    ZeroTail(dscr[..7], mstop + 1);
    ghost var was := dscr[..mstop + 1];
    assert dscr[..7][..mstop + 1] == was;
    ghost var first := dscr[0];
    assert 16 <= first < 32;
    hide Masked, Base256.Value;
    var shiftCount := MakeOdd(dscr, mstop);
    expval := (d.exponent - 1023) - (8 * (mstop + 1) - 4) + shiftCount;
    mantissa := dscr[..mstop + 1];
    OddPart(d.Significand(), Base256.Value(was), Base256.Value(mantissa), shiftCount, 6 - mstop);
    WhichShift(first, shiftCount);
  }

  /**
   * asn_double2REAL for normal doubles. The contents octets denote exactly the double, in base 2 and without
   * a scaling factor, with an odd mantissa and the fewest exponent octets. The mantissa itself starts with a
   * zero octet exactly when five or more bits of its last octet had to be shifted out.
   */
  method Double2real(d: Double) returns (buf: seq<byte>)
    requires d.Normal()
    ensures buf != [] && buf[0] >= 0x80 && (buf[0] % 64) / 4 == 0 && MantissaStart(buf) < |buf|
    ensures SameNumber(BinaryFields(buf), d)
    ensures BinaryFields(buf).mantissa % 2 == 1
    ensures !Integer.Superfluous(buf[1..MantissaStart(buf)])
    ensures buf[MantissaStart(buf)] != 0 <==> Twos(d.Significand()) % 8 < 5
  {
    hide Shl, Twos, Integer.Signed, Integer.Superfluous, Base256.Value, FirstOctet, BinaryFields;
    var mantissa, expval := OddMantissa(d);
    var octets := EncodeExponent(expval);
    var n := |octets|;
    buf := [FirstOctet(d.negative, n)] + octets + mantissa;
    FieldsOf(d.negative, octets, mantissa);
    FirstOctetFields(d.negative, n);
    assert buf[0] == FirstOctet(d.negative, n);
    assert buf[1..1 + n] == octets;
    assert buf[1 + n] == mantissa[0];
  }

  /** The double 1 + 2^-7 is one whose mantissa, 129, is written as the octets 00 81. */
  lemma LeadingZeroOctet()
    ensures var d := Double(false, 1023, 0x2000_0000_0000); d.Normal() && Twos(d.Significand()) % 8 == 5
  {
    hide Twos;
    assert Shl(129, 5) == 4128 by {
      assert Shl(129, 2) == 516;
      assert Shl(129, 4) == 4 * Shl(129, 2);
    }
    var v := Shl(129, 5);
    ShlShl(129, 5, 40);
    ShlShl(v, 8, 32);
    ShlShl(256 * v, 8, 24);
    ShlShl(65536 * v, 8, 16);
    ShlShl(0x100_0000 * v, 8, 8);
    ShlOctet(v);
    ShlOctet(256 * v);
    ShlOctet(65536 * v);
    ShlOctet(0x100_0000 * v);
    ShlOctet(0x1_0000_0000 * v);
    TwosOf(129, 45);
  }

  lemma ShrZero(v: nat)
    ensures Shr(v, 0) == v
  {
  }

  lemma SplitLast(s: seq<byte>)
    requires s != []
    ensures Base256.Value(s) == Base256.Join(Base256.Value(s[..|s| - 1]), s[|s| - 1])
  {
  }

  lemma SameRepresentable(f: Fields, d: Double)
    requires d.Normal() && SameNumber(f, d)
    ensures f.mantissa > 0 && Representable(f.mantissa)
  {
    hide Shl;
    var e, p := f.exponent, d.Power();
    if p <= e {
      ShlGrows(f.mantissa, e - p);
      ShlNothing(e - p);
      SmallRepresentable(f.mantissa);
    } else {
      ShlGrows(d.Significand(), p - e);
      ShlRepresentable(d.Significand(), p - e);
    }
  }

  lemma {:induction false} ShlNothing(n: nat)
    ensures Shl(0, n) == 0
  {
    if n > 0 {
      ShlNothing(n - 1);
    }
  }

  /**
   * Octets that denote a normal double, with any base, scale and zeros, are decoded to that double exactly when
   * the mantissa alone is below 2^1024; else it overflows before the exponent is applied.
   */
  lemma NumberIsDouble(f: Fields, d: Double)
    requires d.Normal() && SameNumber(f, d)
    ensures Decoded(f.negative, f.mantissa, f.exponent) == if f.mantissa < DOUBLE_LIMIT then Exact(d) else Infinite
  {
    hide Shl, Scale, Gather, Representable, SameValue;
    SameRepresentable(f, d);
    GatherExact(f.mantissa);
    ScaleUnique(f.mantissa, f.exponent, d.Significand(), d.Power());
  }

  /** Octets that denote 2^1024 times 2^-1024. */
  const HUGE_ONE: seq<byte> := [0x81, 0xfc, 0x00] + ([0x01] + seq(128, _ => 0))

  lemma TwoTo52()
    ensures Shl(1, 52) == TWO52
  {
    assert Shl(1, 4) == 4 * Shl(1, 2) && Shl(1, 2) == 4;
    ShlOctet(16);
    ShlOctet(0x1000);
    ShlOctet(0x10_0000);
    ShlOctet(0x1000_0000);
    ShlOctet(0x10_0000_0000);
    ShlOctet(0x1000_0000_0000);
    ShlShl(1, 4, 8);
    ShlShl(1, 12, 8);
    ShlShl(1, 20, 8);
    ShlShl(1, 28, 8);
    ShlShl(1, 36, 8);
    ShlShl(1, 44, 8);
  }

  lemma HugeFields()
    ensures HUGE_ONE[0] >= 0x80 && BinaryFields(HUGE_ONE) == Number(false, DOUBLE_LIMIT, -1024)
  {
    hide Shl, Base256.Value, BinaryFields;
    var exponent: seq<byte>, mantissa: seq<byte> := [0xfc, 0x00], [0x01] + seq(128, _ => 0);
    assert [FirstOctet(false, 2)] + exponent + mantissa == HUGE_ONE;
    FieldsOf(false, exponent, mantissa);
    assert exponent[..1] == [0xfc] && Integer.Signed([0xfc]) == -4;
    assert mantissa[..1] == [0x01];
    Base256.ValueOf1([0x01]);
    ZeroTail(mantissa, 1);
    TwoTo52();
    ShlShl(1, 52, 972);
  }

  /** They denote the double 1, but are refused as out of range. */
  method HugeMantissa() returns (ret: int, value: Scaled)
    ensures HUGE_ONE[0] >= 0x80 && SameNumber(BinaryFields(HUGE_ONE), Double(false, 1023, 0))
    ensures ret == -1 && value == Infinite
  {
    hide Shl, Decoded, BinaryFields;
    HugeFields();
    NumberIsDouble(BinaryFields(HUGE_ONE), Double(false, 1023, 0));
    ret, value := Real2double(HUGE_ONE);
  }

  /** A double is always the gathered mantissa with the exponent, whether or not gathering had to round it. */
  lemma DoubleIsGathered(negative: bool, mantissa: nat, exponent: int, d: Double)
    requires Decoded(negative, mantissa, exponent) == Exact(d)
    ensures Gather(mantissa).Finite? && d.Normal() && d.negative == negative
    ensures SameValue(Gather(mantissa).n, exponent, d.Significand(), d.Power())
  {
    hide Shl, Scale, Gather, Representable, SameValue;
    GatherRepresentable(mantissa);
    ScaleExact(Gather(mantissa).n, exponent);
  }

  /** So a double comes from octets that denote it exactly when the gathered mantissa is the one encoded. */
  lemma DoubleIsNumber(f: Fields, d: Double)
    requires f.Number? && Decoded(f.negative, f.mantissa, f.exponent) == Exact(d)
    ensures d.Normal() && (SameNumber(f, d) <==> Gather(f.mantissa) == Finite(f.mantissa))
  {
    hide Shl, Scale, Gather, Representable, SameValue;
    DoubleIsGathered(f.negative, f.mantissa, f.exponent, d);
    if SameNumber(f, d) {
      SameRepresentable(f, d);
      GatherExact(f.mantissa);
    }
  }

  /** Encoding a normal double and decoding it again gives the double. */
  method DoubleRoundTrip(d: Double) returns (ret: int, value: Scaled)
    requires d.Normal()
    ensures ret == 0 && value == Exact(d)
  {
    hide SameNumber, BinaryFields, Decoded, Integer.Superfluous;
    var buf := Double2real(d);
    assert BinaryFields(buf).Number? by {
      IsNumber(BinaryFields(buf), d);
    }
    OddIsSmall(BinaryFields(buf), d);
    NumberIsDouble(BinaryFields(buf), d);
    ret, value := Real2double(buf);
  }

  lemma IsNumber(f: Fields, d: Double)
    requires SameNumber(f, d)
    ensures f.Number?
  {
  }

  lemma OddIsSmall(f: Fields, d: Double)
    requires d.Normal() && SameNumber(f, d) && f.mantissa % 2 == 1
    ensures f.mantissa < DOUBLE_LIMIT
  {
    var e, p := f.exponent, d.Power();
    assert DOUBLE_LIMIT >= 2 * TWO52 by {
      assert Shl(TWO52, 972) == 2 * Shl(TWO52, 971);
      ShlGrows(TWO52, 971);
    }
    if p <= e {
      ShlGrows(f.mantissa, e - p);
    }
  }
}
