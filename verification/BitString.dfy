/** BIT STRING values, their trailing zero bits and their order: asn1/BIT_STRING.c. */
module BitString {
  import opened Arith
  import opened Bits
  import opened ByteOrder

  datatype BitStr = BitStr(buf: seq<byte>, unused: nat) {
    predicate Valid() {
      unused < 8 && (buf == [] ==> unused == 0)
    }

    function Bits(): seq<bool>
      requires Valid()
    {
      BytesBits(buf)[..8 * |buf| - unused]
    }

    /** The bits of the last octet that do not belong to the string are zero. */
    predicate ZeroUnused()
      requires Valid()
    {
      BytesBits(buf)[8 * |buf| - unused..] == Zeros(unused)
    }
  }

  /** Without the trailing zero bits. */
  function Trim(b: seq<bool>): (t: seq<bool>)
    ensures |t| <= |b| && (t == [] || t[|t| - 1])
  {
    if b != [] && !b[|b| - 1] then Trim(b[..|b| - 1]) else b
  }

  lemma {:induction false} TrimZeros(b: seq<bool>, n: nat)
    ensures Trim(b + Zeros(n)) == Trim(b)
  {
    if n == 0 {
      assert b + Zeros(0) == b;
    } else {
      TrimZeros(b, n - 1);
      var c := b + Zeros(n);
      assert c[..|c| - 1] == b + Zeros(n - 1) && !c[|c| - 1];
    }
  }

  /** A string is its trimmed form followed by zeros. */
  lemma {:induction false} TrimSplit(b: seq<bool>)
    ensures b == Trim(b) + Zeros(|b| - |Trim(b)|)
  {
    if b != [] && !b[|b| - 1] {
      TrimSplit(b[..|b| - 1]);
    }
  }

  lemma {:induction false} TwosMod(x: nat)
    requires x > 0
    ensures x % Pow(2, Twos(x) + 1) == Pow(2, Twos(x))
  {
    if x % 2 == 1 {
      assert Pow(2, 1) == 2;
    } else {
      TwosMod(x / 2);
      HalfMod(x, Pow(2, Twos(x)));
    }
  }

  lemma {:induction false} TwosBound(x: nat, n: nat)
    requires x > 0 && Shr(x, n) == 0
    ensures Twos(x) < n
    decreases n
  {
    if x % 2 == 0 {
      TwosBound(x / 2, n - 1);
    }
  }

  lemma {:induction false} TwosBits(x: nat, n: nat)
    requires x > 0 && Twos(x) < n
    ensures var b, k := BitsOf(x, n), Twos(x); b == b[..n - k] + Zeros(k) && b[n - k - 1]
    decreases n
  {
    if x % 2 == 0 {
      TwosBits(x / 2, n - 1);
      var b, c := BitsOf(x, n), BitsOf(x / 2, n - 1);
      assert b == c + [false];
      assert b[..n - Twos(x)] == c[..n - 1 - Twos(x / 2)];
    }
  }

  /** The octet with only the bit of weight 2^k. */
  function BitAt(k: nat): bv8
    requires k < 8
  {
    match k
    case 0 => 1 case 1 => 2 case 2 => 4 case 3 => 8 case 4 => 16 case 5 => 32 case 6 => 64 case _ => 128
  }

  lemma PowersOfTwo()
    ensures Pow(2, 0) == 1 && Pow(2, 1) == 2 && Pow(2, 2) == 4 && Pow(2, 3) == 8 && Pow(2, 4) == 16
    ensures Pow(2, 5) == 32 && Pow(2, 6) == 64 && Pow(2, 7) == 128 && Pow(2, 8) == 256
  {
    assert Pow(2, 2) == 4;
    assert Pow(2, 4) == 4 * Pow(2, 2);
    assert Pow(2, 6) == 4 * Pow(2, 4);
  }

  lemma LowestBit1(x: byte)
    ensures x % 2 == 1 ==> (x as bv8) & (0 - (x as bv8)) == 1
    ensures x % 4 == 2 ==> (x as bv8) & (0 - (x as bv8)) == 2
    ensures x % 8 == 4 ==> (x as bv8) & (0 - (x as bv8)) == 4
  {
  }

  lemma LowestBit8(x: byte)
    requires x % 16 == 8
    ensures (x as bv8) & (0 - (x as bv8)) == 8
  {
    assert (x as bv8) & 15 == 8;
  }

  lemma LowFive(x: byte)
    requires x % 32 == 16
    ensures (x as bv8) & 31 == 16
  {
  }

  lemma LowestOf16(y: bv8)
    requires y & 31 == 16
    ensures y & (0 - y) == 16
  {
  }

  lemma LowestBit16(x: byte)
    requires x % 32 == 16
    ensures (x as bv8) & (0 - (x as bv8)) == 16
  {
    LowFive(x);
    LowestOf16(x as bv8);
  }

  lemma LowestBit32(x: byte)
    requires x % 64 == 32
    ensures (x as bv8) & (0 - (x as bv8)) == 32
  {
    assert (x as bv8) & 63 == 32;
  }

  lemma LowestBit64(x: byte)
    requires x % 128 == 64
    ensures (x as bv8) & (0 - (x as bv8)) == 64
  {
    assert (x as bv8) & 127 == 64;
  }

  lemma OctetTwos(x: byte)
    requires x > 0
    ensures Twos(x) < 8
  {
    ShrBound(x, 8);
    assert Pow(2, 8) == 256;
    TwosBound(x, 8);
  }

  /** v & -v leaves only the lowest bit that is set. */
  lemma LowestBit(x: byte)
    requires x > 0
    ensures Twos(x) < 8
    ensures (x as bv8) & (0 - (x as bv8)) == BitAt(Twos(x))
  {
    hide Twos;
    OctetTwos(x);
    TwosMod(x);
    PowersOfTwo();
    hide Pow;
    match Twos(x) {
      case 3 => LowestBit8(x);
      case 4 => LowestBit16(x);
      case 5 => LowestBit32(x);
      case 6 => LowestBit64(x);
      case 7 => assert x == 128;
      case _ => LowestBit1(x);
    }
  }

  /** The number of bits after the last one that is set, by the three masks of the source. */
  method BitsAfterLast(x: byte) returns (unused: nat)
    requires x > 0
    ensures unused == Twos(x) < 8
  {
    LowestBit(x);
    hide Twos;
    unused := 7;
    var v := x as bv8;
    v := v & (0 - v);
    if v & 0x0F != 0 {
      unused := unused - 4;
    }
    if v & 0x33 != 0 {
      unused := unused - 2;
    }
    if v & 0x55 != 0 {
      unused := unused - 1;
    }
  }

  /** What is left of the octets without their trailing zero bits. */
  function Compact(buf: seq<byte>): (r: BitStr)
    ensures r.Valid() && |r.buf| <= |buf| && r.buf == buf[..|r.buf|]
    ensures r.buf != [] ==> r.buf[|r.buf| - 1] != 0
  {
    if buf == [] then BitStr([], 0)
    else if buf[|buf| - 1] == 0 then Compact(buf[..|buf| - 1])
    else
      OctetTwos(buf[|buf| - 1]);
      BitStr(buf, Twos(buf[|buf| - 1]))
  }

  /** BIT_STRING__compactify; the field bits_unused of the argument plays no part. */
  method Compactify(st: BitStr) returns (tmp: BitStr)
    requires st.Valid()
    ensures tmp == Compact(st.buf)
  {
    if |st.buf| == 0 {
      return st;
    }
    var b := |st.buf| - 1;
    assert st.buf[..b + 1] == st.buf;
    while b > 0 && st.buf[b] == 0
      invariant 0 <= b < |st.buf| && Compact(st.buf) == Compact(st.buf[..b + 1])
    {
      assert st.buf[..b + 1][..b] == st.buf[..b];
      b := b - 1;
    }
    if st.buf[b] != 0 {
      var unused := BitsAfterLast(st.buf[b]);
      tmp := BitStr(st.buf[..b + 1], unused);
    } else {
      assert st.buf[..1][..0] == [];
      tmp := BitStr(st.buf[..b], 0);
    }
  }

  /** r stands for the octets without their trailing zero bits. */
  predicate Trims(r: BitStr, buf: seq<byte>)
    requires r.Valid() && |r.buf| <= |buf|
  {
    && r.Bits() == Trim(BytesBits(buf))
    && r.ZeroUnused()
    && BytesBits(buf) == BytesBits(r.buf) + Zeros(8 * (|buf| - |r.buf|))
  }

  /** Compacting is trimming the bits of all octets. */
  lemma {:induction false} CompactTrims(buf: seq<byte>)
    ensures Trims(Compact(buf), buf)
  {
    if buf == [] {
    } else if buf[|buf| - 1] == 0 {
      CompactTrims(buf[..|buf| - 1]);
      ZeroOctet(buf);
      MoreZeros(Compact(buf), buf);
    } else {
      LastOctetCounts(buf);
    }
  }

  lemma MoreZeros(r: BitStr, buf: seq<byte>)
    requires buf != [] && r.Valid() && |r.buf| < |buf| && Trims(r, buf[..|buf| - 1])
    requires var p := BytesBits(buf[..|buf| - 1]); BytesBits(buf) == p + Zeros(8) && Trim(BytesBits(buf)) == Trim(p)
    ensures Trims(r, buf)
  {
    hide BytesBits, Trim, Zeros;
    var n := 8 * (|buf| - 1 - |r.buf|);
    AppendZeros(BytesBits(r.buf), n, 8);
    assert n + 8 == 8 * (|buf| - |r.buf|);
  }

  lemma AppendZeros(b: seq<bool>, m: nat, n: nat)
    ensures b + Zeros(m) + Zeros(n) == b + Zeros(m + n)
  {
  }

  lemma LastOctetCounts(buf: seq<byte>)
    requires buf != [] && buf[|buf| - 1] != 0
    ensures Twos(buf[|buf| - 1]) < 8 && Trims(BitStr(buf, Twos(buf[|buf| - 1])), buf)
  {
    hide Twos, BitsOf, Trim;
    LastBitSet(BytesBits(buf[..|buf| - 1]), buf[|buf| - 1]);
    var b := BytesBits(buf);
    assert b + Zeros(0) == b;
  }

  lemma ZeroOctet(buf: seq<byte>)
    requires buf != [] && buf[|buf| - 1] == 0
    ensures var p := BytesBits(buf[..|buf| - 1]); BytesBits(buf) == p + Zeros(8) && Trim(BytesBits(buf)) == Trim(p)
  {
    hide BitsOf, Trim;
    BitsOfZero(8);
    TrimZeros(BytesBits(buf[..|buf| - 1]), 8);
  }

  lemma LastBitSet(p: seq<bool>, x: byte)
    requires x > 0
    ensures Twos(x) < 8
    ensures var b, k := p + BitsOf(x, 8), Twos(x);
            Trim(b) == b[..|b| - k] && b[|b| - k..] == Zeros(k)
  {
    hide BitsOf, Twos, Trim, Zeros;
    OctetTwos(x);
    TwosBits(x, 8);
    var o, k := BitsOf(x, 8), Twos(x);
    var t := p + o[..8 - k];
    assert p + (o[..8 - k] + Zeros(k)) == t + Zeros(k);
    assert (p + o)[..8 + |p| - k] == t;
    TrimZeros(t, k);
    TrimNothing(t);
  }

  lemma TrimNothing(t: seq<bool>)
    requires t != [] && t[|t| - 1]
    ensures Trim(t) == t
  {
  }

  /** For a string whose unused bits are zero, and for no other, compacting trims the string itself. */
  lemma CompactIff(st: BitStr)
    requires st.Valid()
    ensures Compact(st.buf).Bits() == Trim(st.Bits()) <==> st.ZeroUnused()
  {
    hide *;
    var all, n := BytesBits(st.buf), 8 * |st.buf| - st.unused;
    UnusedPart(st);
    CompactTrims(st.buf);
    TrimIff(all, n);
  }

  lemma UnusedPart(st: BitStr)
    requires st.Valid()
    ensures var all, n := BytesBits(st.buf), 8 * |st.buf| - st.unused;
            n >= 0 && st.Bits() == all[..n] && |all| - n == st.unused && (st.ZeroUnused() <==> all[n..] == Zeros(|all| - n))
  {
    hide BytesBits, Zeros;
  }

  /** Seven zero bits and an unused one: the string is empty when trimmed, but not when compacted. */
  lemma UnusedBitCounts()
    ensures var st := BitStr([0x01], 1); st.Valid() && Compact(st.buf).Bits() != Trim(st.Bits())
  {
    var st := BitStr([0x01], 1);
    BytesBitsOne(0x01);
    assert BitsOf(0x01, 8)[7];
    assert st.Bits() == BytesBits(st.buf)[..7];
    assert BytesBits(st.buf)[7..][0];
    CompactIff(st);
  }

  lemma TrimIff(all: seq<bool>, n: nat)
    requires n <= |all|
    ensures Trim(all) == Trim(all[..n]) <==> all[n..] == Zeros(|all| - n)
  {
    hide Trim, Zeros;
    assert all == all[..n] + all[n..];
    if |Trim(all)| <= n {
      OnlyZeros(all, n);
    }
    if all[n..] == Zeros(|all| - n) {
      TrimZeros(all[..n], |all| - n);
    }
  }

  lemma OnlyZeros(all: seq<bool>, n: nat)
    requires |Trim(all)| <= n <= |all|
    ensures all[n..] == Zeros(|all| - n)
  {
    hide Trim;
    var t := Trim(all);
    TrimSplit(all);
    forall i | n <= i < |all| ensures !all[i] {
      assert all[i] == Zeros(|all| - |t|)[i - |t|];
    }
  }

  /** The order of bit strings as if they went on with zeros forever. */
  function BitCmp(x: seq<bool>, y: seq<bool>): (r: int)
    ensures -1 <= r <= 1
    decreases |x| + |y|
  {
    if x == [] && y == [] then 0
    else
      var a, b := x != [] && x[0], y != [] && y[0];
      if a != b then (if a then 1 else -1)
      else BitCmp(if x == [] then [] else x[1..], if y == [] then [] else y[1..])
  }

  lemma {:induction false} BitCmpSwap(x: seq<bool>, y: seq<bool>)
    ensures BitCmp(y, x) == -BitCmp(x, y)
    decreases |x| + |y|
  {
    if x != [] || y != [] {
      BitCmpSwap(if x == [] then [] else x[1..], if y == [] then [] else y[1..]);
    }
  }

  lemma {:induction false} BitCmpTransitive(x: seq<bool>, y: seq<bool>, z: seq<bool>)
    requires BitCmp(x, y) <= 0 && BitCmp(y, z) <= 0
    ensures BitCmp(x, z) <= 0
    decreases |x| + |y| + |z|
  {
    if x != [] || y != [] || z != [] {
      var x', y', z' := Tail(x), Tail(y), Tail(z);
      if BitCmp(x', y') <= 0 && BitCmp(y', z') <= 0 {
        BitCmpTransitive(x', y', z');
      }
    }
  }

  function Tail(x: seq<bool>): seq<bool> {
    if x == [] then [] else x[1..]
  }

  lemma {:induction false} BitCmpZeros(n: nat, y: seq<bool>)
    ensures BitCmp(Zeros(n), y) == BitCmp([], y)
    decreases n + |y|
  {
    if n > 0 || y != [] {
      assert Tail(Zeros(n)) == Zeros(if n == 0 then 0 else n - 1);
      BitCmpZeros(if n == 0 then 0 else n - 1, Tail(y));
    }
  }

  lemma {:induction false} BitCmpPadLeft(x: seq<bool>, n: nat, y: seq<bool>)
    ensures BitCmp(x + Zeros(n), y) == BitCmp(x, y)
    decreases |x|
  {
    if x == [] {
      assert x + Zeros(n) == Zeros(n);
      BitCmpZeros(n, y);
    } else {
      assert (x + Zeros(n))[1..] == x[1..] + Zeros(n);
      BitCmpPadLeft(x[1..], n, Tail(y));
    }
  }

  /** Zeros at the end of either string make no difference. */
  lemma BitCmpPad(x: seq<bool>, m: nat, y: seq<bool>, n: nat)
    ensures BitCmp(x + Zeros(m), y + Zeros(n)) == BitCmp(x, y)
  {
    BitCmpPadLeft(x, m, y + Zeros(n));
    BitCmpSwap(x, y + Zeros(n));
    BitCmpPadLeft(y, n, x);
    BitCmpSwap(x, y);
  }

  lemma {:induction false} BitCmpPrefix(p: seq<bool>, q: seq<bool>, x: seq<bool>, y: seq<bool>)
    requires |p| == |q|
    ensures BitCmp(p + x, q + y) == if BitCmp(p, q) == 0 then BitCmp(x, y) else BitCmp(p, q)
    decreases |p|
  {
    if p == [] {
      assert p + x == x && q + y == y;
    } else {
      assert (p + x)[1..] == p[1..] + x && (q + y)[1..] == q[1..] + y;
      BitCmpPrefix(p[1..], q[1..], x, y);
    }
  }

  function Sign(n: int): int {
    if n < 0 then -1 else if n > 0 then 1 else 0
  }

  lemma {:induction false} BitCmpNumbers(u: nat, v: nat, n: nat)
    requires Shr(u, n) == 0 && Shr(v, n) == 0
    ensures BitCmp(BitsOf(u, n), BitsOf(v, n)) == Sign(u - v)
  {
    if n > 0 {
      BitCmpNumbers(u / 2, v / 2, n - 1);
      BitCmpPrefix(BitsOf(u / 2, n - 1), BitsOf(v / 2, n - 1), [u % 2 == 1], [v % 2 == 1]);
    }
  }

  lemma {:induction false} BitCmpOctets(p: seq<byte>, q: seq<byte>, n: nat)
    requires n <= |p| && n <= |q|
    ensures BitCmp(BytesBits(p[..n]), BytesBits(q[..n])) == MemCmp(p, q, n)
  {
    if n > 0 {
      BitCmpOctets(p, q, n - 1);
      var a, b := p[..n], q[..n];
      assert a[..n - 1] == p[..n - 1] && b[..n - 1] == q[..n - 1];
      BitCmpPrefix(BytesBits(a[..n - 1]), BytesBits(b[..n - 1]), BitsOf(p[n - 1], 8), BitsOf(q[n - 1], 8));
      ShrBound(p[n - 1], 8);
      ShrBound(q[n - 1], 8);
      assert Pow(2, 8) == 256;
      hide BitsOf, BitCmp;
      BitCmpNumbers(p[n - 1], q[n - 1], 8);
    }
  }

  /** A longer string that ends in an octet other than zero is greater. */
  lemma SomeBitSet(t: seq<byte>)
    requires t != [] && t[|t| - 1] != 0
    ensures BitCmp(BytesBits(t), []) == 1
  {
    hide Trim, BitCmp, Zeros, BitsOf, Twos;
    LastBitSet(BytesBits(t[..|t| - 1]), t[|t| - 1]);
    var b := BytesBits(t);
    assert Trim(b) != [];
    hide BytesBits;
    NotAllZero(Trim(b));
    TrimSplit(b);
    BitCmpPadLeft(Trim(b), |b| - |Trim(b)|, []);
  }

  lemma {:induction false} NotAllZero(b: seq<bool>)
    requires b != [] && b[|b| - 1]
    ensures BitCmp(b, []) == 1
  {
    if !b[0] {
      NotAllZero(b[1..]);
    }
  }

  /** BIT_STRING_compare on the compacted strings. */
  function CompactCmp(a: BitStr, b: BitStr): (r: int)
    ensures -1 <= r <= 1
  {
    var c := MemCmp(a.buf, b.buf, Min(|a.buf|, |b.buf|));
    if c != 0 then c
    else if |a.buf| < |b.buf| then -1
    else if |a.buf| > |b.buf| then 1
    else Sign(b.unused - a.unused)
  }

  lemma {:induction false} CompactUnused(buf: seq<byte>)
    ensures var r := Compact(buf); r.unused == if r.buf == [] then 0 else Twos(r.buf[|r.buf| - 1])
  {
    if buf != [] && buf[|buf| - 1] == 0 {
      CompactUnused(buf[..|buf| - 1]);
    }
  }

  /** Between octet strings that do not end in a zero octet, octets and lengths decide as their bits do. */
  lemma OctetsDecide(p: seq<byte>, q: seq<byte>)
    requires (p != [] ==> p[|p| - 1] != 0) && (q != [] ==> q[|q| - 1] != 0)
    ensures Cmp(p, q) == BitCmp(BytesBits(p), BytesBits(q))
  {
    hide BytesBits, BitCmp, MemCmp;
    var n := Min(|p|, |q|);
    assert p == p[..n] + p[n..] && q == q[..n] + q[n..];
    BytesBitsSum(p[..n], p[n..]);
    BytesBitsSum(q[..n], q[n..]);
    BitCmpOctets(p, q, n);
    BitCmpPrefix(BytesBits(p[..n]), BytesBits(q[..n]), BytesBits(p[n..]), BytesBits(q[n..]));
    NoBits();
    if |p| > n {
      SomeBitSet(p[n..]);
    }
    if |q| > n {
      SomeBitSet(q[n..]);
      BitCmpSwap(BytesBits(q[n..]), []);
    }
  }

  lemma NoBits()
    ensures BytesBits([]) == [] && BitCmp([], []) == 0
  {
  }

  /** The count of unused bits never decides. */
  lemma OctetsSuffice(a: seq<byte>, b: seq<byte>)
    ensures CompactCmp(Compact(a), Compact(b)) == Cmp(Compact(a).buf, Compact(b).buf)
  {
    hide Compact, Twos, MemCmp;
    CompactUnused(a);
    CompactUnused(b);
    CmpZero(Compact(a).buf, Compact(b).buf);
  }

  lemma CompactZeros(buf: seq<byte>)
    ensures BytesBits(buf) == BytesBits(Compact(buf).buf) + Zeros(8 * (|buf| - |Compact(buf).buf|))
  {
    CompactTrims(buf);
  }

  /** The comparison is that of all bits of the octets, used or not. */
  lemma CompareOctets(a: seq<byte>, b: seq<byte>)
    ensures CompactCmp(Compact(a), Compact(b)) == BitCmp(BytesBits(a), BytesBits(b))
  {
    hide BytesBits, BitCmp, Compact, CompactCmp, Cmp, Zeros;
    var x, y := Compact(a).buf, Compact(b).buf;
    OctetsSuffice(a, b);
    CompactZeros(a);
    CompactZeros(b);
    OctetsDecide(x, y);
    BitCmpPad(BytesBits(x), 8 * (|a| - |x|), BytesBits(y), 8 * (|b| - |y|));
  }

  /** For strings whose unused bits are zero it is the order of the bit strings themselves. */
  lemma CompareBits(a: BitStr, b: BitStr)
    requires a.Valid() && b.Valid() && a.ZeroUnused() && b.ZeroUnused()
    ensures CompactCmp(Compact(a.buf), Compact(b.buf)) == BitCmp(a.Bits(), b.Bits())
  {
    hide BytesBits, BitCmp, Compact, CompactCmp;
    CompareOctets(a.buf, b.buf);
    assert BytesBits(a.buf) == a.Bits() + Zeros(a.unused);
    assert BytesBits(b.buf) == b.Bits() + Zeros(b.unused);
    BitCmpPad(a.Bits(), a.unused, b.Bits(), b.unused);
  }

  lemma {:induction false} TrimmedEqual(x: seq<bool>, y: seq<bool>)
    requires (x == [] || x[|x| - 1]) && (y == [] || y[|y| - 1]) && BitCmp(x, y) == 0
    ensures x == y
    decreases |x| + |y|
  {
    if x == [] || y == [] {
      if x != [] {
        NotAllZero(x);
      }
      if y != [] {
        NotAllZero(y);
        BitCmpSwap(y, []);
      }
    } else {
      TrimmedEqual(x[1..], y[1..]);
      assert x == [x[0]] + x[1..] && y == [y[0]] + y[1..];
    }
  }

  lemma {:induction false} BitCmpSame(x: seq<bool>)
    ensures BitCmp(x, x) == 0
  {
    if x != [] {
      BitCmpSame(x[1..]);
    }
  }

  /** Two strings are equal in this order exactly when they agree without their trailing zero bits. */
  lemma EqualIff(x: seq<bool>, y: seq<bool>)
    ensures BitCmp(x, y) == 0 <==> Trim(x) == Trim(y)
  {
    hide BitCmp, Trim;
    TrimSplit(x);
    TrimSplit(y);
    BitCmpPad(Trim(x), |x| - |Trim(x)|, Trim(y), |y| - |Trim(y)|);
    BitCmpSame(Trim(x));
    if BitCmp(x, y) == 0 {
      TrimmedEqual(Trim(x), Trim(y));
    }
  }

  /** BIT_STRING_compare. */
  method Compare(a: BitStr, b: BitStr) returns (r: int)
    requires a.Valid() && b.Valid()
    ensures r == BitCmp(BytesBits(a.buf), BytesBits(b.buf))
    ensures a.ZeroUnused() && b.ZeroUnused() ==> r == BitCmp(a.Bits(), b.Bits())
  {
    var x := Compactify(a);
    var y := Compactify(b);
    CompareOctets(a.buf, b.buf);
    if a.ZeroUnused() && b.ZeroUnused() {
      CompareBits(a, b);
    }
    hide MemCmp, Compact, BytesBits, BitCmp;
    var commonPrefixSize := if |x.buf| <= |y.buf| then |x.buf| else |y.buf|;
    r := MemCmp(x.buf, y.buf, commonPrefixSize);
    if r == 0 {
      if |x.buf| < |y.buf| {
        return -1;
      } else if |x.buf| > |y.buf| {
        return 1;
      } else if x.unused > y.unused {
        return -1;
      } else if x.unused < y.unused {
        return 1;
      }
    }
  }
}
