/** Bit sequences, most significant bit first, and the shifts and masks of the source. */
module Bits {
  import opened Arith
  import Base256

  /** v >> n */
  function Shr(v: nat, n: nat): nat {
    if n == 0 then v else Shr(v / 2, n - 1)
  }

  /** v << n */
  function Shl(v: nat, n: nat): nat {
    if n == 0 then v else 2 * Shl(v, n - 1)
  }

  /** v & ((1 << n) - 1) */
  function Low(v: nat, n: nat): nat {
    if n == 0 then 0 else 2 * Low(v / 2, n - 1) + v % 2
  }

  /** hi | lo, where hi has no bits below n and lo has none from n on. */
  function Or(hi: nat, lo: nat, n: nat): nat
    requires Low(hi, n) == 0 && Shr(lo, n) == 0
  {
    hi + lo
  }

  /** The n low bits of v. */
  function BitsOf(v: nat, n: nat): (b: seq<bool>)
    ensures |b| == n
  {
    if n == 0 then [] else BitsOf(v / 2, n - 1) + [v % 2 == 1]
  }

  /** The number that a bit sequence denotes. */
  function Num(b: seq<bool>): nat {
    if b == [] then 0 else 2 * Num(b[..|b| - 1]) + (if b[|b| - 1] then 1 else 0)
  }

  function Zeros(n: nat): (b: seq<bool>)
    ensures |b| == n && forall i :: 0 <= i < n ==> !b[i]
  {
    seq(n, _ => false)
  }

  function BytesBits(s: seq<byte>): (b: seq<bool>)
    ensures |b| == 8 * |s|
  {
    if s == [] then [] else BytesBits(s[..|s| - 1]) + BitsOf(s[|s| - 1], 8)
  }

  lemma {:induction false} BitsOfSplit(v: nat, m: nat, n: nat)
    ensures BitsOf(v, m + n) == BitsOf(Shr(v, n), m) + BitsOf(v, n)
  {
    if n > 0 {
      BitsOfSplit(v / 2, m, n - 1);
    }
  }

  lemma {:induction false} BitsOfLow(v: nat, n: nat)
    ensures BitsOf(Low(v, n), n) == BitsOf(v, n)
    ensures Shr(Low(v, n), n) == 0
  {
    if n > 0 {
      BitsOfLow(v / 2, n - 1);
    }
  }

  lemma {:induction false} LowIsNum(v: nat, n: nat)
    ensures Low(v, n) == Num(BitsOf(v, n))
  {
    if n > 0 {
      LowIsNum(v / 2, n - 1);
      assert BitsOf(v, n)[..n - 1] == BitsOf(v / 2, n - 1);
    }
  }

  /** A number without bits from n on is the number of its n low bits. */
  lemma {:induction false} LowOfSmall(v: nat, n: nat)
    requires Shr(v, n) == 0
    ensures Low(v, n) == v
  {
    if n > 0 {
      LowOfSmall(v / 2, n - 1);
    }
  }

  lemma {:induction false} ShlLow(v: nat, n: nat)
    ensures Low(Shl(v, n), n) == 0 && Shr(Shl(v, n), n) == v
  {
    if n > 0 {
      ShlLow(v, n - 1);
    }
  }

  lemma {:induction false} ShrBound(v: nat, n: nat)
    ensures Shr(v, n) == 0 <==> v < Pow(2, n)
  {
    if n > 0 {
      ShrBound(v / 2, n - 1);
    }
  }

  lemma {:induction false} ShrShr(v: nat, m: nat, n: nat)
    ensures Shr(Shr(v, m), n) == Shr(v, m + n)
  {
    if m > 0 {
      ShrShr(v / 2, m - 1, n);
    }
  }

  /** Joining disjoint parts joins their bits. */
  lemma {:induction false} BitsOfOr(h: nat, lo: nat, m: nat, n: nat)
    requires Shr(lo, n) == 0
    ensures BitsOf(Shl(h, n) + lo, m + n) == BitsOf(h, m) + BitsOf(lo, n)
  {
    if n > 0 {
      assert (Shl(h, n) + lo) / 2 == Shl(h, n - 1) + lo / 2;
      BitsOfOr(h, lo / 2, m, n - 1);
    }
  }

  lemma {:induction false} BitsOfZero(n: nat)
    ensures BitsOf(0, n) == Zeros(n)
  {
    if n > 0 {
      BitsOfZero(n - 1);
    }
  }

  lemma BitsOfShl(v: nat, m: nat, n: nat)
    ensures BitsOf(Shl(v, n), m + n) == BitsOf(v, m) + Zeros(n)
  {
    BitsOfZero(n);
    ZeroShr(n);
    BitsOfOr(v, 0, m, n);
  }

  lemma {:induction false} ZeroShr(n: nat)
    ensures Shr(0, n) == 0
  {
    if n > 0 {
      ZeroShr(n - 1);
    }
  }

  /** Storing into an octet keeps the eight low bits. */
  lemma BitsOfOctet(v: nat)
    ensures BitsOf(v % 256, 8) == BitsOf(v, 8)
  {
    BitsOfMod(v, 8, 256);
  }

  lemma {:induction false} BitsOfMod(v: nat, n: nat, m: nat)
    requires m == Pow(2, n)
    ensures BitsOf(v % m, n) == BitsOf(v, n)
  {
    if n > 0 {
      var k := m / 2;
      HalfMod(v, k);
      BitsOfMod(v / 2, n - 1, k);
    }
  }

  lemma HalfMod(v: nat, k: nat)
    requires k > 0
    ensures (v % (2 * k)) / 2 == (v / 2) % k && (v % (2 * k)) % 2 == v % 2
  {
    var q, r := v / (2 * k), v % (2 * k);
    assert v == q * (2 * k) + r == 2 * (q * k) + r;
    assert v / 2 == q * k + r / 2;
    DivModUnique(v / 2, k, q, r / 2);
  }

  lemma {:induction false} NumBits(b: seq<bool>)
    ensures BitsOf(Num(b), |b|) == b
  {
    if b != [] {
      NumBits(b[..|b| - 1]);
    }
  }

  lemma {:induction false} NumBound(b: seq<bool>)
    ensures Shr(Num(b), |b|) == 0
  {
    if b != [] {
      NumBound(b[..|b| - 1]);
    }
  }

  lemma {:induction false} BytesBitsSum(s: seq<byte>, t: seq<byte>)
    ensures BytesBits(s + t) == BytesBits(s) + BytesBits(t)
  {
    hide BitsOf;
    if t == [] {
      assert s + t == s;
    } else {
      var u, x := t[..|t| - 1], t[|t| - 1];
      BytesBitsSum(s, u);
      BytesBitsNext(s + u, x);
      assert s + t == s + u + [x];
    }
  }

  lemma BytesBitsNext(s: seq<byte>, x: byte)
    ensures BytesBits(s + [x]) == BytesBits(s) + BitsOf(x, 8)
  {
    hide BitsOf;
    assert (s + [x])[..|s|] == s;
  }

  lemma BytesBitsOne(x: byte)
    ensures BytesBits([x]) == BitsOf(x, 8)
  {
    var s := [x];
    assert s[..0] == [];
  }

  lemma ShlOctet(v: nat)
    ensures Shl(v, 8) == 256 * v
  {
    assert Shl(v, 0) == v;
    assert Shl(v, 2) == 4 * Shl(v, 0);
    assert Shl(v, 4) == 4 * Shl(v, 2);
    assert Shl(v, 6) == 4 * Shl(v, 4);
    assert Shl(v, 8) == 4 * Shl(v, 6);
  }

  lemma {:induction false} ValueBits(s: seq<byte>)
    ensures BitsOf(Base256.Value(s), 8 * |s|) == BytesBits(s)
  {
    if s != [] {
      var n := |s| - 1;
      var v := Base256.Value(s[..n]);
      ValueBits(s[..n]);
      ShlOctet(v);
      ShrBound(s[n], 8);
      assert Pow(2, 8) == 256;
      BitsOfOr(v, s[n], 8 * n, 8);
    }
  }

  lemma {:induction false} NumSum(a: seq<bool>, b: seq<bool>)
    ensures Num(a + b) == Shl(Num(a), |b|) + Num(b)
  {
    if b == [] {
      assert a + b == a;
    } else {
      var n := |b| - 1;
      NumSum(a, b[..n]);
      assert (a + b)[..|a| + n] == a + b[..n];
    }
  }

  /** How many octets the first off bits reach. */
  function Reach(off: nat): nat {
    (off + 7) / 8
  }

  /** The n low octets of w, most significant first. */
  function LowOctets(w: nat, n: nat): (s: seq<byte>)
    ensures |s| == n
    decreases n
  {
    if n == 0 then [] else LowOctets(Shr(w, 8), n - 1) + [w % 256]
  }

  lemma {:induction false} LowOctetsBits(w: nat, n: nat)
    ensures BytesBits(LowOctets(w, n)) == BitsOf(w, 8 * n)
    decreases n
  {
    if n > 0 {
      LowOctetsBits(Shr(w, 8), n - 1);
      BytesBitsSum(LowOctets(Shr(w, 8), n - 1), [w % 256]);
      BytesBitsOne(w % 256);
      BitsOfOctet(w);
      BitsOfSplit(w, 8 * n - 8, 8);
    }
  }

  lemma LowOctetsFew(w: nat)
    ensures LowOctets(w, 1) == [w % 256]
    ensures LowOctets(w, 2) == [Shr(w, 8) % 256, w % 256]
    ensures LowOctets(w, 3) == [Shr(w, 16) % 256, Shr(w, 8) % 256, w % 256]
  {
    ShrShr(w, 8, 8);
    hide Shr;
    assert LowOctets(Shr(w, 16), 1) == [Shr(w, 16) % 256];
    assert LowOctets(Shr(w, 8), 2) == [Shr(w, 16) % 256, Shr(w, 8) % 256];
  }

  /** Octet strings with the same bits are the same. */
  lemma {:induction false} BytesBitsInjective(s: seq<byte>, t: seq<byte>)
    requires BytesBits(s) == BytesBits(t)
    ensures s == t
  {
    if s != [] && t != [] {
      var m, n := |s| - 1, |t| - 1;
      var a, b := BytesBits(s[..m]), BytesBits(t[..n]);
      assert |BytesBits(s)| == 8 * |s| && |BytesBits(t)| == 8 * |t|;
      assert BytesBits(s)[..8 * m] == a && BytesBits(t)[..8 * n] == b;
      BytesBitsInjective(s[..m], t[..n]);
      assert BytesBits(s)[8 * m..] == BitsOf(s[m], 8) && BytesBits(t)[8 * n..] == BitsOf(t[n], 8);
      OctetInjective(s[m], t[n]);
      assert s == s[..m] + [s[m]] && t == t[..n] + [t[n]];
    }
  }

  lemma OctetInjective(x: byte, y: byte)
    requires BitsOf(x, 8) == BitsOf(y, 8)
    ensures x == y
  {
    hide BitsOf, Low, Num;
    ShrBound(x, 8);
    ShrBound(y, 8);
    assert Pow(2, 8) == 256;
    LowOfSmall(x, 8);
    LowOfSmall(y, 8);
    LowIsNum(x, 8);
    LowIsNum(y, 8);
  }

  /** How many times v can be halved. */
  function Twos(v: nat): nat
    requires v > 0
  {
    if v % 2 == 1 then 0 else 1 + Twos(v / 2)
  }

  lemma OneBit(b: bool)
    ensures BitsOf(if b then 1 else 0, 1) == [b]
    ensures Num([b]) == if b then 1 else 0
  {
    var s := [b];
    assert s[..0] == [];
  }

  /** Undoing a shift that lost no bits. */
  lemma {:induction false} ShlShr(v: nat, n: nat)
    requires Low(v, n) == 0
    ensures Shl(Shr(v, n), n) == v
    decreases n
  {
    if n > 0 {
      ShlShr(v / 2, n - 1);
    }
  }
}
