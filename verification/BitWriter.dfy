/** The bit writer with its 32-octet window: the output half of asn1/asn_bit_data.c. */
module BitWriter {
  import opened Arith
  import opened Bits
  import opened Base256

  const WINDOW := 32

  /** mem[pos..] & ~mask: the nboff bits already in use of an octet, the others zero. */
  function Keep(x: byte, nboff: nat): (k: nat)
    requires nboff < 8
  {
    Shl(Shr(x, 8 - nboff), 8 - nboff)
  }

  /** The octets that put the obits bits of v behind the nboff bits in use of first. */
  function Field(first: byte, nboff: nat, v: nat, obits: nat): (f: seq<int>)
    requires nboff < 8 && 0 < obits
    ensures |f| == Reach(nboff + obits)
  {
    var k := Reach(nboff + obits);
    var w := Shl(v, 8 * k - nboff - obits);
    [Keep(first, nboff) + Shr(w, 8 * k - 8)] + LowOctets(w, k - 1)
  }

  lemma KeepBits(x: byte, nboff: nat, lo: nat)
    requires nboff < 8 && Shr(lo, 8 - nboff) == 0
    ensures Keep(x, nboff) + lo < 256
    ensures Low(Keep(x, nboff), 8 - nboff) == 0
    ensures BitsOf(Keep(x, nboff) + lo, 8) == BitsOf(x, 8)[..nboff] + BitsOf(lo, 8 - nboff)
  {
    hide Shr, Shl, Low, BitsOf;
    var k := 8 - nboff;
    ShlLow(Shr(x, k), k);
    BitsOfOr(Shr(x, k), lo, nboff, k);
    BitsOfSplit(x, nboff, k);
    KeepBound(x, nboff, lo);
  }

  lemma KeepBound(x: byte, nboff: nat, lo: nat)
    requires nboff < 8 && Shr(lo, 8 - nboff) == 0
    ensures Keep(x, nboff) + lo < 256
  {
    var k := 8 - nboff;
    ShrBound(x, 8);
    assert Pow(2, 8) == 256;
    ShrShr(x, k, nboff);
    ShrOfOr(Shr(x, k), lo, k);
    ShrShr(Shl(Shr(x, k), k) + lo, k, nboff);
    ShrBound(Shl(Shr(x, k), k) + lo, 8);
  }

  lemma {:induction false} ShrOfOr(h: nat, lo: nat, n: nat)
    requires Shr(lo, n) == 0
    ensures Shr(Shl(h, n) + lo, n) == h
  {
    if n > 0 {
      assert (Shl(h, n) + lo) / 2 == Shl(h, n - 1) + lo / 2;
      ShrOfOr(h, lo / 2, n - 1);
    }
  }

  /** A shifted field has no bits beyond its place. */
  lemma ShlBound(v: nat, obits: nat, n: nat)
    requires Shr(v, obits) == 0
    ensures Shr(Shl(v, n), obits + n) == 0
  {
    ShlLow(v, n);
    ShrShr(Shl(v, n), n, obits);
  }

  /** What the octets of a field hold: the kept bits, the field and zeros. */
  lemma FieldBits(first: byte, nboff: nat, v: nat, obits: nat)
    requires nboff < 8 && 0 < obits && Shr(v, obits) == 0
    ensures var f, off := Field(first, nboff, v, obits), nboff + obits;
            && (forall k :: 0 <= k < |f| ==> 0 <= f[k] < 256)
            && BytesBits(f) == BitsOf(first, 8)[..nboff] + BitsOf(v, obits) + Zeros(8 * Reach(off) - off)
  {
    hide Shr, Shl, BitsOf, Zeros, BytesBits, LowOctets, Keep;
    FieldOctets(first, nboff, v, obits, Reach(nboff + obits));
  }

  /** The octets of a field in k octets, of which the first one keeps nboff bits. */
  lemma FieldOctets(first: byte, nboff: nat, v: nat, obits: nat, k: nat)
    requires nboff < 8 && Shr(v, obits) == 0 && 0 < k && nboff + obits <= 8 * k
    ensures var fill := 8 * k - nboff - obits;
            var w := Shl(v, fill);
            var x := Keep(first, nboff) + Shr(w, 8 * k - 8);
            && 0 <= x < 256
            && BytesBits([x] + LowOctets(w, k - 1)) == BitsOf(first, 8)[..nboff] + BitsOf(v, obits) + Zeros(fill)
  {
    hide Shr, Shl, BitsOf, Zeros, BytesBits, LowOctets, Keep;
    var fill := 8 * k - nboff - obits;
    var w := Shl(v, fill);
    ShlBound(v, obits, fill);
    BitsOfShl(v, obits, fill);
    ShrShr(w, 8 * k - 8, 8 - nboff);
    KeepBits(first, nboff, Shr(w, 8 * k - 8));
    BitsOfSplit(w, 8 - nboff, 8 * k - 8);
    var x := Keep(first, nboff) + Shr(w, 8 * k - 8);
    LowOctetsBits(w, k - 1);
    BytesBitsSum([x], LowOctets(w, k - 1));
    BytesBitsOne(x);
    Regroup(BitsOf(first, 8)[..nboff], BitsOf(Shr(w, 8 * k - 8), 8 - nboff), BitsOf(w, 8 * k - 8), BitsOf(v, obits), Zeros(fill));
  }

  lemma Regroup(p: seq<bool>, a: seq<bool>, b: seq<bool>, c: seq<bool>, d: seq<bool>)
    requires a + b == c + d
    ensures p + a + b == p + c + d
  {
    Assoc(p, a, b);
    Assoc(p, c, d);
  }

  /** The bits up to n of an octet string. */
  function Prefix(s: seq<byte>, n: nat): seq<bool>
    requires n <= 8 * |s|
  {
    BytesBits(s)[..n]
  }

  lemma PrefixSplit(a: seq<byte>, b: seq<byte>, n: nat)
    requires n <= 8 * |b|
    ensures Prefix(a + b, 8 * |a| + n) == BytesBits(a) + Prefix(b, n)
  {
    hide BytesBits;
    BytesBitsSum(a, b);
    TakeMore(BytesBits(a), BytesBits(b), n);
  }

  lemma TakeMore<T>(a: seq<T>, b: seq<T>, n: nat)
    requires n <= |b|
    ensures (a + b)[..|a| + n] == a + b[..n]
  {
  }

  lemma PrefixShort(a: seq<byte>, b: seq<byte>, n: nat)
    requires n <= 8 * |a|
    ensures Prefix(a + b, n) == BytesBits(a)[..n]
  {
    hide BytesBits;
    BytesBitsSum(a, b);
  }

  /** The bits before position 8 * pos + nboff are the octets before pos and bits of the octet there. */
  lemma PrefixAt(s: seq<byte>, pos: nat, nboff: nat)
    requires nboff <= 8 && pos < |s|
    ensures Prefix(s, 8 * pos + nboff) == BytesBits(s[..pos]) + BitsOf(s[pos], 8)[..nboff]
  {
    hide BytesBits;
    PrefixSplit(s[..pos], s[pos..], nboff);
    assert s == s[..pos] + s[pos..];
    PrefixShort([s[pos]], s[pos + 1..], nboff);
    assert s[pos..] == [s[pos]] + s[pos + 1..];
    BytesBitsOne(s[pos]);
  }

  lemma PrefixEmpty(s: seq<byte>, pos: nat, now: seq<byte>)
    requires pos <= |s|
    ensures Prefix(s, 8 * pos) == BytesBits(s[..pos]) && Prefix(now, 0) == [] && BytesBits(now[..0]) == []
  {
    PrefixShort(s[..pos], s[pos..], 8 * pos);
    assert s == s[..pos] + s[pos..];
  }

  /** Replacing octets of a string behind its first bits by a field appends the field. */
  lemma PrefixStore(s: seq<byte>, pos: nat, nboff: nat, f: seq<byte>, field: seq<bool>, pad: seq<bool>, now: seq<byte>)
    requires nboff < 8 && pos + |f| <= |s| == |now| && f != [] && now == s[..pos] + (f + now[pos + |f|..])
    requires BytesBits(f) == BitsOf(s[pos], 8)[..nboff] + field + pad
    ensures 8 * pos + nboff + |field| <= 8 * |s|
    ensures Prefix(now, 8 * pos + nboff + |field|) == Prefix(s, 8 * pos + nboff) + field
  {
    hide BytesBits, BitsOf, Prefix;
    var n, rest := nboff + |field|, now[pos + |f|..];
    PrefixAt(s, pos, nboff);
    PrefixSplit(s[..pos], f + rest, n);
    PrefixShort(f, rest, n);
    var p := BitsOf(s[pos], 8)[..nboff];
    assert (p + field + pad)[..n] == p + field;
  }

  class BitOutp {
    var attached: bool            // whether buffer points into tmpspace yet
    var pos: nat                  // buffer - tmpspace
    var nboff: nat
    var nbits: nat
    const tmpspace: array<byte>
    var output: seq<byte>         // what the callback received
    var flushed: nat              // flushed_bytes

    ghost predicate Valid()
      reads this
    {
      && tmpspace.Length == WINDOW && flushed == |output|
      && (if attached then 8 * pos + nbits == 8 * WINDOW && nboff <= nbits else pos == nboff == nbits == 0)
    }

    /** Everything written so far: the octets put out and the bits pending in the window. */
    ghost function Written(): seq<bool>
      reads this, tmpspace
      requires Valid()
    {
      BytesBits(output) + Prefix(tmpspace[..], 8 * pos + nboff)
    }

    /** A zeroed writer. */
    constructor ()
      ensures Valid() && fresh(tmpspace) && Written() == [] && output == []
    {
      attached, pos, nboff, nbits, output, flushed := false, 0, 0, 0, [], 0;
      tmpspace := new byte[WINDOW](_ => 0);
    }

    method Normalize()
      requires Valid()
      modifies this
      ensures Valid() && Written() == old(Written()) && nboff < 8
      ensures output == old(output)
    {
      if nboff >= 8 {
        pos := pos + nboff / 8;
        nbits := nbits - nboff / 8 * 8;
        nboff := nboff % 8;
      }
    }

    /** Puts out the complete octets and moves a partial one to the front of the window. */
    method FlushComplete()
      requires Valid() && nboff < 8
      modifies this, tmpspace
      ensures Valid() && Written() == old(Written())
      ensures attached && pos == 0 && nboff == old(nboff) && nbits == 8 * WINDOW
    {
      hide BitsOf, BytesBits, Prefix;
      attached := true;
      var complete := pos;
      ghost var mem := tmpspace[..];
      assert tmpspace[..complete] == mem[..complete];
      output := output + tmpspace[..complete];
      BytesBitsSum(old(output), mem[..complete]);
      if nboff > 0 {
        PrefixAt(mem, complete, nboff);
        tmpspace[0] := tmpspace[complete];
        PrefixAt(tmpspace[..], 0, nboff);
      } else {
        PrefixEmpty(mem, complete, tmpspace[..]);
      }
      pos, nbits, flushed := 0, 8 * WINDOW, flushed + complete;
    }

    /** Stores a field at the current position. */
    method Store(f: seq<byte>, ghost v: nat, obits: nat)
      requires Valid() && attached && nboff < 8 && 0 < obits && nboff + obits <= nbits && Shr(v, obits) == 0
      requires f == Field(tmpspace[pos], nboff, v, obits)
      modifies this`nboff, tmpspace
      ensures nboff == old(nboff) + obits && Valid()
      ensures Written() == old(Written()) + BitsOf(v, obits)
    {
      hide BitsOf, BytesBits, Prefix, Field, Zeros;
      var off := nboff + obits;
      ghost var mem := tmpspace[..];
      FieldBits(tmpspace[pos], nboff, v, obits);
      forall i | 0 <= i < |f| {
        tmpspace[pos + i] := f[i];
      }
      assert tmpspace[..] == mem[..pos] + (f + tmpspace[..][pos + |f|..]);
      PrefixStore(mem, pos, nboff, f, BitsOf(v, obits), Zeros(8 * Reach(off) - off), tmpspace[..]);
      nboff := off;
    }

    /** The branches for fields that end within four octets. */
    method PutField(bits: nat, obits: nat)
      requires Valid() && attached && nboff < 8 && 0 < obits && Shr(bits, obits) == 0
      requires nboff + obits <= nbits && nboff + obits <= 31
      modifies this`nboff, tmpspace
      ensures Valid() && Written() == old(Written()) + BitsOf(bits, obits)
    {
      hide BitsOf, BytesBits, Prefix, Shr, Shl, Low, Keep, LowOctets, Field;
      var off, first := nboff + obits, tmpspace[pos];
      FieldBits(first, nboff, bits, obits);
      FieldParts(first, nboff, bits, obits);
      ghost var f := Field(first, nboff, bits, obits);
      assert f == [f[0]] + f[1..];
      if off <= 8 {
        var w := Shl(bits, 8 - off);
        Store([Or(Keep(first, nboff), w, 8 - nboff)], bits, obits);
      } else if off <= 16 {
        var w := Shl(bits, 16 - off);
        Store([Or(Keep(first, nboff), Shr(w, 8), 8 - nboff), w % 256], bits, obits);
      } else if off <= 24 {
        var w := Shl(bits, 24 - off);
        Store([Or(Keep(first, nboff), Shr(w, 16), 8 - nboff), Shr(w, 8) % 256, w % 256], bits, obits);
      } else {
        var w := Shl(bits, 32 - off);
        Store([Or(Keep(first, nboff), Shr(w, 24), 8 - nboff), Shr(w, 16) % 256, Shr(w, 8) % 256, w % 256], bits, obits);
      }
    }

    /** Puts 1 to 31 bits; the bits of v above them are ignored. */
    method PutFewBits(v: nat, obits: int) returns (ret: int)
      requires Valid()
      modifies this, tmpspace
      ensures Valid()
      ensures ret == if 0 <= obits < 32 then 0 else -1
      ensures Written() == old(Written()) + if ret == 0 then BitsOf(v, obits) else []
      decreases obits
    {
      hide BitsOf, BytesBits, Prefix, Shr, Low;
      if obits <= 0 || obits >= 32 {
        return if obits == 0 then 0 else -1;
      }
      Normalize();
      if nboff + obits > nbits {
        FlushComplete();
      }
      var bits := Low(v, obits);
      BitsOfLow(v, obits);
      if nboff + obits <= 31 {
        PutField(bits, obits);
      } else {
        BitsOfSplit(bits, 24, obits - 24);
        var r := PutFewBits(Shr(bits, obits - 24), 24);
        r := PutFewBits(bits, obits - 24);
      }
      ret := 0;
    }

    /** The rest of less than 24 bits. */
    method PutTail(s: seq<byte>, left: nat)
      requires Valid() && 0 < left < 24 && left <= 8 * |s|
      modifies this, tmpspace
      ensures Valid() && Written() == old(Written()) + BytesBits(s)[..left]
    {
      hide BitsOf, BytesBits, Prefix;
      var value: nat := s[0];
      if left > 8 {
        value := Join(value, s[1]);
      }
      if left > 16 {
        value := Join(value, s[2]);
      }
      TailValue(s, left, value);
      if left % 8 > 0 {
        value := Shr(value, 8 - left % 8);
      }
      var r := PutFewBits(value, left);
    }

    /** Puts the first nbits bits of src, in fields of 24 bits and a rest. */
    method PutManyBits(src: seq<byte>, nbits: nat) returns (ret: int)
      requires Valid() && nbits <= 8 * |src|
      modifies this, tmpspace
      ensures Valid() && ret == 0
      ensures Written() == old(Written()) + BytesBits(src)[..nbits]
    {
      hide BitsOf, BytesBits, Prefix, Join;
      var left, s := nbits, src;
      ghost var goal := old(Written()) + BytesBits(src)[..nbits];
      while left >= 24
        invariant Valid() && 0 <= left <= 8 * |s|
        invariant Written() + BytesBits(s)[..left] == goal
        decreases left
      {
        var value := Join(Join(s[0], s[1]), s[2]);
        TakeField(s, left, 24);
        ValueOf3(s[..3]);
        Assoc(Written(), BytesBits(s)[..24], BytesBits(s[3..])[..left - 24]);
        var r := PutFewBits(value, 24);
        s, left := s[3..], left - 24;
      }
      if left > 0 {
        PutTail(s, left);
      }
      ret := 0;
    }

    /** Zeroes the bits of the last octet that are not in use. */
    method ClearUnused()
      requires Valid()
      modifies tmpspace
      ensures Valid()
      ensures var n, k := 8 * pos + nboff, pos + Reach(nboff);
              k <= WINDOW && BytesBits(tmpspace[..k]) == old(Prefix(tmpspace[..], 8 * pos + nboff)) + Zeros(8 * k - n)
    {
      hide BitsOf, BytesBits, Prefix, Zeros;
      var unused := (8 - nboff % 8) % 8;
      ghost var mem := tmpspace[..];
      if unused > 0 {
        var last := pos + nboff / 8;
        ZeroShr(unused);
        KeepBits(tmpspace[last], nboff % 8, 0);
        tmpspace[last] := Keep(tmpspace[last], nboff % 8);
        FlushedPartial(mem, last, nboff % 8, tmpspace[..]);
        assert tmpspace[..last + 1] == tmpspace[..][..last + 1];
      } else {
        FlushedWhole(mem, pos + nboff / 8);
        assert tmpspace[..pos + nboff / 8] == mem[..pos + nboff / 8];
      }
    }

    /** Puts out everything, the last octet filled up with zeros. */
    method AlignedFlush() returns (ret: int)
      requires Valid()
      modifies this, tmpspace
      ensures Valid() && ret == 0 && attached && pos == nboff == 0
      ensures var n := |old(Written())|;
              BytesBits(output) == old(Written()) + Zeros(8 * Reach(n) - n)
      ensures Written() == BytesBits(output) && flushed == |output|
    {
      hide BitsOf, BytesBits, Zeros;
      var complete := pos + (nboff + 7) / 8;
      ReachSum(|output|, pos, nboff);
      ghost var pending := Prefix(tmpspace[..], 8 * pos + nboff);
      hide Prefix, Reach;
      ClearUnused();
      BytesBitsSum(output, tmpspace[..complete]);
      Assoc(BytesBits(output), pending, Zeros(8 * complete - (8 * pos + nboff)));
      output := output + tmpspace[..complete];
      attached, pos, nboff, nbits, flushed := true, 0, 0, 8 * WINDOW, flushed + complete;
      PrefixEmpty(tmpspace[..], 0, tmpspace[..]);
      ret := 0;
    }
  }

  lemma Assoc(a: seq<bool>, b: seq<bool>, c: seq<bool>)
    ensures a + (b + c) == a + b + c
  {
  }

  lemma ReachSum(m: nat, pos: nat, nboff: nat)
    ensures Reach(8 * m + (8 * pos + nboff)) == m + pos + Reach(nboff) && Reach(nboff) == (nboff + 7) / 8
  {
  }

  /** A field of n whole-octet bits at the start of s and what remains. */
  lemma TakeField(s: seq<byte>, left: nat, n: nat)
    requires n == 24 && n <= left <= 8 * |s|
    ensures BitsOf(Base256.Value(s[..3]), 24) == BytesBits(s)[..24]
    ensures BytesBits(s)[..left] == BytesBits(s)[..24] + BytesBits(s[3..])[..left - 24]
  {
    hide BitsOf, BytesBits;
    ValueBits(s[..3]);
    BytesBitsSum(s[..3], s[3..]);
    assert s == s[..3] + s[3..];
    TakeMore(BytesBits(s[..3]), BytesBits(s[3..]), left - 24);
    TakeMore(BytesBits(s[..3]), BytesBits(s[3..]), 0);
  }

  /** The last field: the value gathered from one to three octets, shifted to its place. */
  lemma TailValue(s: seq<byte>, left: nat, value: nat)
    requires 0 < left < 24 && left <= 8 * |s|
    requires value == if left <= 8 then s[0] else if left <= 16 then Join(s[0], s[1]) else Join(Join(s[0], s[1]), s[2])
    ensures BitsOf(if left % 8 > 0 then Shr(value, 8 - left % 8) else value, left) == BytesBits(s)[..left]
  {
    hide BitsOf, BytesBits, Shr;
    var k := Reach(left);
    if k == 1 {
      ValueOf1(s[..1]);
    } else if k == 2 {
      ValueOf2(s[..2]);
    } else {
      ValueOf3(s[..3]);
    }
    ValueBits(s[..k]);
    BytesBitsSum(s[..k], s[k..]);
    assert s == s[..k] + s[k..];
    BitsOfSplit(value, left, 8 * k - left);
  }

  lemma FlushedPartial(mem: seq<byte>, last: nat, r: nat, now: seq<byte>)
    requires last < |mem| == |now| && 0 < r < 8
    requires now == mem[last := now[last]]
    requires BitsOf(now[last], 8) == BitsOf(mem[last], 8)[..r] + BitsOf(0, 8 - r)
    ensures BytesBits(now[..last + 1]) == Prefix(mem, 8 * last + r) + Zeros(8 - r)
  {
    hide BitsOf, BytesBits, Prefix;
    PrefixAt(mem, last, r);
    BitsOfZero(8 - r);
    assert now[..last + 1] == mem[..last] + [now[last]];
    BytesBitsSum(mem[..last], [now[last]]);
    BytesBitsOne(now[last]);
  }

  lemma FlushedWhole(mem: seq<byte>, n: nat)
    requires n <= |mem|
    ensures BytesBits(mem[..n]) == Prefix(mem, 8 * n)
  {
    PrefixEmpty(mem, n, mem);
  }

  /** The octets of a field one by one; its first octet joins disjoint bits. */
  lemma FieldParts(first: byte, nboff: nat, v: nat, obits: nat)
    requires nboff < 8 && 0 < obits && Shr(v, obits) == 0
    ensures Low(Keep(first, nboff), 8 - nboff) == 0
    ensures var off := nboff + obits;
            var k := Reach(off);
            var w, f := Shl(v, 8 * k - off), Field(first, nboff, v, obits);
            && Shr(Shr(w, 8 * k - 8), 8 - nboff) == 0
            && f[0] == Keep(first, nboff) + Shr(w, 8 * k - 8)
            && f[1..] == LowOctets(w, k - 1)
            && (k == 1 ==> Shr(w, 0) == w && f[1..] == [])
            && (k == 2 ==> f[1..] == [w % 256])
            && (k == 3 ==> f[1..] == [Shr(w, 8) % 256, w % 256])
            && (k == 4 ==> f[1..] == [Shr(w, 16) % 256, Shr(w, 8) % 256, w % 256])
  {
    hide Shr, Shl, Low, Keep, LowOctets;
    var off := nboff + obits;
    var k := Reach(off);
    var w := Shl(v, 8 * k - off);
    KeepLow(first, nboff);
    ShlBound(v, obits, 8 * k - off);
    ShrShr(w, 8 * k - 8, 8 - nboff);
    LowOctetsFew(w);
    NoOctets(w);
  }

  lemma KeepLow(x: byte, nboff: nat)
    requires nboff < 8
    ensures Low(Keep(x, nboff), 8 - nboff) == 0
  {
    ShlLow(Shr(x, 8 - nboff), 8 - nboff);
  }

  lemma NoOctets(w: nat)
    ensures LowOctets(w, 0) == [] && Shr(w, 0) == w
  {
  }
}
