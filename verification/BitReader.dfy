/** The bit reader without a refill callback: the input half of asn1/asn_bit_data.c. */
module BitReader {
  import opened Arith
  import opened Base256
  import opened Bits

  /** The value of the k leading octets, shifted so that bit off - 1 is its lowest, cut to n bits. */
  lemma Extract(buf: seq<byte>, nboff: nat, n: nat, accum: nat)
    requires Reach(nboff + n) <= |buf|
    requires var k := Reach(nboff + n); accum == Shr(Value(buf[..k]), 8 * k - (nboff + n))
    ensures nboff + n <= 8 * |buf|
    ensures Low(accum, n) == Num(BytesBits(buf)[nboff..nboff + n])
  {
    hide BitsOf, BytesBits, Shr, Value, Low, Num;
    var off, k := nboff + n, Reach(nboff + n);
    var v := Value(buf[..k]);
    ValueBits(buf[..k]);
    BytesBitsSum(buf[..k], buf[k..]);
    assert buf == buf[..k] + buf[k..];
    BitsOfSplit(v, off, 8 * k - off);
    BitsOfSplit(accum, nboff, n);
    LowIsNum(accum, n);
    var all := BytesBits(buf);
    assert all[..off] == BitsOf(accum, off);
    assert all[nboff..off] == all[..off][nboff..];
  }

  class BitData {
    var buffer: seq<byte>   // the octets from the buffer pointer on
    var nboff: nat
    var nbits: nat
    var moved: int

    ghost predicate Valid()
      reads this
    {
      nboff <= nbits <= 8 * |buffer|
    }

    ghost function Remaining(): seq<bool>
      reads this
      requires Valid()
    {
      BytesBits(buffer)[nboff..nbits]
    }

    /** A contiguous stream over the first size bits of data, with a zero octet behind them. */
    constructor Contiguous(data: seq<byte>, size: nat)
      requires size <= 8 * |data|
      ensures Valid() && Remaining() == BytesBits(data)[..size] && moved == 0
    {
      hide BytesBits;
      var bytes := (size + 7) / 8;
      BytesBitsSum(data[..bytes], data[bytes..]);
      assert data == data[..bytes] + data[bytes..];
      BytesBitsSum(data[..bytes], [0]);
      buffer, nboff, nbits, moved := data[..bytes] + [0], 0, size, 0;
    }

    constructor At(buffer: seq<byte>, nboff: nat, nbits: nat, moved: int)
      requires nboff <= nbits <= 8 * |buffer|
      ensures Valid() && this.buffer == buffer && this.nboff == nboff && this.nbits == nbits && this.moved == moved
    {
      this.buffer, this.nboff, this.nbits, this.moved := buffer, nboff, nbits, moved;
    }

    /** Puts the n bits before the current position back in front of the others, if the buffer still has them. */
    method Undo(n: nat)
      requires Valid()
      modifies this
      ensures Valid() && buffer == old(buffer) && nbits == old(nbits)
      ensures old(nboff) >= n ==> nboff == old(nboff) - n && moved == old(moved) - n
                                  && Remaining() == BytesBits(buffer)[nboff..old(nboff)] + old(Remaining())
      ensures old(nboff) < n ==> nboff == old(nboff) && moved == old(moved) && Remaining() == old(Remaining())
    {
      hide BytesBits;
      if nboff >= n {
        nboff := nboff - n;
        moved := moved - n;
      }
    }

    method Normalize()
      requires Valid()
      modifies this
      ensures Valid() && Remaining() == old(Remaining()) && nboff < 8 && moved == old(moved)
    {
      hide BytesBits;
      if nboff >= 8 {
        var k := nboff / 8;
        BytesBitsSum(buffer[..k], buffer[k..]);
        assert buffer == buffer[..k] + buffer[k..];
        buffer := buffer[k..];
        nbits := nbits - 8 * k;
        nboff := nboff % 8;
      }
    }

    /** The branches for fields that end within four octets. */
    method Peek(from: nat, n: nat) returns (accum: nat)
      requires Valid() && from + n <= 8 * |buffer| && from + n <= 31 && from < 8
      ensures accum == Num(BytesBits(buffer)[from..from + n])
    {
      hide BitsOf, BytesBits, Shr, Value, Low, Num, Join;
      var off := from + n;
      if off <= 8 {
        if n > 0 {
          ValueOf1(buffer[..1]);
          accum := Shr(buffer[0], 8 - off);
        } else {
          PeekNothing(buffer, from);
          return 0;
        }
      } else if off <= 16 {
        ValueOf2(buffer[..2]);
        accum := Shr(Join(buffer[0], buffer[1]), 16 - off);
      } else if off <= 24 {
        ValueOf3(buffer[..3]);
        accum := Shr(Join(Join(buffer[0], buffer[1]), buffer[2]), 24 - off);
      } else {
        ValueOf4(buffer[..4]);
        accum := Shr(Join(Join(Join(buffer[0], buffer[1]), buffer[2]), buffer[3]), 32 - off);
      }
      Extract(buffer, from, n, accum);
      accum := Low(accum, n);
    }

    /** The next n bits as a number, or -1 without moving when there are not that many or n is out of range. */
    method GetFewBits(n: int) returns (r: int)
      requires Valid()
      modifies this
      ensures Valid()
      ensures var had := old(Remaining());
              if 0 <= n <= 31 && n <= |had| then
                && r == Num(had[..n]) && Remaining() == had[n..] && moved == old(moved) + n
                && n <= nboff && BytesBits(buffer)[nboff - n..nboff] == had[..n]
              else r == -1 && Remaining() == had && moved == old(moved)
      decreases n
    {
      hide BytesBits, Num;
      if n < 0 {
        return -1;
      }
      if n > nbits - nboff {
        return -1;
      }
      Normalize();
      if nboff + n <= 31 {
        r := Peek(nboff, n);
      } else if n <= 31 {
        r := PeekWide(n);
      } else {
        return -1;
      }
      assert BytesBits(buffer)[nboff..nboff + n] == Remaining()[..n];
      moved := moved + n;
      nboff := nboff + n;
    }

    /** The next n bits when they reach into a fifth octet, in two parts from a copy of the stream. */
    method PeekWide(n: nat) returns (r: nat)
      requires Valid() && n <= 31 < nboff + n && nboff < 8 && n <= |Remaining()|
      ensures r == Num(Remaining()[..n])
      decreases n, 0
    {
      hide BytesBits, Num, Shl, Low;
      var tpd := new BitData.At(buffer, nboff + n, nbits, moved + n);
      tpd.Undo(n);
      Combine(Remaining(), n);
      var hi := tpd.GetFewBits(n - 24);
      var lo := tpd.GetFewBits(24);
      r := Low(Or(Shl(hi, 24), lo, 24), n);
    }

    /** Reading bits and stepping back over them leaves the stream as it was. */
    method GetThenUndo(n: int) returns (r: int)
      requires Valid()
      modifies this
      ensures Valid() && Remaining() == old(Remaining()) && moved == old(moved)
      ensures r == if 0 <= n <= 31 && n <= |Remaining()| then Num(Remaining()[..n]) else -1
    {
      hide BytesBits, Num;
      ghost var had := Remaining();
      r := GetFewBits(n);
      if r >= 0 {
        Undo(n);
        assert had == had[..n] + had[n..];
      }
    }

    /** A last field of less than 24 bits, moved to the left of its octets. */
    method GetTail(n: nat) returns (ret: int, dst: seq<byte>)
      requires Valid() && 0 < n < 24
      modifies this
      ensures Valid() && (ret == 0 <==> n <= |old(Remaining())|) && (ret == 0 || ret == -1)
      ensures ret == 0 ==> var had := old(Remaining());
                           && Remaining() == had[n..] && moved == old(moved) + n
                           && BytesBits(dst) == had[..n] + Zeros(8 * Reach(n) - n)
    {
      hide BytesBits, Num, Shl, Shr, BitsOf, LowOctets, Zeros;
      ghost var had := Remaining();
      var value := GetFewBits(n);
      dst := [];
      if value < 0 {
        return -1, dst;
      }
      ghost var v := value;
      var nbits := n;
      if nbits % 8 > 0 {
        value := Shl(value, 8 - nbits % 8);
        nbits := nbits + 8 - nbits % 8;
      }
      ShiftedTail(had[..n], value);
      LowOctetsFew(value);
      if nbits > 16 {
        dst := dst + [Shr(value, 16) % 256];
      }
      if nbits > 8 {
        dst := dst + [Shr(value, 8) % 256];
      }
      dst := dst + [value % 256];
      assert dst == LowOctets(value, Reach(n));
      ret := 0;
    }

    /** A field of 24 bits as three octets. */
    method GetThree() returns (ret: int, dst: seq<byte>)
      requires Valid()
      modifies this
      ensures Valid() && (ret == 0 <==> 24 <= |old(Remaining())|) && (ret == 0 || ret == -1)
      ensures ret == 0 ==> var had := old(Remaining());
                           && Remaining() == had[24..] && moved == old(moved) + 24 && BytesBits(dst) == had[..24]
    {
      hide BytesBits, Num, Shr, LowOctets;
      ghost var had := Remaining();
      var value := GetFewBits(24);
      dst := [];
      if value < 0 {
        return -1, dst;
      }
      Field24(had[..24], value);
      dst := [Shr(value, 16) % 256, Shr(value, 8) % 256, value % 256];
      ret := 0;
    }

    /** The loop: fields of 24 bits and a last one, aligned to the left. */
    method GetAligned(n: nat) returns (ret: int, dst: seq<byte>)
      requires Valid()
      modifies this
      ensures Valid() && (ret == 0 <==> n <= |old(Remaining())|) && (ret == 0 || ret == -1)
      ensures ret == 0 ==> var had := old(Remaining());
                           && Remaining() == had[n..] && moved == old(moved) + n
                           && BytesBits(dst) == had[..n] + Zeros(8 * Reach(n) - n)
    {
      hide BytesBits, Zeros, Reach;
      ghost var had := Remaining();
      dst := [];
      var left := n;
      EmptyBits(had);
      while left >= 24
        invariant Valid() && 0 <= left <= n && moved == old(moved) + (n - left) && (n - left) % 8 == 0
        invariant n - left <= |had| && Remaining() == had[n - left..]
        invariant BytesBits(dst) == had[..n - left]
      {
        var r, three := GetThree();
        if r < 0 {
          return -1, dst;
        }
        BytesBitsSum(dst, three);
        NextPart(had, n - left, 24);
        dst := dst + three;
        left := left - 24;
      }
      ReachTail(n, left);
      if left > 0 {
        var r, tail := GetTail(left);
        if r < 0 {
          return -1, dst;
        }
        BytesBitsSum(dst, tail);
        NextPart(had, n - left, left);
        Padded(had[..n - left], had[n - left..][..left], Zeros(8 * Reach(left) - left));
        dst := dst + tail;
      } else {
        NoPadding(had[..n]);
      }
      ret := 0;
    }

    /** Reads nbits bits into octets, aligned to the right or to the left; fails when there are too few. */
    method GetManyBits(alright: bool, nbits: nat) returns (ret: int, dst: seq<byte>)
      requires Valid()
      modifies this
      ensures Valid() && (ret == 0 <==> nbits <= |old(Remaining())|) && (ret == 0 || ret == -1)
      ensures ret == 0 ==> var had, pad := old(Remaining()), Zeros(8 * Reach(nbits) - nbits);
                           && Remaining() == had[nbits..] && moved == old(moved) + nbits
                           && BytesBits(dst) == if alright then pad + had[..nbits] else had[..nbits] + pad
    {
      hide BytesBits, Num, Zeros, Reach;
      ghost var had := Remaining();
      EmptyBits(had);
      if alright && nbits % 8 > 0 {
        ret, dst := GetRight(nbits);
      } else {
        WholeOctets(nbits);
        ret, dst := GetAligned(nbits);
      }
    }

    /** The bits that do not fill an octet come first, at the right of their octet. */
    method GetRight(nbits: nat) returns (ret: int, dst: seq<byte>)
      requires Valid() && nbits % 8 > 0
      modifies this
      ensures Valid() && (ret == 0 <==> nbits <= |old(Remaining())|) && (ret == 0 || ret == -1)
      ensures ret == 0 ==> var had, pad := old(Remaining()), Zeros(8 * Reach(nbits) - nbits);
                           && Remaining() == had[nbits..] && moved == old(moved) + nbits
                           && BytesBits(dst) == pad + had[..nbits]
    {
      hide BytesBits, Num, Zeros, Reach;
      ghost var had := Remaining();
      var few := nbits % 8;
      var value := GetFewBits(few);
      dst := [];
      if value < 0 {
        return -1, dst;
      }
      RightAligned(had[..few]);
      ret, dst := GetAligned(nbits - few);
      if ret == 0 {
        RightParts(had, nbits, value, dst);
        dst := [value] + dst;
      }
    }
  }

  /** The first octet with the bits that do not fill one, and the octets after it. */
  lemma RightParts(had: seq<bool>, nbits: nat, value: byte, dst: seq<byte>)
    requires 0 < nbits % 8 && nbits <= |had| && value == Num(had[..nbits % 8])
    requires var few := nbits % 8;
             BytesBits(dst) == had[few..][..nbits - few] + Zeros(8 * Reach(nbits - few) - (nbits - few))
    ensures BytesBits([value] + dst) == Zeros(8 * Reach(nbits) - nbits) + had[..nbits]
    ensures had[nbits % 8..][nbits - nbits % 8..] == had[nbits..]
  {
    hide BytesBits, Num, Zeros, Reach;
    var few := nbits % 8;
    WholeOctets(nbits);
    WholeOctets(nbits - few);
    RightAligned(had[..few]);
    NextPart(had, few, nbits - few);
    BytesBitsSum([value], dst);
    EmptyBits(had);
  }

  lemma WholeOctets(n: nat)
    ensures 8 * Reach(n) - n == if n % 8 == 0 then 0 else 8 - n % 8
  {
  }

  /** Whole octets before the last bits do not change how these are filled up. */
  lemma ReachTail(n: nat, left: nat)
    requires left <= n && (n - left) % 8 == 0
    ensures 8 * Reach(n) - n == 8 * Reach(left) - left
  {
  }

  lemma Padded(a: seq<bool>, b: seq<bool>, z: seq<bool>)
    ensures a + (b + z) == a + b + z
  {
  }

  lemma NoPadding(a: seq<bool>)
    ensures Zeros(8 * Reach(0)) == [] && a + [] == a
  {
  }

  lemma NextPart(had: seq<bool>, i: nat, n: nat)
    requires i + n <= |had|
    ensures had[..i + n] == had[..i] + had[i..][..n]
    ensures had[i..][n..] == had[i + n..]
  {
  }

  lemma EmptyBits(had: seq<bool>)
    ensures BytesBits([]) == [] && Zeros(0) == [] && had[..0] == []
  {
  }

  lemma ShiftedTail(b: seq<bool>, value: nat)
    requires value == if |b| % 8 > 0 then Shl(Num(b), 8 - |b| % 8) else Num(b)
    ensures BytesBits(LowOctets(value, Reach(|b|))) == b + Zeros(8 * Reach(|b|) - |b|)
  {
    hide BytesBits, Num, BitsOf, LowOctets;
    var k := Reach(|b|);
    LowOctetsBits(value, k);
    NumBits(b);
    BitsOfShl(Num(b), |b|, 8 * k - |b|);
  }

  lemma Field24(b: seq<bool>, value: nat)
    requires |b| == 24 && value == Num(b)
    ensures LowOctets(value, 3) == [Shr(value, 16) % 256, Shr(value, 8) % 256, value % 256]
    ensures BytesBits(LowOctets(value, 3)) == b
  {
    hide BytesBits, Num, BitsOf, LowOctets;
    LowOctetsFew(value);
    LowOctetsBits(value, 3);
    NumBits(b);
  }

  lemma SmallNum(b: seq<bool>)
    requires |b| <= 8
    ensures Num(b) < 256 && Shr(Num(b), |b|) == 0
  {
    hide Num, Shr;
    NumBound(b);
    ShrBound(Num(b), |b|);
    PowMono(2, |b|, 8);
    assert Pow(2, 8) == 256;
  }

  lemma RightAligned(b: seq<bool>)
    requires |b| < 8
    ensures Num(b) < 256 && BytesBits([Num(b)]) == Zeros(8 - |b|) + b
  {
    hide *;
    SmallNum(b);
    BytesBitsOne(Num(b));
    PaddedBits(b, 8);
  }

  lemma PaddedBits(b: seq<bool>, m: nat)
    requires |b| <= m
    ensures BitsOf(Num(b), m) == Zeros(m - |b|) + b
  {
    hide *;
    var n, v := |b|, Num(b);
    NumBound(b);
    NumBits(b);
    ZeroShl(n);
    BitsOfOr(0, v, m - n, n);
    BitsOfZero(m - n);
  }

  lemma {:induction false} ZeroShl(n: nat)
    ensures Shl(0, n) == 0
  {
    if n > 0 {
      ZeroShl(n - 1);
    }
  }

  lemma PeekNothing(buf: seq<byte>, from: nat)
    requires from <= 8 * |buf|
    ensures Num(BytesBits(buf)[from..from]) == 0
  {
  }

  /** Two parts of a field put together. */
  lemma Combine(had: seq<bool>, n: nat)
    requires 24 <= n <= |had|
    ensures var hi, lo := Num(had[..n - 24]), Num(had[n - 24..][..24]);
            && Low(Shl(hi, 24), 24) == 0 && Shr(lo, 24) == 0
            && Low(Shl(hi, 24) + lo, n) == Num(had[..n])
  {
    hide Shl, Shr, Low, Num;
    var a, b := had[..n - 24], had[n - 24..][..24];
    assert had[..n] == a + b;
    NumSum(a, b);
    ShlLow(Num(a), 24);
    NumBound(b);
    NumBound(had[..n]);
    LowOfSmall(Num(had[..n]), n);
  }
}
