/** UPER of BIT STRING with a constrained size, asn1/BIT_STRING.c: fixed sizes and size ranges, and their extension bit. */
module BitStringUper {
  import opened Arith
  import opened Bits
  import opened BitWriter
  import opened BitReader
  import opened BitString
  import opened Uper
  import opened UperCodec
  import UperDecoder

  /** The constraint; bits is effective_bits, 0 for a fixed size. */
  datatype Size = Size(lower: nat, upper: nat, bits: nat, extensible: bool) {
    predicate Ok() {
      lower <= upper && bits <= 16 && Shr(upper - lower, bits) == 0
    }
  }

  /** How many bits are sent for a trimmed string of n bits. */
  function SentLength(n: nat, c: Size): (r: nat)
    ensures n <= r && c.lower <= r && (r == n || r == c.lower)
  {
    if n < c.lower then c.lower else n
  }

  /** The length field and the trimmed bits, filled up with zeros to the smallest size. */
  function Sent(t: seq<bool>, c: Size): seq<bool> {
    var n := SentLength(|t|, c);
    BitsOf(n - c.lower, c.bits) + t + Zeros(n - |t|)
  }

  /** Zero bits go out in portions of 128. */
  method PutZeros(n: nat, po: BitOutp)
    requires po.Valid()
    modifies po, po.tmpspace
    ensures po.Valid() && po.Written() == old(po.Written()) + Zeros(n)
  {
    hide BytesBits, Prefix;
    var zeros: seq<byte> := seq(16, _ => 0);
    ZeroOctets(zeros);
    var left := n;
    assert po.Written() == old(po.Written()) + Zeros(0);
    while left > 0
      invariant po.Valid() && 0 <= left <= n
      invariant po.Written() == old(po.Written()) + Zeros(n - left)
    {
      var k := if left > 128 then 128 else left;
      var ret := po.PutManyBits(zeros, k);
      assert BytesBits(zeros)[..k] == Zeros(k);
      AppendZeros(old(po.Written()), n - left, k);
      left := left - k;
    }
  }

  lemma {:induction false} ZeroOctets(s: seq<byte>)
    requires forall i :: 0 <= i < |s| ==> s[i] == 0
    ensures BytesBits(s) == Zeros(8 * |s|)
  {
    if s != [] {
      ZeroOctets(s[..|s| - 1]);
      BitsOfZero(8);
    }
  }

  /** The length field, the bits and the zeros after them. */
  method PutString(compact: BitStr, c: Size, po: BitOutp)
    requires po.Valid() && c.Ok() && compact.Valid() && |compact.Bits()| <= c.upper
    modifies po, po.tmpspace
    ensures po.Valid() && po.Written() == old(po.Written()) + Sent(compact.Bits(), c)
  {
    hide BytesBits, Prefix, BitsOf, Shr, Zeros;
    var sizeInBits := 8 * |compact.buf| - compact.unused;
    ghost var t := compact.Bits();
    var addTrailer := sizeInBits < c.lower;
    var ret := po.PutFewBits(if addTrailer then 0 else sizeInBits - c.lower, c.bits);
    ret := po.PutManyBits(compact.buf, sizeInBits);
    if addTrailer {
      PutZeros(c.lower - sizeInBits, po);
    }
    ghost var n := SentLength(|t|, c);
    Arrange(old(po.Written()), BitsOf(n - c.lower, c.bits), t, Zeros(n - |t|));
  }

  /** BIT_STRING_encode_uper for a constraint with effective bits; Extension where it goes on without the constraint. */
  method EncodeUper(st: BitStr, c: Size, po: BitOutp) returns (r: Result)
    requires po.Valid() && c.Ok()
    modifies po, po.tmpspace
    ensures po.Valid()
    ensures r == if !st.Valid() then Refused
                 else if |Trim(BytesBits(st.buf))| <= c.upper then Done
                 else if c.extensible then Extension else Refused
    ensures r == Done ==> po.Written() == old(po.Written()) + (Flag(c.extensible, false) + Sent(Trim(BytesBits(st.buf)), c))
    ensures r == Extension ==> po.Written() == old(po.Written()) + [true]
    ensures r == Refused ==> po.Written() == old(po.Written())
  {
    hide BytesBits, Prefix, Compact, Trim, Sent, Shr, Flag;
    if (|st.buf| == 0 && st.unused > 0) || st.unused > 7 {
      return Refused;
    }
    var compact := Compactify(st);
    CompactTrims(st.buf);
    var inext := 8 * |compact.buf| - compact.unused > c.upper;
    if inext && !c.extensible {
      return Refused;
    }
    PutFlag(c.extensible, inext, po);
    if inext {
      FlagOn();
      return Extension;
    }
    PutString(compact, c, po);
    Assoc(old(po.Written()), Flag(c.extensible, false), Sent(compact.Bits(), c));
    r := Done;
  }

  lemma FlagOn()
    ensures Flag(true, true) == [true]
  {
  }

  lemma Arrange(a: seq<bool>, b: seq<bool>, c: seq<bool>, d: seq<bool>)
    ensures a + b + c + d == a + (b + c + d)
    ensures d == [] ==> a + b + c == a + (b + c + d)
  {
  }

  /** The bits of the string that starts had, if they are all there. */
  datatype Reading = Short | Read(bits: seq<bool>, rest: seq<bool>)

  function ReadSent(had: seq<bool>, c: Size): Reading {
    if |had| < c.bits then Short
    else
      var n := c.bits + c.lower + Num(had[..c.bits]);
      if |had| < n then Short else Read(had[c.bits..n], had[n..])
  }

  /** What a decoder promises that finds had on the stream. */
  predicate ReadsString(had: seq<bool>, c: Size, r: Result, st: BitStr, rest: seq<bool>) {
    match ReadSent(had, c)
    case Short => r == Hungry
    case Read(bits, after) => r == Done && st.Valid() && st.Bits() == bits && st.ZeroUnused() && rest == after
  }

  method DecodeFixed(c: Size, pd: BitData) returns (r: Result, st: BitStr)
    requires pd.Valid() && c.Ok() && c.bits == 0
    modifies pd
    ensures pd.Valid() && ReadsString(old(pd.Remaining()), c, r, st, pd.Remaining())
  {
    hide BytesBits, Num, Shr, ReadSent, Zeros;
    ghost var had := pd.Remaining();
    FixedSize(had, c);
    var ret, dst := pd.GetManyBits(false, c.upper);
    if ret < 0 {
      return Hungry, BitStr([], 0);
    }
    st := BitStr(dst, (8 - c.upper % 8) % 8);
    LeftAligned(st, had[..c.upper]);
    r := Done;
  }

  method DecodeRange(c: Size, pd: BitData) returns (r: Result, st: BitStr)
    requires pd.Valid() && c.Ok()
    modifies pd
    ensures pd.Valid() && ReadsString(old(pd.Remaining()), c, r, st, pd.Remaining())
  {
    hide BytesBits, Num, Shr, Zeros, ReadSent;
    ghost var had := pd.Remaining();
    RangeSize(had, c);
    st := BitStr([], 0);
    var rawLen := pd.GetFewBits(c.bits);
    if rawLen < 0 {
      return Hungry, st;
    }
    r, st := ReadBody(c.lower + rawLen, pd);
  }

  /** The bits of a string whose length has been read. */
  method ReadBody(rawLen: nat, pd: BitData) returns (r: Result, st: BitStr)
    requires pd.Valid()
    modifies pd
    ensures pd.Valid()
    ensures var rest := old(pd.Remaining());
            if |rest| < rawLen then r == Hungry
            else r == Done && st.Valid() && st.Bits() == rest[..rawLen] && st.ZeroUnused() && pd.Remaining() == rest[rawLen..]
  {
    hide BytesBits, Num, Shr, Zeros;
    ghost var rest := pd.Remaining();
    st := BitStr([], 0);
    if rawLen == 0 {
      LeftAligned(st, []);
      assert rest[..0] == [] && rest[0..] == rest;
      return Done, st;
    }
    var ret, dst := pd.GetManyBits(false, rawLen);
    if ret < 0 {
      return Hungry, st;
    }
    st := BitStr(dst, (8 - rawLen % 8) % 8);
    LeftAligned(st, rest[..rawLen]);
    r := Done;
  }

  /** BIT_STRING_decode_uper into a fresh structure for a constraint with effective bits. */
  method DecodeUper(c: Size, pd: BitData) returns (r: Result, st: BitStr)
    requires pd.Valid() && c.Ok()
    modifies pd
    ensures pd.Valid()
    ensures var had := old(pd.Remaining());
            if !c.extensible then ReadsString(had, c, r, st, pd.Remaining())
            else if had == [] then r == Hungry
            else if had[0] then r == Extension
            else ReadsString(had[1..], c, r, st, pd.Remaining())
  {
    hide ReadsString, Shr, BytesBits;
    var inext := UperDecoder.GetFlag(c.extensible, pd);
    st := BitStr([], 0);
    if inext < 0 {
      return Hungry, st;
    } else if inext > 0 {
      return Extension, st;
    }
    if c.bits == 0 {
      r, st := DecodeFixed(c, pd);
    } else {
      r, st := DecodeRange(c, pd);
    }
  }

  lemma RangeSize(had: seq<bool>, c: Size)
    ensures ReadSent(had, c) ==
            if |had| < c.bits then Short
            else
              var n, rest := c.lower + Num(had[..c.bits]), had[c.bits..];
              if |rest| < n then Short else Read(rest[..n], rest[n..])
  {
    hide Num;
  }

  lemma FixedSize(had: seq<bool>, c: Size)
    requires c.Ok() && c.bits == 0
    ensures c.lower == c.upper
    ensures ReadSent(had, c) == if |had| < c.upper then Short else Read(had[..c.upper], had[c.upper..])
  {
    assert had[..0] == [];
    assert c.upper <= |had| ==> had[0..c.upper] == had[..c.upper];
  }

  lemma LeftAligned(st: BitStr, b: seq<bool>)
    requires st.unused == (8 - |b| % 8) % 8
    requires BytesBits(st.buf) == b + Zeros(8 * Reach(|b|) - |b|) || (b == [] && st.buf == [])
    ensures st.Valid() && st.Bits() == b && st.ZeroUnused()
  {
    hide BytesBits, Reach;
    NoBits();
    Padding(|b|);
    assert |BytesBits(st.buf)| == 8 * |st.buf|;
  }

  lemma Padding(n: nat)
    ensures 8 * Reach(n) - (8 - n % 8) % 8 == n && (n == 0 ==> Reach(n) == 0)
  {
  }

  /** What is sent is read back whatever follows it, as the trimmed string filled up with zeros. */
  lemma SentRead(t: seq<bool>, c: Size, rest: seq<bool>)
    requires c.Ok() && |t| <= c.upper
    ensures ReadSent(Sent(t, c) + rest, c) == Read(t + Zeros(SentLength(|t|, c) - |t|), rest)
  {
    hide BitsOf, Num, Zeros, Shr;
    var n := SentLength(|t|, c);
    var field, body := BitsOf(n - c.lower, c.bits), t + Zeros(n - |t|);
    var had := Sent(t, c) + rest;
    assert had == field + (body + rest);
    assert |field| == c.bits && |body| == n;
    InThree(field, body, rest);
    LengthField(n - c.lower, c.upper - c.lower, c.bits);
  }

  lemma InThree(a: seq<bool>, b: seq<bool>, c: seq<bool>)
    ensures var s, n := a + (b + c), |a| + |b|; s[..|a|] == a && s[|a|..n] == b && s[n..] == c
  {
  }

  lemma LengthField(v: nat, top: nat, n: nat)
    requires v <= top && Shr(top, n) == 0
    ensures Num(BitsOf(v, n)) == v
  {
    ShrBound(top, n);
    ShrBound(v, n);
    LowOfSmall(v, n);
    LowIsNum(v, n);
  }

  /**
   * Encoding a string whose unused bits are zero and decoding the flushed octets gives a string that
   * compares equal, if the string without its trailing zeros is not too long.
   */
  method RoundTrip(st: BitStr, c: Size) returns (back: BitStr, r: int)
    requires c.Ok() && st.Valid() && st.ZeroUnused() && |Trim(st.Bits())| <= c.upper
    ensures back.Valid() && back.ZeroUnused() && r == 0 == BitCmp(st.Bits(), back.Bits())
    ensures c.lower <= |back.Bits()| <= c.upper
  {
    hide BytesBits, Prefix, Trim, BitCmp, Sent, ReadSent, Shr;
    var po := new BitOutp();
    ghost var t := Trim(st.Bits());
    AllTrimmed(st);
    var sent := EncodeUper(st, c, po);
    ghost var bits := Flag(c.extensible, false) + Sent(t, c);
    var ret := po.AlignedFlush();
    var pd := new BitData.Contiguous(po.output, 8 * |po.output|);
    ghost var all := BytesBits(po.output);
    ghost var pad := all[|bits|..];
    assert [] + bits == bits;
    assert all == Flag(c.extensible, false) + (Sent(t, c) + pad);
    assert c.extensible ==> !all[0] && all[1..] == Sent(t, c) + pad;
    assert !c.extensible ==> all == Sent(t, c) + pad;
    var got;
    got, back := DecodeUper(c, pd);
    SentRead(t, c, pad);
    ghost var zeros := SentLength(|t|, c) - |t|;
    TrimZeros(t, zeros);
    TrimTwice(st.Bits());
    EqualIff(st.Bits(), back.Bits());
    r := Compare(st, back);
  }

  lemma AllTrimmed(st: BitStr)
    requires st.Valid() && st.ZeroUnused()
    ensures Trim(BytesBits(st.buf)) == Trim(st.Bits())
  {
    hide BytesBits, Trim;
    assert BytesBits(st.buf) == st.Bits() + Zeros(st.unused);
    TrimZeros(st.Bits(), st.unused);
  }

  lemma TrimTwice(b: seq<bool>)
    ensures Trim(Trim(b)) == Trim(b)
  {
  }
}
