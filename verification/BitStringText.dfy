/** The 0/1 text of BIT STRING: OCTET_STRING__convert_binary, asn1/OCTET_STRING.c, and BIT_STRING_encode_xer, asn1/BIT_STRING.c. */
module BitStringText {
  import opened Arith
  import opened Wrappers
  import opened Bits
  import opened BitWriter
  import opened BitString

  /** Tab, line feed, form feed, carriage return and space. */
  predicate Space(c: byte) {
    c == 0x09 || c == 0x0a || c == 0x0c || c == 0x0d || c == 0x20
  }

  /** The bits that a text of 0, 1 and spaces stands for. */
  function TextBits(t: seq<byte>): Option<seq<bool>> {
    if t == [] then Some([])
    else
      var r, c := TextBits(t[..|t| - 1]), t[|t| - 1];
      if r.None? then None
      else if Space(c) then r
      else if c == 0x30 || c == 0x31 then Some(r.value + [c == 0x31])
      else None
  }

  /** Where a text is cut makes no difference. */
  lemma {:induction false} TextBitsSum(a: seq<byte>, b: seq<byte>)
    ensures var x, y := TextBits(a), TextBits(b);
            TextBits(a + b) == if x.Some? && y.Some? then Some(x.value + y.value) else None
    decreases |b|
  {
    if b == [] {
      assert a + b == a;
      assert TextBits(a).Some? ==> TextBits(a).value + [] == TextBits(a).value;
    } else {
      var n := |b| - 1;
      TextBitsSum(a, b[..n]);
      var s := a + b;
      assert s[..|s| - 1] == a + b[..n] && s[|s| - 1] == b[n];
      if TextBits(a).Some? && TextBits(b[..n]).Some? {
        assert TextBits(a).value + (TextBits(b[..n]).value + [b[n] == 0x31])
            == TextBits(a).value + TextBits(b[..n]).value + [b[n] == 0x31];
      }
    }
  }

  lemma TextBitsStep(t: seq<byte>, i: nat)
    requires i < |t|
    ensures TextBits(t[..i + 1]) == var r := TextBits(t[..i]);
                                    if r.None? then None
                                    else if Space(t[i]) then r
                                    else if t[i] == 0x30 || t[i] == 0x31 then Some(r.value + [t[i] == 0x31])
                                    else None
  {
    assert t[..i + 1][..i] == t[..i];
  }

  /** A character that is not allowed spoils every text that contains it. */
  lemma Spoiled(t: seq<byte>, i: nat)
    requires i <= |t| && TextBits(t[..i]).None?
    ensures TextBits(t).None?
  {
    assert t == t[..i] + t[i..];
    TextBitsSum(t[..i], t[i..]);
  }

  function BitOf(b: bool): nat {
    if b then 1 else 0
  }

  lemma HalfShr(h: nat, v: nat, n: nat)
    requires v < 2
    ensures Shr(2 * h + v, n + 1) == Shr(h, n) && Shr(v, 1) == 0
  {
  }

  /** An octet that ends in b zero bits, with the highest of them set to v. */
  lemma Shifted(x: byte, b: nat, v: nat)
    requires 0 < b <= 8 && Low(x, b) == 0 && v < 2
    ensures var w := 2 * Shr(x, b) + v;
            && x + Shl(v, b - 1) == Shl(w, b - 1)
            && Shr(w, 9 - b) == 0
            && Shr(Shl(v, b - 1), b) == 0
  {
    hide Low, Shr, Shl;
    ShrBound(x, 8);
    assert Pow(2, 8) == 256;
    ShrShr(x, b, 8 - b);
    HalfShr(Shr(x, b), v, 8 - b);
    ShlShr(x, b);
    ShlBound(v, 1, b - 1);
    DoubleShl(Shr(x, b), v, b - 1);
  }

  /** Setting the highest of the b zero bits at the end of an octet. */
  lemma SetBit(x: byte, b: nat, bit: bool)
    requires 0 < b <= 8 && Low(x, b) == 0
    ensures Shr(Shl(BitOf(bit), b - 1), b) == 0
    ensures var y := Or(x, Shl(BitOf(bit), b - 1), b);
            y < 256 && Low(y, b - 1) == 0 && BitsOf(y, 8)[..9 - b] == BitsOf(x, 8)[..8 - b] + [bit]
  {
    hide Low, BitsOf, Shr, Shl;
    var h, v := Shr(x, b), BitOf(bit);
    Shifted(x, b, v);
    var y := Shl(2 * h + v, b - 1);
    ShlBound(2 * h + v, 9 - b, b - 1);
    ShrBound(y, 8);
    assert Pow(2, 8) == 256;
    ShlLow(2 * h + v, b - 1);
    SetBitBits(x, b, v);
  }

  lemma SetBitBits(x: byte, b: nat, v: nat)
    requires 0 < b <= 8 && Low(x, b) == 0 && v < 2
    ensures BitsOf(Shl(2 * Shr(x, b) + v, b - 1), 8)[..9 - b] == BitsOf(x, 8)[..8 - b] + [v == 1]
  {
    hide Low, BitsOf, Shr, Shl, Zeros;
    var h := Shr(x, b);
    ShlShr(x, b);
    BitsOfShl(2 * h + v, 9 - b, b - 1);
    BitsOfShl(h, 8 - b, b);
    AddBit(h, v, 8 - b);
  }

  lemma AddBit(h: nat, v: nat, n: nat)
    requires v < 2
    ensures BitsOf(2 * h + v, n + 1) == BitsOf(h, n) + [v == 1]
  {
  }

  lemma {:induction false} DoubleShl(h: nat, v: nat, n: nat)
    ensures Shl(2 * h + v, n) == Shl(h, n + 1) + Shl(v, n)
  {
    if n > 0 {
      DoubleShl(h, v, n - 1);
    }
  }

  /** The first n bits of the first octets, of which the last one ends in 8 * |s| - n zeros. */
  predicate Holds(s: seq<byte>, b: nat, bits: seq<bool>) {
    s != [] && b <= 8 && BytesBits(s)[..8 * |s| - b] == bits && Low(s[|s| - 1], b) == 0
  }

  lemma HoldsMore(s: seq<byte>, b: nat, bits: seq<bool>, bit: bool)
    requires Holds(s, b, bits) && b > 0
    ensures var n := |s| - 1;
            && Shr(Shl(BitOf(bit), b - 1), b) == 0
            && var y := Or(s[n], Shl(BitOf(bit), b - 1), b);
            && y < 256
            && Holds(s[n := y], b - 1, bits + [bit])
  {
    hide Low, Shr, Shl, BitsOf;
    var n := |s| - 1;
    SetBit(s[n], b, bit);
    var y := Or(s[n], Shl(BitOf(bit), b - 1), b);
    var t := s[n := y];
    assert t[..n] == s[..n];
    var p := BytesBits(s[..n]);
    assert BytesBits(t) == p + BitsOf(y, 8) && BytesBits(s) == p + BitsOf(s[n], 8);
    assert BytesBits(t)[..8 * n + 9 - b] == p + BitsOf(y, 8)[..9 - b];
    assert BytesBits(s)[..8 * n + 8 - b] == p + BitsOf(s[n], 8)[..8 - b];
  }

  /** A new zero octet behind full ones. */
  lemma HoldsNext(s: seq<byte>, bits: seq<bool>)
    requires BytesBits(s) == bits
    ensures Holds(s + [0], 8, bits)
  {
    hide BitsOf;
    BytesBitsSum(s, [0]);
    assert (BytesBits(s) + BytesBits([0]))[..8 * |s|] == BytesBits(s);
    ZeroLow();
  }

  lemma ZeroLow()
    ensures Low(0, 8) == 0
  {
    ShrBound(0, 8);
    LowOfSmall(0, 8);
  }

  lemma {:induction false} NumZeros(n: nat)
    ensures Num(Zeros(n)) == 0
  {
    if n > 0 {
      NumZeros(n - 1);
      assert Zeros(n)[..n - 1] == Zeros(n - 1);
    }
  }

  lemma LowZero(x: byte, b: nat)
    requires b <= 8
    ensures Low(x, b) == 0 <==> BitsOf(x, 8)[8 - b..] == Zeros(b)
  {
    hide Low, BitsOf, Num, Zeros;
    BitsOfSplit(x, 8 - b, b);
    assert BitsOf(x, 8)[8 - b..] == BitsOf(x, b);
    LowIsNum(x, b);
    NumZeros(b);
    BitsOfLow(x, b);
    BitsOfZero(b);
  }

  /** What has been gathered, as a string: the last octet counts unless it is still empty. */
  function Gathered(s: seq<byte>, b: nat): (r: BitStr)
    requires s != []
    ensures |s| - 1 <= |r.buf| <= |s| && r.buf == s[..|r.buf|]
  {
    if b == 8 then BitStr(s[..|s| - 1], 0) else BitStr(s, b)
  }

  lemma HoldsString(s: seq<byte>, b: nat, bits: seq<bool>)
    requires Holds(s, b, bits)
    ensures var r := Gathered(s, b); r.Valid() && r.Bits() == bits && r.ZeroUnused()
  {
    hide Low, BitsOf;
    var n := |s| - 1;
    var p, o := BytesBits(s[..n]), BitsOf(s[n], 8);
    assert BytesBits(s) == p + o;
    if b == 8 {
      assert BytesBits(s)[..8 * n] == p;
    } else {
      LowZero(s[n], b);
      assert BytesBits(s)[8 * |s| - b..] == o[8 - b..];
    }
  }

  /** Going on after a string: in its last octet if bits are left there, else in the zero octet after it. */
  lemma Continue(st: BitStr)
    requires st.Valid() && st.ZeroUnused()
    ensures if st.unused == 0 then Holds(st.buf + [0], 8, st.Bits()) else Holds(st.buf, st.unused, st.Bits())
  {
    hide Low, BitsOf;
    if st.unused == 0 {
      assert BytesBits(st.buf)[..8 * |st.buf|] == BytesBits(st.buf);
      HoldsNext(st.buf, st.Bits());
    } else {
      var n := |st.buf| - 1;
      LowZero(st.buf[n], st.unused);
      assert BytesBits(st.buf) == BytesBits(st.buf[..n]) + BitsOf(st.buf[n], 8);
      assert BytesBits(st.buf)[8 * |st.buf| - st.unused..] == BitsOf(st.buf[n], 8)[8 - st.unused..];
    }
  }

  /** The loop over the characters; k is the octet being filled and b the bits left in it. */
  method ConvertChars(start: seq<byte>, k0: nat, b0: nat, chunk: seq<byte>, ghost bits: seq<bool>)
    returns (ok: bool, mem: seq<byte>, k: nat, b: nat)
    requires k0 < |start| && Holds(start[..k0 + 1], b0, bits) && |bits| + |chunk| <= 8 * (|start| - 1)
    ensures ok <==> TextBits(chunk).Some?
    ensures ok ==> |mem| == |start| && k < |mem| && Holds(mem[..k + 1], b, bits + TextBits(chunk).value)
    ensures ok ==> 8 * (k + 1) - b <= 8 * (|mem| - 1)
  {
    NoText();
    hide TextBits, Holds;
    mem, k, b := start, k0, b0;
    var p := 0;
    assert bits + [] == bits;
    assert chunk[..0] == [];
    while p < |chunk|
      invariant 0 <= p <= |chunk| && |mem| == |start| && k < |mem|
      invariant TextBits(chunk[..p]).Some? && |TextBits(chunk[..p]).value| <= p
      invariant Holds(mem[..k + 1], b, bits + TextBits(chunk[..p]).value)
    {
      TextBitsStep(chunk, p);
      var ch := chunk[p];
      if Space(ch) {
      } else if ch == 0x30 || ch == 0x31 {
        ghost var so := TextBits(chunk[..p]).value;
        mem, k, b := PutBit(mem, k, b, ch == 0x31, bits + so);
        assert bits + so + [ch == 0x31] == bits + (so + [ch == 0x31]);
      } else {
        Spoiled(chunk, p + 1);
        return false, mem, k, b;
      }
      p := p + 1;
    }
    assert chunk[..|chunk|] == chunk;
    HoldsLength(mem[..k + 1], b, bits + TextBits(chunk).value);
    ok := true;
  }

  lemma HoldsLength(s: seq<byte>, b: nat, bits: seq<bool>)
    requires Holds(s, b, bits)
    ensures 8 * |s| - b == |bits|
  {
  }

  /** One more bit, in a new octet when the current one is full. */
  method PutBit(start: seq<byte>, k0: nat, b0: nat, bit: bool, ghost bits: seq<bool>)
    returns (mem: seq<byte>, k: nat, b: nat)
    requires k0 < |start| && Holds(start[..k0 + 1], b0, bits) && |bits| < 8 * (|start| - 1)
    ensures |mem| == |start| && k < |mem| && Holds(mem[..k + 1], b, bits + [bit])
  {
    hide BytesBits, Low, Shr, Shl, Or;
    mem, k, b := start, k0, b0;
    if b == 0 {
      NextCell(mem, k, bits);
      k := k + 1;
      mem := mem[k := 0];
      b := 8;
    }
    HoldsMore(mem[..k + 1], b, bits, bit);
    b := b - 1;
    ghost var before := mem[..k + 1];
    mem := mem[k := Or(mem[k], Shl(BitOf(bit), b), b + 1)];
    assert mem[..k + 1] == before[k := mem[k]];
  }

  lemma NextCell(mem: seq<byte>, k: nat, bits: seq<bool>)
    requires k < |mem| && Holds(mem[..k + 1], 0, bits) && |bits| < 8 * (|mem| - 1)
    ensures k + 1 < |mem| && Holds(mem[k + 1 := 0][..k + 2], 8, bits)
  {
    hide BytesBits, Low;
    var s := mem[..k + 1];
    assert BytesBits(s)[..8 * |s|] == BytesBits(s);
    HoldsNext(s, bits);
    assert mem[k + 1 := 0][..k + 2] == s + [0];
  }

  /** The BIT STRING structure while a text is converted into it; buf is all of the allocated memory. */
  class BinaryString {
    var buf: seq<byte>
    var size: nat
    var unused: nat

    ghost predicate Valid()
      reads this
    {
      && size < |buf| && buf[size] == 0
      && BitStr(buf[..size], unused).Valid()
      && BitStr(buf[..size], unused).ZeroUnused()
    }

    ghost function Bits(): seq<bool>
      reads this
      requires Valid()
    {
      BitStr(buf[..size], unused).Bits()
    }

    /** One zeroed octet is allocated before any text is seen. */
    constructor ()
      ensures Valid() && Bits() == [] && size == 0 && unused == 0
    {
      buf, size, unused := [0], 0, 0;
      new;
      EmptyString();
    }

    /** OCTET_STRING__convert_binary: appends the bits of a chunk of text, or fails on any other character. */
    method ConvertBinary(chunk: seq<byte>) returns (ret: int)
      requires Valid()
      modifies this
      ensures ret == if TextBits(chunk).Some? then |chunk| else -1
      ensures ret >= 0 ==> Valid() && Bits() == old(Bits()) + TextBits(chunk).value
    {
      hide BytesBits, TextBits, Holds;
      ghost var bits := Bits();
      var newSize := size + (|chunk| + 7) / 8;
      var mem := Realloc(buf, newSize + 1);
      Continue(BitStr(buf[..size], unused));
      var k, b := size, 8;
      if unused != 0 {
        k, b := size - 1, unused;
        assert mem[..k + 1] == buf[..size];
      } else {
        assert mem[..k + 1] == buf[..size] + [0];
      }
      var ok;
      ok, mem, k, b := ConvertChars(mem, k, b, chunk, bits);
      if !ok {
        buf, unused := mem, b;
        return -1;
      }
      HoldsString(mem[..k + 1], b, bits + TextBits(chunk).value);
      ghost var r := Gathered(mem[..k + 1], b);
      if b == 8 {
        size, unused := k, 0;
      } else {
        size, unused := k + 1, b;
      }
      assert size <= newSize;
      buf := mem[size := 0];
      assert buf[..size] == r.buf;
      ret := |chunk|;
    }
  }

  /** realloc: what fits of the old contents, then anything. */
  method Realloc(buf: seq<byte>, n: nat) returns (mem: seq<byte>)
    ensures |mem| == n && forall i :: 0 <= i < n && i < |buf| ==> mem[i] == buf[i]
  {
    if n <= |buf| {
      mem := buf[..n];
    } else {
      var zeros: seq<byte> := seq(n - |buf|, _ => 0);
      assert |zeros| == n - |buf|;
      var garbage: seq<byte> :| |garbage| == n - |buf|;
      mem := buf + garbage;
    }
  }

  lemma EmptyString()
    ensures BitStr([], 0).Valid() && BitStr([], 0).Bits() == [] && BitStr([], 0).ZeroUnused()
  {
    NoBits();
  }

  /** A text fed in any chunks ends in the string that the whole text stands for, or fails if there is none. */
  method ConvertAll(chunks: seq<seq<byte>>) returns (ret: int, st: BitStr)
    ensures ret == -1 || ret == |Joined(chunks)|
    ensures ret == -1 <==> TextBits(Joined(chunks)).None?
    ensures ret != -1 ==> st.Valid() && st.ZeroUnused() && TextBits(Joined(chunks)) == Some(st.Bits())
  {
    hide BytesBits, TextBits;
    var target := new BinaryString();
    var i, total := 0, 0;
    NoText();
    assert chunks[0..] == chunks;
    while i < |chunks|
      invariant 0 <= i <= |chunks| && fresh(target) && target.Valid()
      invariant total + |Joined(chunks[i..])| == |Joined(chunks)|
      invariant Ends(chunks, i, target.Bits())
    {
      assert chunks[i..][1..] == chunks[i + 1..];
      ghost var before := target.Bits();
      var n := target.ConvertBinary(chunks[i]);
      OneChunk(chunks, i, before);
      if n < 0 {
        return -1, BitStr([], 0);
      }
      i, total := i + 1, total + n;
    }
    assert chunks[|chunks|..] == [];
    assert target.Bits() + [] == target.Bits();
    ret, st := total, BitStr(target.buf[..target.size], target.unused);
  }

  /** After i chunks that gave these bits, the rest decides about the whole text. */
  ghost predicate Ends(chunks: seq<seq<byte>>, i: nat, bits: seq<bool>)
    requires i <= |chunks|
  {
    var rest := TextBits(Joined(chunks[i..]));
    TextBits(Joined(chunks)) == if rest.Some? then Some(bits + rest.value) else None
  }

  lemma NoText()
    ensures TextBits([]) == Some([])
    ensures forall t :: TextBits(t).Some? ==> [] + TextBits(t).value == TextBits(t).value
  {
  }

  lemma OneChunk(chunks: seq<seq<byte>>, i: nat, bits: seq<bool>)
    requires i < |chunks| && Ends(chunks, i, bits)
    ensures if TextBits(chunks[i]).Some? then Ends(chunks, i + 1, bits + TextBits(chunks[i]).value)
            else TextBits(Joined(chunks)).None?
  {
    hide TextBits;
    assert chunks[i..][1..] == chunks[i + 1..];
    var rest := Joined(chunks[i + 1..]);
    TextBitsSum(chunks[i], rest);
    if TextBits(chunks[i]).Some? && TextBits(rest).Some? {
      assert bits + (TextBits(chunks[i]).value + TextBits(rest).value) == bits + TextBits(chunks[i]).value + TextBits(rest).value;
    }
  }

  function Chars(b: seq<bool>): (t: seq<byte>)
    ensures |t| == |b|
  {
    seq(|b|, i requires 0 <= i < |b| => if b[i] then 0x31 else 0x30)
  }

  lemma {:induction false} CharsBits(b: seq<bool>)
    ensures TextBits(Chars(b)) == Some(b)
  {
    if b != [] {
      CharsBits(b[..|b| - 1]);
      assert Chars(b)[..|b| - 1] == Chars(b[..|b| - 1]);
      assert b == b[..|b| - 1] + [b[|b| - 1]];
    }
  }

  lemma CharsSum(a: seq<bool>, b: seq<bool>)
    ensures Chars(a + b) == Chars(a) + Chars(b)
  {
  }

  /** A line feed and four spaces for each level. */
  method Indent(level: int) returns (t: seq<byte>)
    ensures TextBits(t) == Some([])
  {
    t := [0x0a];
    assert t[..0] == [];
    var i := 0;
    while i < level
      invariant TextBits(t) == Some([])
    {
      hide TextBits;
      Spaces();
      assert TextBits(t).value + [] == [];
      TextBitsSum(t, [0x20, 0x20, 0x20, 0x20]);
      t := t + [0x20, 0x20, 0x20, 0x20];
      i := i + 1;
    }
  }

  lemma Spaces()
    ensures TextBits([0x20, 0x20, 0x20, 0x20]) == Some([])
  {
    var t: seq<byte> := [0x20, 0x20, 0x20, 0x20];
    assert t[..0] == [];
    TextBitsStep(t, 0);
    TextBitsStep(t, 1);
    TextBitsStep(t, 2);
    TextBitsStep(t, 3);
    assert t[..4] == t;
  }

  /** The entry of the pattern table for four bits. */
  function Pattern(v: nat): seq<byte> {
    Chars(BitsOf(v, 4))
  }

  lemma FourBits(v: nat)
    ensures Shr(v, 4) == v / 16
  {
    var a := v / 2;
    var b := a / 2;
    var c := b / 2;
    assert Shr(c, 1) == c / 2;
    assert Shr(b, 2) == Shr(c, 1);
    assert Shr(a, 3) == Shr(b, 2);
    assert Shr(v, 4) == Shr(a, 3);
  }

  lemma TwoPatterns(v: byte)
    ensures Pattern(v / 16) + Pattern(v % 16) == Chars(BitsOf(v, 8))
  {
    hide BitsOf, Chars;
    BitsOfSplit(v, 4, 4);
    FourBits(v);
    assert Pow(2, 4) == 16;
    BitsOfMod(v, 4, 16);
    CharsSum(BitsOf(v / 16, 4), BitsOf(v, 4));
  }

  /** The eight characters of one octet. */
  method PutOctet(scratch: array<byte>, p: nat, v: byte)
    requires p + 8 <= scratch.Length
    modifies scratch
    ensures scratch[..p + 8] == old(scratch[..p]) + Chars(BitsOf(v, 8))
  {
    hide BitsOf, Chars;
    TwoPatterns(v);
    var chars := Pattern(v / 16) + Pattern(v % 16);
    forall i | 0 <= i < 8 {
      scratch[p + i] := chars[i];
    }
  }

  lemma {:induction false} BitsOfAt(v: nat, n: nat, i: nat)
    requires i < n
    ensures BitsOf(v, n)[n - 1 - i] <==> Shr(v, i) % 2 == 1
    decreases n
  {
    if i > 0 {
      BitsOfAt(v / 2, n - 1, i - 1);
    }
  }

  /** The used bits of the last octet. */
  method LastChars(v: byte, ubits: nat) returns (t: seq<byte>)
    requires ubits < 8
    ensures t == Chars(BitsOf(v, 8)[..8 - ubits])
  {
    hide BitsOf, Shr;
    t := [];
    var i := 7;
    while i >= ubits
      invariant ubits - 1 <= i <= 7 && t == Chars(BitsOf(v, 8)[..7 - i])
    {
      BitsOfAt(v, 8, i);
      t := t + [if Shr(v, i) % 2 == 1 then 0x31 else 0x30];
      i := i - 1;
    }
  }

  /** What is on its way after i octets: sent text and the scratch pad. */
  ghost predicate Sent(text: seq<byte>, pad: seq<byte>, bits: seq<bool>, canonical: bool) {
    && TextBits(text).Some? && TextBits(pad).Some?
    && TextBits(text).value + TextBits(pad).value == bits
    && (canonical ==> text + pad == Chars(bits))
  }

  lemma SentAll(text: seq<byte>, pad: seq<byte>, bits: seq<bool>, canonical: bool)
    requires Sent(text, pad, bits, canonical)
    ensures Sent(text + pad, [], bits, canonical)
  {
    TextBitsSum(text, pad);
    NoText();
    assert text + pad + [] == text + pad;
    assert bits + [] == bits;
  }

  lemma SentIndent(text: seq<byte>, pad: seq<byte>, bits: seq<bool>, indent: seq<byte>)
    requires Sent(text, pad, bits, false) && TextBits(indent) == Some([])
    ensures Sent(text + indent, pad, bits, false)
  {
    hide TextBits;
    TextBitsSum(text, indent);
    assert TextBits(text).value + [] == TextBits(text).value;
  }

  lemma SentMore(text: seq<byte>, pad: seq<byte>, bits: seq<bool>, canonical: bool, more: seq<bool>)
    requires Sent(text, pad, bits, canonical)
    ensures Sent(text, pad + Chars(more), bits + more, canonical)
  {
    hide TextBits, Chars;
    CharsBits(more);
    TextBitsSum(pad, Chars(more));
    CharsSum(bits, more);
    assert TextBits(text).value + (TextBits(pad).value + more) == bits + more;
    assert text + (pad + Chars(more)) == text + pad + Chars(more);
  }

  /** All octets but the last one, through a scratch pad of 128 characters, eight octets to a line. */
  method PutOctets(s: seq<byte>, xcan: bool, ilevel: int) returns (text: seq<byte>)
    ensures Sent(text, [], BytesBits(s), xcan)
  {
    hide TextBits, Chars, BitsOf, Sent;
    var scratch := new byte[128];
    var p, i := 0, 0;
    text := [];
    NothingSent(xcan);
    while i < |s|
      invariant 0 <= i <= |s| && 0 <= p <= 126
      invariant Sent(text, scratch[..p], BytesBits(s[..i]), xcan)
    {
      var nline := !xcan && i % 8 == 0;
      if p >= 118 || nline {
        SentAll(text, scratch[..p], BytesBits(s[..i]), xcan);
        text := text + scratch[..p];
        p := 0;
        if nline {
          var indent := Indent(ilevel);
          SentIndent(text, [], BytesBits(s[..i]), indent);
          text := text + indent;
        }
      }
      SentMore(text, scratch[..p], BytesBits(s[..i]), xcan, BitsOf(s[i], 8));
      PutOctet(scratch, p, s[i]);
      assert s[..i + 1][..i] == s[..i];
      p := p + 8;
      i := i + 1;
    }
    assert s[..|s|] == s;
    if !xcan && i % 8 == 0 {
      var indent := Indent(ilevel);
      SentIndent(text, scratch[..p], BytesBits(s), indent);
      text := text + indent;
    }
    SentAll(text, scratch[..p], BytesBits(s), xcan);
    text := text + scratch[..p];
  }

  lemma NothingSent(canonical: bool)
    ensures Sent([], [], BytesBits([]), canonical)
  {
    NoBits();
    NoText();
  }

  /** BIT_STRING_encode_xer: the text stands for the bits of the string; the canonical text is those bits and nothing else. */
  method EncodeXer(st: BitStr, xcan: bool, ilevel: int) returns (text: seq<byte>)
    requires st.Valid()
    ensures TextBits(text) == Some(st.Bits())
    ensures xcan ==> text == Chars(st.Bits())
  {
    hide TextBits, Chars, BitsOf, BytesBits;
    var n := if |st.buf| > 0 then |st.buf| - 1 else 0;
    text := PutOctets(st.buf[..n], xcan, ilevel);
    if |st.buf| > 0 {
      var last := LastChars(st.buf[n], st.unused);
      SentMore(text, [], BytesBits(st.buf[..n]), xcan, BitsOf(st.buf[n], 8)[..8 - st.unused]);
      assert [] + last == last;
      SentAll(text, last, BytesBits(st.buf[..n]) + BitsOf(st.buf[n], 8)[..8 - st.unused], xcan);
      text := text + last;
    }
    SplitBits(st);
    if !xcan {
      var indent := Indent(ilevel - 1);
      SentIndent(text, [], st.Bits(), indent);
      text := text + indent;
    }
    SentIs(text, st.Bits(), xcan);
  }

  lemma SentIs(text: seq<byte>, bits: seq<bool>, canonical: bool)
    requires Sent(text, [], bits, canonical)
    ensures TextBits(text) == Some(bits) && (canonical ==> text == Chars(bits))
  {
    NoText();
    assert text + [] == text && TextBits(text).value + [] == TextBits(text).value;
  }

  lemma SplitBits(st: BitStr)
    requires st.Valid()
    ensures if st.buf == [] then st.Bits() == BytesBits([])
            else var n := |st.buf| - 1; st.Bits() == BytesBits(st.buf[..n]) + BitsOf(st.buf[n], 8)[..8 - st.unused]
  {
    hide BitsOf;
  }

  /** Strings with the same bits and zero unused bits are the same. */
  lemma SameString(a: BitStr, b: BitStr)
    requires a.Valid() && b.Valid() && a.ZeroUnused() && b.ZeroUnused() && a.Bits() == b.Bits()
    ensures a == b
  {
    hide BytesBits;
    assert 8 * |a.buf| - a.unused == 8 * |b.buf| - b.unused;
    assert BytesBits(a.buf) == a.Bits() + Zeros(a.unused) && BytesBits(b.buf) == b.Bits() + Zeros(b.unused);
    BytesBitsInjective(a.buf, b.buf);
  }

  /** A text cut into pieces of the given sizes, with the rest as the last piece. */
  function Cut(text: seq<byte>, sizes: seq<nat>): (pieces: seq<seq<byte>>)
    ensures Joined(pieces) == text
    decreases |sizes|
  {
    if sizes == [] then
      assert [text][1..] == [] && text + [] == text;
      [text]
    else
      var n := Min(sizes[0], |text|);
      var rest := Cut(text[n..], sizes[1..]);
      assert ([text[..n]] + rest)[1..] == rest;
      [text[..n]] + rest
  }

  /** Converting the printed text, cut into any chunks, gives the string back. */
  method XerRoundTrip(st: BitStr, xcan: bool, ilevel: int, sizes: seq<nat>) returns (back: BitStr)
    requires st.Valid() && st.ZeroUnused()
    ensures back == st
  {
    hide TextBits, BytesBits;
    var text := EncodeXer(st, xcan, ilevel);
    var ret;
    ret, back := ConvertAll(Cut(text, sizes));
    SameString(back, st);
  }
}
