/** INTEGER as two's-complement octets: the DER stripping and the 64-bit conversions of asn1/INTEGER.c. */
module Integer {
  import opened Arith

  /** The two's-complement value of an octet string; an empty one is taken as 0. */
  function Signed(s: seq<byte>): int {
    if s == [] then 0
    else if |s| == 1 then if s[0] < 128 then s[0] else s[0] - 256
    else 256 * Signed(s[..|s| - 1]) + s[|s| - 1]
  }

  /** The first nine bits are all zeros or all ones: the first octet says nothing. */
  predicate Superfluous(s: seq<byte>) {
    |s| > 1 && ((s[0] == 0 && s[1] < 128) || (s[0] == 255 && s[1] >= 128))
  }

  function Strip(s: seq<byte>): (r: seq<byte>)
    ensures |r| <= |s| && (s != [] ==> r != []) && !Superfluous(r)
  {
    if Superfluous(s) then Strip(s[1..]) else s
  }

  /** The loop that finds the first significant octet, used for encoding and for both conversions. */
  method SkipSuperfluous(s: seq<byte>) returns (r: seq<byte>)
    ensures r == Strip(s)
  {
    var b := 0;
    assert s[0..] == s;
    while b < |s| - 1
      invariant 0 <= b <= |s| && Strip(s) == Strip(s[b..])
    {
      assert s[b..][1..] == s[b + 1..];
      if s[b] == 0x00 {
        if s[b + 1] < 0x80 {
          b := b + 1;
          continue;
        }
      } else if s[b] == 0xff {
        if s[b + 1] >= 0x80 {
          b := b + 1;
          continue;
        }
      }
      break;
    }
    r := s[b..];
  }

  lemma {:induction false} DropFirst(s: seq<byte>)
    requires Superfluous(s)
    ensures Signed(s[1..]) == Signed(s)
  {
    var n := |s| - 1;
    if n == 1 {
      assert s[..1][0] == s[0];
    } else {
      DropFirst(s[..n]);
      assert s[..n][1..] == s[1..][..n - 1];
    }
  }

  /** Stripping keeps the value. */
  lemma {:induction false} StripValue(s: seq<byte>)
    ensures Signed(Strip(s)) == Signed(s)
  {
    if Superfluous(s) {
      DropFirst(s);
      StripValue(s[1..]);
    }
  }

  /** n octets hold the numbers from -Half(n) to Half(n) - 1. */
  function Half(n: nat): (h: int)
    requires n > 0
    ensures h >= 128
  {
    if n == 1 then 128 else 256 * Half(n - 1)
  }

  lemma {:induction false} SignedRange(s: seq<byte>)
    requires s != []
    ensures -Half(|s|) <= Signed(s) < Half(|s|)
  {
    if |s| > 1 {
      SignedRange(s[..|s| - 1]);
    }
  }

  /** A string without superfluous octets does not fit into fewer octets. */
  lemma {:induction false} MinimalRange(s: seq<byte>)
    requires |s| > 1 && !Superfluous(s)
    ensures Signed(s) < -Half(|s| - 1) || Half(|s| - 1) <= Signed(s)
  {
    var n := |s| - 1;
    if n > 1 {
      assert s[..n][0] == s[0] && s[..n][1] == s[1];
      MinimalRange(s[..n]);
    } else {
      assert s[..1][0] == s[0];
    }
  }

  lemma {:induction false} HalfMono(m: nat, n: nat)
    requires 0 < m <= n
    ensures Half(m) <= Half(n)
  {
    if m < n {
      HalfMono(m, n - 1);
    }
  }

  /** No octet string of the same value is shorter than the stripped one. */
  lemma StripShortest(s: seq<byte>, t: seq<byte>)
    requires s != [] && t != [] && Signed(t) == Signed(s)
    ensures |Strip(s)| <= |t|
  {
    hide Signed, Strip, Half, Superfluous;
    var m := Strip(s);
    StripValue(s);
    if |m| > 1 && |t| < |m| {
      MinimalRange(m);
      SignedRange(t);
      HalfMono(|t|, |m| - 1);
    }
  }

  lemma {:induction false} SignedInjective(s: seq<byte>, t: seq<byte>)
    requires |s| == |t| && Signed(s) == Signed(t)
    ensures s == t
  {
    if |s| > 1 {
      var n := |s| - 1;
      SignedInjective(s[..n], t[..n]);
      assert s == s[..n] + [s[n]] && t == t[..n] + [t[n]];
    }
  }

  /** Strings of the same value are stripped to the same octets. */
  lemma StripUnique(s: seq<byte>, t: seq<byte>)
    requires s != [] && t != [] && Signed(s) == Signed(t)
    ensures Strip(s) == Strip(t)
  {
    hide Signed, Strip;
    StripValue(s);
    StripValue(t);
    StripShortest(s, Strip(t));
    StripShortest(t, Strip(s));
    SignedInjective(Strip(s), Strip(t));
  }

  const INTMAX_LIMIT: int := 0x8000_0000_0000_0000

  lemma Half8()
    ensures Half(8) == INTMAX_LIMIT
  {
    assert Half(1) == 128;
    assert Half(3) == 65536 * Half(1);
    assert Half(5) == 65536 * Half(3);
    assert Half(7) == 65536 * Half(5);
  }

  /** A value fits into 64 signed bits exactly when eight octets are left after stripping. */
  lemma FitsInEight(s: seq<byte>)
    requires s != []
    ensures |Strip(s)| <= 8 <==> -INTMAX_LIMIT <= Signed(s) < INTMAX_LIMIT
  {
    hide Signed, Strip;
    Half8();
    StripValue(s);
    var m := Strip(s);
    SignedRange(m);
    if |m| <= 8 {
      HalfMono(|m|, 8);
    } else {
      MinimalRange(m);
      HalfMono(8, |m| - 1);
    }
  }

  /** A 64-bit register read as a signed number. */
  function AsSigned(v: int): int {
    if v < INTMAX_LIMIT then v else v - 2 * INTMAX_LIMIT
  }

  /** asn__integer_convert: a 64-bit register filled from the left after setting the sign. */
  method Convert(s: seq<byte>) returns (r: int)
    requires 0 < |s| <= 8
    ensures r == Signed(s)
  {
    hide Signed;
    var modulus := 2 * INTMAX_LIMIT;
    var value := if s[0] >= 128 then modulus - 1 else 0;
    var i := 0;
    while i < |s|
      invariant 0 <= i <= |s| && 0 <= value < modulus
      invariant i == 0 ==> value == if s[0] >= 128 then modulus - 1 else 0
      invariant i > 0 ==> AsSigned(value) == Signed(s[..i])
    {
      ConvertStep(s, i, value);
      value := (value * 256 + s[i]) % modulus;
      i := i + 1;
    }
    assert s[..|s|] == s;
    r := AsSigned(value);
  }

  lemma ConvertStep(s: seq<byte>, i: nat, value: int)
    requires i < |s| <= 8 && 0 <= value < 2 * INTMAX_LIMIT
    requires i == 0 ==> value == if s[0] >= 128 then 2 * INTMAX_LIMIT - 1 else 0
    requires i > 0 ==> AsSigned(value) == Signed(s[..i])
    ensures AsSigned((value * 256 + s[i]) % (2 * INTMAX_LIMIT)) == Signed(s[..i + 1])
  {
    var t := s[..i + 1];
    assert t[..i] == s[..i] && t[i] == s[i] && t[0] == s[0];
    Half8();
    HalfMono(i + 1, 8);
    SignedRange(t);
    var y := Signed(t);
    assert y == 256 * AsSigned(value) + s[i];
    hide Signed, Half;
    Wrap(y, if value < INTMAX_LIMIT then 0 else 256);
  }

  lemma Wrap(y: int, k: int)
    requires -INTMAX_LIMIT <= y < INTMAX_LIMIT && (k == 0 || k == 256)
    ensures AsSigned((y + k * (2 * INTMAX_LIMIT)) % (2 * INTMAX_LIMIT)) == y
  {
    var m := 2 * INTMAX_LIMIT;
    if y >= 0 {
      DivModUnique(y + k * m, m, k, y);
    } else {
      DivModUnique(y + k * m, m, k - 1, y + m);
    }
  }

  /** asn_INTEGER2imax: succeeds exactly when the value fits, and returns it. */
  method Integer2imax(buf: seq<byte>) returns (ret: int, value: int)
    ensures ret == 0 <==> -INTMAX_LIMIT <= Signed(buf) < INTMAX_LIMIT
    ensures ret == 0 ==> value == Signed(buf)
    ensures ret == 0 || ret == -1
  {
    hide Signed, Strip;
    var b := buf;
    if |b| > 8 {
      b := SkipSuperfluous(b);
      FitsInEight(buf);
      if |b| > 8 {
        return -1, 0;
      }
    }
    SmallFits(buf);
    StripValue(buf);
    if b == [] {
      return 0, 0;
    }
    value := Convert(b);
    ret := 0;
  }

  lemma SmallFits(s: seq<byte>)
    ensures |s| <= 8 ==> -INTMAX_LIMIT <= Signed(s) < INTMAX_LIMIT
    ensures s == [] ==> Signed(s) == 0
  {
    if 0 < |s| <= 8 {
      Half8();
      SignedRange(s);
      HalfMono(|s|, 8);
    }
  }

  /** The n octets of a register that holds v. */
  function Register(v: int, n: nat): (s: seq<byte>)
    ensures |s| == n
    decreases n
  {
    if n == 0 then [] else Register(v / 256, n - 1) + [v % 256]
  }

  lemma {:induction false} RegisterValue(v: int, n: nat)
    requires n > 0 && -Half(n) <= v < Half(n)
    ensures Signed(Register(v, n)) == v
    decreases n
  {
    if n > 1 {
      RegisterValue(v / 256, n - 1);
      assert Register(v, n)[..n - 1] == Register(v / 256, n - 1);
    } else {
      assert Register(v / 256, 0) == [];
    }
  }

  /** asn_imax2INTEGER: the fewest octets for a 64-bit number. */
  method Imax2integer(value: int) returns (buf: seq<byte>)
    requires -INTMAX_LIMIT <= value < INTMAX_LIMIT
    ensures Signed(buf) == value && buf != [] && !Superfluous(buf)
  {
    hide Signed;
    Half8();
    RegisterValue(value, 8);
    StripValue(Register(value, 8));
    buf := SkipSuperfluous(Register(value, 8));
  }

  /** Converting to octets and back gives the number again. */
  method ThereAndBack(value: int) returns (r: int)
    requires -INTMAX_LIMIT <= value < INTMAX_LIMIT
    ensures r == value
  {
    var buf := Imax2integer(value);
    var ret;
    ret, r := Integer2imax(buf);
  }
}
