/** The L of a BER TLV: fetching and serializing lengths, asn1/ber_tlv_length.c. */
module BerLength {
  import opened Arith
  import opened Base256
  import opened BerTag

  /** RSSIZE_MAX for a 64-bit size_t. */
  const LENGTH_MAX: nat := 0x3fff_ffff_ffff_ffff

  /** The value reported for the indefinite form. */
  const INDEFINITE: int := -1

  /** n more octets of a long-form length, of which len was gathered before b[i]. */
  function FetchOctets(b: seq<byte>, i: nat, n: nat, len: nat): (r: Fetch<int>)
    requires i <= |b|
    ensures r.Got? ==> r.used == i + n <= |b| && 0 <= r.value <= LENGTH_MAX
    decreases n
  {
    if n == 0 then
      if len > LENGTH_MAX then Bad else Got(i, len)
    else if i == |b| then More
    else if len >= 0x80_0000_0000_0000 then Bad
    else FetchOctets(b, i + 1, n - 1, len * 256 + b[i])
  }

  function FetchLength(constructed: bool, b: seq<byte>): (r: Fetch<int>)
    ensures r.Got? ==> 1 <= r.used <= |b| && r.used <= 127 && INDEFINITE <= r.value <= LENGTH_MAX
    ensures r.Got? && !constructed ==> r.value >= 0
  {
    if b == [] then More
    else if b[0] < 128 then Got(1, b[0])
    else if constructed && b[0] == 0x80 then Got(1, INDEFINITE)
    else if b[0] == 0xff then Bad
    else FetchOctets(b, 1, b[0] - 128, 0)
  }

  method BerFetchLength(constructed: bool, b: seq<byte>) returns (ret: int, len: int)
    ensures match FetchLength(constructed, b)
            case More => ret == 0
            case Bad => ret == -1
            case Got(used, l) => ret == used && len == l
  {
    len := 0;
    if |b| == 0 {
      return 0, 0;
    }
    var oct := b[0];
    if oct < 128 {
      return 1, oct;
    }
    if constructed && oct == 0x80 {
      return 1, INDEFINITE;
    }
    if oct == 0xff {
      return -1, 0;
    }
    oct := oct - 128;
    var skipped := 1;
    while oct > 0 && skipped + 1 <= |b|
      invariant 1 <= skipped <= |b| && 0 <= oct && 0 <= len
      invariant FetchLength(constructed, b) == FetchOctets(b, skipped, oct, len)
      decreases oct
    {
      skipped := skipped + 1;
      if len < 0x80_0000_0000_0000 {
        len := len * 256 + b[skipped - 1];
      } else {
        return -1, 0;
      }
      oct := oct - 1;
    }
    if oct == 0 {
      if len > LENGTH_MAX {
        return -1, 0;
      }
      return skipped, len;
    }
    return 0, 0;
  }

  lemma {:induction false} FetchOctetsStable(b: seq<byte>, c: seq<byte>, i: nat, n: nat, len: nat)
    requires i <= |b|
    ensures !FetchOctets(b, i, n, len).More? ==> FetchOctets(b + c, i, n, len) == FetchOctets(b, i, n, len)
    decreases n
  {
    if n > 0 && i < |b| && len < 0x80_0000_0000_0000 {
      FetchOctetsStable(b, c, i + 1, n - 1, len * 256 + b[i]);
    }
  }

  /** A length that was found, or an error, does not depend on the octets that follow. */
  lemma FetchLengthStable(constructed: bool, b: seq<byte>, c: seq<byte>)
    ensures !FetchLength(constructed, b).More? ==> FetchLength(constructed, b + c) == FetchLength(constructed, b)
  {
    if b != [] && b[0] > 127 {
      FetchOctetsStable(b, c, 1, b[0] - 128, 0);
    }
  }

  lemma {:induction false} FetchOctetsLocal(b: seq<byte>, i: nat, n: nat, len: nat)
    requires i <= |b| && FetchOctets(b, i, n, len).Got?
    ensures FetchOctets(b[..i + n], i, n, len) == FetchOctets(b, i, n, len)
    decreases n
  {
    if n > 0 {
      FetchOctetsLocal(b, i + 1, n - 1, len * 256 + b[i]);
    }
  }

  /** A fetched length depends only on the octets reported as used. */
  lemma FetchLengthLocal(constructed: bool, b: seq<byte>)
    requires FetchLength(constructed, b).Got?
    ensures FetchLength(constructed, b[..FetchLength(constructed, b).used]) == FetchLength(constructed, b)
  {
    if b[0] > 127 && !(constructed && b[0] == 0x80) {
      FetchOctetsLocal(b, 1, b[0] - 128, 0);
    }
  }

  /** What the DER serializer writes: the short form up to 127, then the fewest octets. */
  function LengthOctets(len: nat): (s: seq<byte>)
    requires len <= LENGTH_MAX
  {
    EightOctets(len);
    if len <= 127 then [len] else [128 + |Octets(len)|] + Octets(len)
  }

  lemma EightOctets(len: nat)
    requires len <= 0x7fff_ffff_ffff_ffff
    ensures |Octets(len)| <= 8
  {
    OctetsLength(len, 8);
    Shift8Next(len, 0);
    Shift8Next(len, 1);
    Shift8Next(len, 2);
    Shift8Next(len, 3);
    Shift8Next(len, 4);
    Shift8Next(len, 5);
    Shift8Next(len, 6);
    Shift8Next(len, 7);
  }

  lemma {:induction false} FetchPrefix(b: seq<byte>, i: nat, u: nat, n: nat)
    requires u <= LENGTH_MAX
    requires i + |Octets(u)| <= |b| && b[i..i + |Octets(u)|] == Octets(u)
    ensures FetchOctets(b, i, |Octets(u)| + n, 0) == FetchOctets(b, i + |Octets(u)|, n, u)
    decreases u
  {
    if u > 0 {
      var m := |Octets(u / 256)|;
      assert b[i..i + m] == Octets(u)[..m] == Octets(u / 256);
      assert b[i + m] == Octets(u)[m] == u % 256;
      FetchPrefix(b, i, u / 256, n + 1);
    }
  }

  /** Fetching inverts serializing for every length in range, in either form, whatever follows. */
  lemma LengthRoundTrip(constructed: bool, len: nat, rest: seq<byte>)
    requires len <= LENGTH_MAX
    ensures FetchLength(constructed, LengthOctets(len) + rest) == Got(|LengthOctets(len)|, len)
  {
    if len > 127 {
      EightOctets(len);
      OctetsLength(len, 0);
      var b := LengthOctets(len) + rest;
      assert b[1..1 + |Octets(len)|] == Octets(len);
      FetchPrefix(b, 1, len, 0);
    }
  }

  lemma {:induction false} FetchOctetsValue(b: seq<byte>, i: nat, n: nat, len: nat)
    requires 1 <= i <= |b| && len == Value(b[1..i])
    requires FetchOctets(b, i, n, len).Got?
    ensures FetchOctets(b, i, n, len).value == Value(b[1..i + n])
    decreases n
  {
    if n > 0 {
      assert b[1..i + 1] == b[1..i] + [b[i]];
      ValueSnoc(b[1..i], b[i]);
      FetchOctetsValue(b, i + 1, n - 1, len * 256 + b[i]);
    }
  }

  /** No accepted definite form of a length is shorter than the serialized one. */
  lemma LengthMinimal(constructed: bool, b: seq<byte>)
    requires FetchLength(constructed, b).Got? && FetchLength(constructed, b).value >= 0
    ensures |LengthOctets(FetchLength(constructed, b).value)| <= FetchLength(constructed, b).used
  {
    if b[0] > 127 {
      FetchOctetsValue(b, 1, b[0] - 128, 0);
      OctetsMinimal(b[1..1 + (b[0] - 128)]);
    }
  }

  /** The size loop of the serializer; the source's shift count is 8 * i. */
  method CountOctets(len: nat) returns (required: nat)
    requires 127 < len <= 0x7fff_ffff_ffff_ffff
    ensures required == |Octets(len)|
  {
    required := 1;
    var i := 1;
    OctetsLength(len, 0);
    while i < 8
      invariant required == i <= 8
      invariant i <= |Octets(len)|
    {
      OctetsLength(len, i);
      if Shift8(len, i) > 0 {
        required := required + 1;
      } else {
        return;
      }
      i := i + 1;
    }
    EightOctets(len);
  }

  /** Serializes into a buffer, leaving it alone when it is too short, and reports the size needed. */
  method LengthSerialize(len: nat, buf: array<byte>) returns (required: nat)
    requires len <= LENGTH_MAX
    modifies buf
    ensures required == |LengthOctets(len)|
    ensures required <= buf.Length ==> buf[..required] == LengthOctets(len)
    ensures forall k :: 0 <= k < buf.Length && (required <= k || buf.Length < required)
                        ==> buf[k] == old(buf[k])
  {
    if len <= 127 {
      if buf.Length > 0 {
        buf[0] := len;
      }
      return 1;
    }
    var req := CountOctets(len);
    if buf.Length <= req {
      return req + 1;
    }
    EightOctets(len);
    buf[0] := 128 + req;
    var p := 0;
    while p < req
      invariant p <= req
      invariant buf[0] == 128 + req
      invariant buf[1..1 + p] == Octets(len)[..p]
      invariant forall k :: req < k < buf.Length ==> buf[k] == old(buf[k])
    {
      OctetsAt(len, req - 1 - p);
      buf[1 + p] := Shift8(len, req - 1 - p) % 256;
      p := p + 1;
    }
    assert buf[1..1 + req] == Octets(len);
    required := req + 1;
  }
}
