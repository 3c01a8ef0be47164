/** Unsigned big-endian octet strings. */
module Base256 {
  import opened Arith

  /** v >> (8 * j) */
  function Shift8(v: nat, j: nat): nat {
    if j == 0 then v else Shift8(v / 256, j - 1)
  }

  lemma {:induction false} Shift8Next(v: nat, j: nat)
    ensures Shift8(v, j + 1) == Shift8(v, j) / 256
  {
    if j > 0 {
      Shift8Next(v / 256, j - 1);
    }
  }

  /** The number that an octet string denotes. */
  function Value(s: seq<byte>): nat {
    if s == [] then 0 else Value(s[..|s| - 1]) * 256 + s[|s| - 1]
  }

  /** The shortest octet string for v, empty for 0. */
  function Octets(v: nat): seq<byte> {
    if v == 0 then [] else Octets(v / 256) + [v % 256]
  }

  /** (v << 8) | x */
  function Join(v: nat, x: byte): nat {
    v * 256 + x
  }

  lemma ValueOf1(s: seq<byte>)
    requires |s| == 1
    ensures Value(s) == s[0]
  {
    assert s[..0] == [];
  }

  lemma ValueOf2(s: seq<byte>)
    requires |s| == 2
    ensures Value(s) == Join(s[0], s[1])
  {
    ValueOf1(s[..1]);
  }

  lemma ValueOf3(s: seq<byte>)
    requires |s| == 3
    ensures Value(s) == Join(Join(s[0], s[1]), s[2])
  {
    ValueOf2(s[..2]);
  }

  lemma ValueOf4(s: seq<byte>)
    requires |s| == 4
    ensures Value(s) == Join(Join(Join(s[0], s[1]), s[2]), s[3])
  {
    ValueOf3(s[..3]);
  }

  lemma ValueSnoc(s: seq<byte>, x: byte)
    ensures Value(s + [x]) == Value(s) * 256 + x
  {
    assert (s + [x])[..|s|] == s;
  }

  lemma {:induction false} OctetsMinimal(s: seq<byte>)
    ensures |Octets(Value(s))| <= |s|
  {
    if s != [] {
      OctetsMinimal(s[..|s| - 1]);
    }
  }

  lemma {:induction false} OctetsLength(v: nat, j: nat)
    ensures j < |Octets(v)| <==> Shift8(v, j) > 0
  {
    if v > 0 && j > 0 {
      OctetsLength(v / 256, j - 1);
    } else if j > 0 {
      OctetsLength(0, j - 1);
    }
  }

  lemma {:induction false} OctetsAt(v: nat, j: nat)
    requires j < |Octets(v)|
    ensures Octets(v)[|Octets(v)| - 1 - j] == Shift8(v, j) % 256
  {
    if j > 0 {
      OctetsAt(v / 256, j - 1);
    }
  }
}
