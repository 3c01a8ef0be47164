/** The order of octet strings by memcmp and length. */
module ByteOrder {
  import opened Arith

  /** The sign of memcmp over the first n octets. */
  function MemCmp(a: seq<byte>, b: seq<byte>, n: nat): (r: int)
    requires n <= |a| && n <= |b|
    ensures -1 <= r <= 1
  {
    if n == 0 then 0
    else if MemCmp(a, b, n - 1) != 0 then MemCmp(a, b, n - 1)
    else if a[n - 1] < b[n - 1] then -1
    else if a[n - 1] > b[n - 1] then 1
    else 0
  }

  /** The common prefix decides, then the length; _el_buf_cmp of asn1/constr_SET_OF.c. */
  function Cmp(a: seq<byte>, b: seq<byte>): (r: int)
    ensures -1 <= r <= 1
  {
    var c := MemCmp(a, b, Min(|a|, |b|));
    if c != 0 then c else if |a| < |b| then -1 else if |a| > |b| then 1 else 0
  }

  lemma {:induction false} MemCmpZero(a: seq<byte>, b: seq<byte>, n: nat)
    requires n <= |a| && n <= |b|
    ensures MemCmp(a, b, n) == 0 <==> a[..n] == b[..n]
  {
    if n > 0 {
      MemCmpZero(a, b, n - 1);
      assert a[..n] == a[..n - 1] + [a[n - 1]] && b[..n] == b[..n - 1] + [b[n - 1]];
    }
  }

  lemma {:induction false} MemCmpSwap(a: seq<byte>, b: seq<byte>, n: nat)
    requires n <= |a| && n <= |b|
    ensures MemCmp(b, a, n) == -MemCmp(a, b, n)
  {
    if n > 0 {
      MemCmpSwap(a, b, n - 1);
    }
  }

  /** A comparison that was decided stays decided, and one over a prefix says how longer ones start. */
  lemma {:induction false} MemCmpExtends(a: seq<byte>, b: seq<byte>, m: nat, n: nat)
    requires m <= n <= |a| && n <= |b|
    ensures MemCmp(a, b, m) != 0 ==> MemCmp(a, b, n) == MemCmp(a, b, m)
  {
    if m < n {
      MemCmpExtends(a, b, m, n - 1);
    }
  }

  lemma {:induction false} MemCmpTransitive(a: seq<byte>, b: seq<byte>, c: seq<byte>, n: nat)
    requires n <= |a| && n <= |b| && n <= |c|
    requires MemCmp(a, b, n) <= 0 && MemCmp(b, c, n) <= 0
    ensures MemCmp(a, c, n) <= 0
    ensures MemCmp(a, c, n) == 0 ==> MemCmp(a, b, n) == 0 && MemCmp(b, c, n) == 0
  {
    if n > 0 {
      MemCmpTransitive(a, b, c, n - 1);
    }
  }

  lemma CmpZero(a: seq<byte>, b: seq<byte>)
    ensures Cmp(a, b) == 0 <==> a == b
  {
    MemCmpZero(a, b, Min(|a|, |b|));
    assert |a| == |b| ==> a[..|a|] == a && b[..|b|] == b;
  }

  lemma CmpSwap(a: seq<byte>, b: seq<byte>)
    ensures Cmp(b, a) == -Cmp(a, b)
  {
    MemCmpSwap(a, b, Min(|a|, |b|));
  }

  lemma CmpTransitive(a: seq<byte>, b: seq<byte>, c: seq<byte>)
    requires Cmp(a, b) <= 0 && Cmp(b, c) <= 0
    ensures Cmp(a, c) <= 0
  {
    var n := Min(|a|, Min(|b|, |c|));
    MemCmpExtends(a, b, n, Min(|a|, |b|));
    MemCmpExtends(b, c, n, Min(|b|, |c|));
    MemCmpExtends(a, c, n, Min(|a|, |c|));
    MemCmpTransitive(a, b, c, n);
    hide MemCmp;
  }
}
