/** DER of SET OF: element encodings in ascending order, asn1/constr_SET_OF.c. */
module SetOfDer {
  import opened Arith
  import opened Wrappers
  import opened ByteOrder

  /** Filled up with zero octets to n, as section 11.6 of X.690 compares encodings. */
  function Padded(a: seq<byte>, n: nat): (r: seq<byte>)
    requires |a| <= n
    ensures |r| == n && a <= r && forall k :: |a| <= k < n ==> r[k] == 0
    decreases n - |a|
  {
    if |a| == n then a else Padded(a + [0], n)
  }

  lemma {:induction false} PaddedCmp(a: seq<byte>, b: seq<byte>, p: seq<byte>, q: seq<byte>, n: nat)
    requires n <= |p| && n <= |q| && a <= p && b <= q && Cmp(a, b) <= 0
    requires forall k :: |a| <= k < n ==> p[k] == 0
    requires forall k :: |b| <= k < n ==> q[k] == 0
    ensures MemCmp(p, q, n) <= 0
  {
    hide Cmp;
    if n > 0 {
      PaddedCmp(a, b, p, q, n - 1);
      if |b| < n <= |a| {
        LongerNotBelow(a, b, p, q, n);
      } else if n <= |a| && n <= |b| {
        PrefixNotAbove(a, b, p, q, n);
      }
    }
  }

  lemma LongerNotBelow(a: seq<byte>, b: seq<byte>, p: seq<byte>, q: seq<byte>, n: nat)
    requires a <= p && b <= q && |b| < n <= |a| && n <= |p| && n <= |q| && Cmp(a, b) <= 0
    ensures MemCmp(p, q, n) == -1
  {
    MemCmpSame(a, b, p, q, |b|);
    MemCmpExtends(p, q, |b|, n);
  }

  lemma PrefixNotAbove(a: seq<byte>, b: seq<byte>, p: seq<byte>, q: seq<byte>, n: nat)
    requires a <= p && b <= q && n <= |a| && n <= |b| && Cmp(a, b) <= 0
    ensures MemCmp(p, q, n) <= 0
  {
    MemCmpSame(a, b, p, q, n);
    MemCmpExtends(a, b, n, Min(|a|, |b|));
  }

  lemma {:induction false} MemCmpSame(a: seq<byte>, b: seq<byte>, p: seq<byte>, q: seq<byte>, n: nat)
    requires a <= p && b <= q && n <= |a| && n <= |b|
    ensures MemCmp(p, q, n) == MemCmp(a, b, n)
  {
    if n > 0 {
      MemCmpSame(a, b, p, q, n - 1);
    }
  }

  /** The order of the encodings is ascending in the sense of section 11.6 of X.690. */
  lemma CmpIsPadded(a: seq<byte>, b: seq<byte>, n: nat)
    requires Cmp(a, b) <= 0 && |a| <= n && |b| <= n
    ensures MemCmp(Padded(a, n), Padded(b, n), n) <= 0
  {
    hide Cmp, MemCmp;
    PaddedCmp(a, b, Padded(a, n), Padded(b, n), n);
  }

  predicate Sorted(s: seq<seq<byte>>) {
    forall i, j :: 0 <= i < j < |s| ==> Cmp(s[i], s[j]) <= 0
  }

  function Insert(x: seq<byte>, s: seq<seq<byte>>): seq<seq<byte>> {
    if s == [] then [x] else if Cmp(x, s[0]) <= 0 then [x] + s else [s[0]] + Insert(x, s[1..])
  }

  lemma {:induction false} InsertKeeps(x: seq<byte>, s: seq<seq<byte>>)
    requires Sorted(s)
    ensures multiset(Insert(x, s)) == multiset(s) + multiset{x}
    ensures Sorted(Insert(x, s))
  {
    InsertAdds(x, s);
    hide Cmp, Sorted;
    if s == [] {
      SortedOne(x);
    } else if Cmp(x, s[0]) <= 0 {
      SmallestFirst(x, s);
      SortedBefore(x, s);
    } else {
      SortedTail(s);
      InsertKeeps(x, s[1..]);
      CmpSwap(x, s[0]);
      InsertBelow(s[0], x, s[1..]);
      SortedBefore(s[0], Insert(x, s[1..]));
    }
  }

  lemma SortedOne(x: seq<byte>)
    ensures Sorted([x])
  {
  }

  lemma SortedTail(s: seq<seq<byte>>)
    requires Sorted(s) && s != []
    ensures Sorted(s[1..]) && forall k :: 0 <= k < |s[1..]| ==> Cmp(s[0], s[1..][k]) <= 0
  {
    hide Cmp;
  }

  lemma SortedBefore(x: seq<byte>, s: seq<seq<byte>>)
    requires Sorted(s) && forall k :: 0 <= k < |s| ==> Cmp(x, s[k]) <= 0
    ensures Sorted([x] + s)
  {
    hide Cmp;
  }

  lemma {:induction false} InsertAdds(x: seq<byte>, s: seq<seq<byte>>)
    ensures multiset(Insert(x, s)) == multiset(s) + multiset{x}
  {
    hide Cmp;
    if s != [] {
      InsertAdds(x, s[1..]);
      assert s == [s[0]] + s[1..];
    }
  }

  lemma SmallestFirst(x: seq<byte>, s: seq<seq<byte>>)
    requires Sorted(s) && s != [] && Cmp(x, s[0]) <= 0
    ensures forall k :: 0 <= k < |s| ==> Cmp(x, s[k]) <= 0
  {
    hide Cmp;
    forall k | 0 < k < |s|
      ensures Cmp(x, s[k]) <= 0
    {
      CmpTransitive(x, s[0], s[k]);
    }
  }

  lemma InsertBelow(low: seq<byte>, x: seq<byte>, t: seq<seq<byte>>)
    requires multiset(Insert(x, t)) == multiset(t) + multiset{x}
    requires Cmp(low, x) <= 0 && forall k :: 0 <= k < |t| ==> Cmp(low, t[k]) <= 0
    ensures forall k :: 0 <= k < |Insert(x, t)| ==> Cmp(low, Insert(x, t)[k]) <= 0
  {
    hide Cmp;
    var r := Insert(x, t);
    hide Insert;
    forall k | 0 <= k < |r|
      ensures Cmp(low, r[k]) <= 0
    {
      assert r[k] in multiset(r);
      assert r[k] in multiset(t) || r[k] == x;
    }
  }

  /** qsort, of which only the result counts. */
  method Qsort(els: seq<seq<byte>>) returns (r: seq<seq<byte>>)
    ensures Sorted(r) && multiset(r) == multiset(els)
  {
    hide Cmp, Insert;
    r := [];
    var i := 0;
    while i < |els|
      invariant 0 <= i <= |els| && Sorted(r) && multiset(r) == multiset(els[..i])
    {
      InsertKeeps(els[i], r);
      assert els[..i + 1] == els[..i] + [els[i]];
      r := Insert(els[i], r);
      i := i + 1;
    }
    assert els[..|els|] == els;
  }

  lemma SameHeads(a: seq<seq<byte>>, b: seq<seq<byte>>)
    requires Sorted(a) && Sorted(b) && multiset(a) == multiset(b) && a != []
    ensures b != [] && a[0] == b[0]
  {
    hide Cmp, Sorted;
    assert a[0] in multiset(b);
    assert b[0] in multiset(a);
    FirstIsLeast(a, b[0]);
    FirstIsLeast(b, a[0]);
    CmpSwap(a[0], b[0]);
    CmpZero(a[0], b[0]);
  }

  lemma RemoveAt<T>(s: seq<T>, k: nat)
    requires k < |s|
    ensures multiset(s[..k] + s[k + 1..]) == multiset(s) - multiset{s[k]}
  {
    assert s == s[..k] + ([s[k]] + s[k + 1..]);
  }

  lemma TailOf(s: seq<seq<byte>>)
    requires s != []
    ensures multiset(s[1..]) == multiset(s) - multiset{s[0]}
    ensures Sorted(s) ==> Sorted(s[1..])
  {
    hide Cmp;
    assert s == [s[0]] + s[1..];
  }

  /** There is only one ascending arrangement. */
  lemma {:induction false} SortedUnique(a: seq<seq<byte>>, b: seq<seq<byte>>)
    requires Sorted(a) && Sorted(b) && multiset(a) == multiset(b)
    ensures a == b
  {
    hide Cmp, Sorted;
    if a != [] {
      SameHeads(a, b);
      TailOf(a);
      TailOf(b);
      SortedUnique(a[1..], b[1..]);
      assert a == [a[0]] + a[1..] && b == [b[0]] + b[1..];
    } else if b != [] {
      SameHeads(b, a);
    }
  }

  lemma FirstIsLeast(s: seq<seq<byte>>, x: seq<byte>)
    requires Sorted(s) && x in multiset(s)
    ensures Cmp(s[0], x) <= 0
  {
    hide Cmp;
    var k :| 0 <= k < |s| && s[k] == x;
    CmpZero(s[0], s[0]);
  }

  function TotalSize(s: seq<seq<byte>>): nat {
    if s == [] then 0 else |s[0]| + TotalSize(s[1..])
  }

  lemma {:induction false} JoinedSize(s: seq<seq<byte>>)
    ensures |Joined(s)| == TotalSize(s)
  {
    if s != [] {
      JoinedSize(s[1..]);
    }
  }

  lemma {:induction false} TotalSizeSum(a: seq<seq<byte>>, b: seq<seq<byte>>)
    ensures TotalSize(a + b) == TotalSize(a) + TotalSize(b)
  {
    if a == [] {
      assert a + b == b;
    } else {
      assert (a + b)[1..] == a[1..] + b;
      TotalSizeSum(a[1..], b);
    }
  }

  lemma TotalSizeWithout(b: seq<seq<byte>>, k: nat)
    requires k < |b|
    ensures TotalSize(b) == |b[k]| + TotalSize(b[..k] + b[k + 1..])
  {
    var t := [b[k]] + b[k + 1..];
    assert b == b[..k] + t;
    TotalSizeSum(b[..k], t);
    TotalSizeSum(b[..k], b[k + 1..]);
    assert t[1..] == b[k + 1..];
  }

  lemma {:induction false} TotalSizePermuted(a: seq<seq<byte>>, b: seq<seq<byte>>)
    requires multiset(a) == multiset(b)
    ensures TotalSize(a) == TotalSize(b)
  {
    hide Sorted;
    if a == [] {
      assert b == [];
    } else {
      var k := Partner(a, b);
      TotalSizePermuted(a[1..], b[..k] + b[k + 1..]);
      TotalSizeWithout(b, k);
    }
  }

  /** The DER encoding of a SET OF with the given element encodings: header, then the elements in order. */
  ghost predicate IsSetOf(header: nat -> seq<byte>, els: seq<seq<byte>>, out: seq<byte>) {
    exists sorted: seq<seq<byte>> ::
      Sorted(sorted) && multiset(sorted) == multiset(els) && out == header(TotalSize(els)) + Joined(sorted)
  }

  /** Canonical: lists that are permutations of each other have one and the same encoding. */
  lemma Canonical(header: nat -> seq<byte>, els1: seq<seq<byte>>, els2: seq<seq<byte>>, out1: seq<byte>, out2: seq<byte>)
    requires multiset(els1) == multiset(els2)
    requires IsSetOf(header, els1, out1) && IsSetOf(header, els2, out2)
    ensures out1 == out2
  {
    hide Sorted;
    var s1: seq<seq<byte>> :| Sorted(s1) && multiset(s1) == multiset(els1) && out1 == header(TotalSize(els1)) + Joined(s1);
    var s2: seq<seq<byte>> :| Sorted(s2) && multiset(s2) == multiset(els2) && out2 == header(TotalSize(els2)) + Joined(s2);
    SortedUnique(s1, s2);
    TotalSizePermuted(els1, els2);
  }

  /** A growing buffer that collects the encoding of one element. */
  class ElBuffer {
    var buf: seq<byte>
    var capacity: nat

    ghost predicate Valid()
      reads this
    {
      |buf| <= capacity
    }

    constructor ()
      ensures Valid() && buf == []
    {
      buf, capacity := [], 0;
    }

    /** _el_addbytes: the capacity is quadrupled until the data fits. */
    method AddBytes(data: seq<byte>)
      requires Valid()
      modifies this
      ensures Valid() && buf == old(buf) + data
    {
      if |buf| + |data| > capacity {
        var size := 4 * (if capacity > 0 then capacity else 8);
        while |buf| + |data| > size
          invariant size > 0
          decreases |buf| + |data| - size
        {
          size := 4 * size;
        }
        capacity := size;
      }
      buf := buf + data;
    }
  }

  /** The element encodings of a list, if every element can be encoded. */
  function Encodings<T>(enc: T -> Option<seq<byte>>, list: seq<T>): Option<seq<seq<byte>>> {
    if list == [] then Some([])
    else
      var rest := Encodings(enc, list[1..]);
      if enc(list[0]).Some? && rest.Some? then Some([enc(list[0]).value] + rest.value) else None
  }

  /** The size that the element encoder announces without writing; -1 when it fails. */
  function SizeOf<T>(enc: T -> Option<seq<byte>>, x: T): int {
    if enc(x).Some? then |enc(x).value| else -1
  }

  /** Encodes every element into a buffer of its own and sorts the buffers. */
  method EncodeSorted<T>(enc: T -> Option<seq<byte>>, list: seq<T>) returns (els: seq<seq<byte>>)
    requires Encodings(enc, list).Some?
    ensures Sorted(els) && multiset(els) == multiset(Encodings(enc, list).value)
  {
    hide Sorted, Encodings;
    var encoded: seq<seq<byte>> := [];
    var edx := 0;
    assert list[..0] == [];
    EncodingsEmpty(enc);
    while edx < |list|
      invariant 0 <= edx <= |list| && Encodings(enc, list[..edx]) == Some(encoded)
    {
      EncodingsTake(enc, list, edx);
      var el := new ElBuffer();
      el.AddBytes(enc(list[edx]).value);
      assert [] + enc(list[edx]).value == enc(list[edx]).value;
      encoded := encoded + [el.buf];
      edx := edx + 1;
    }
    assert list[..|list|] == list;
    els := Qsort(encoded);
  }

  /** Announces the size, writes the header for it and then the sorted elements. */
  method EncodeDer<T>(header: nat -> seq<byte>, enc: T -> Option<seq<byte>>, list: seq<T>)
    returns (encoded: int, out: seq<byte>)
    ensures Encodings(enc, list).None? ==> encoded == -1 && out == []
    ensures Encodings(enc, list).Some? ==> IsSetOf(header, Encodings(enc, list).value, out) && encoded == |out|
  {
    hide Cmp, Sorted;
    out := [];
    var computed, edx := 0, 0;
    assert list[0..] == list;
    while edx < |list|
      invariant 0 <= edx <= |list| && 0 <= computed
      invariant Encodings(enc, list).Some? <==> Encodings(enc, list[edx..]).Some?
      invariant Encodings(enc, list).Some? ==>
                  computed + TotalSize(Encodings(enc, list[edx..]).value) == TotalSize(Encodings(enc, list).value)
    {
      assert list[edx..][1..] == list[edx + 1..];
      var size := SizeOf(enc, list[edx]);
      if size == -1 {
        return -1, out;
      }
      ghost var rest := Encodings(enc, list[edx + 1..]);
      if rest.Some? {
        assert ([enc(list[edx]).value] + rest.value)[1..] == rest.value;
      }
      computed := computed + size;
      edx := edx + 1;
    }
    out := header(computed);
    ghost var head := out;
    encoded := computed + |out|;
    var els := EncodeSorted(enc, list);
    TotalSizePermuted(els, Encodings(enc, list).value);
    JoinedSize(els);
    var i := 0;
    assert els[0..] == els && head + [] == head;
    while i < |els|
      invariant 0 <= i <= |els| && out + Joined(els[i..]) == head + Joined(els)
    {
      assert els[i..][1..] == els[i + 1..];
      assert out + (els[i] + Joined(els[i + 1..])) == out + els[i] + Joined(els[i + 1..]);
      out := out + els[i];
      i := i + 1;
    }
    assert out == head + Joined(els);
  }

  lemma EncodingsEmpty<T>(enc: T -> Option<seq<byte>>)
    ensures Encodings(enc, []) == Some([])
  {
  }

  /** The encodings of one element more. */
  lemma EncodingsTake<T>(enc: T -> Option<seq<byte>>, list: seq<T>, k: nat)
    requires k < |list| && Encodings(enc, list).Some?
    ensures enc(list[k]).Some? && Encodings(enc, list[..k]).Some?
    ensures Encodings(enc, list[..k + 1]) == Some(Encodings(enc, list[..k]).value + [enc(list[k]).value])
  {
    hide Encodings;
    EncodingsSum(enc, list[..k], [list[k]]);
    EncodingsOne(enc, list[k]);
    assert list[..k + 1] == list[..k] + [list[k]];
    EncodingsSum(enc, list[..k + 1], list[k + 1..]);
    assert list == list[..k + 1] + list[k + 1..];
  }

  lemma {:induction false} EncodingsSum<T>(enc: T -> Option<seq<byte>>, a: seq<T>, b: seq<T>)
    ensures var x, y := Encodings(enc, a), Encodings(enc, b);
            Encodings(enc, a + b) == if x.Some? && y.Some? then Some(x.value + y.value) else None
  {
    if a == [] {
      assert a + b == b;
      assert Encodings(enc, b).Some? ==> [] + Encodings(enc, b).value == Encodings(enc, b).value;
    } else {
      EncodingsSum(enc, a[1..], b);
      assert (a + b)[1..] == a[1..] + b;
      var x, y := Encodings(enc, a[1..]), Encodings(enc, b);
      if enc(a[0]).Some? && x.Some? && y.Some? {
        var first := [enc(a[0]).value];
        assert first + (x.value + y.value) == first + x.value + y.value;
      }
    }
  }

  /** Taking one element out of a list takes its encoding out. */
  lemma EncodingsWithout<T>(enc: T -> Option<seq<byte>>, list: seq<T>, k: nat)
    requires k < |list|
    ensures var all, rest := Encodings(enc, list), Encodings(enc, list[..k] + list[k + 1..]);
            && (all.Some? <==> enc(list[k]).Some? && rest.Some?)
            && (all.Some? ==> multiset(all.value) == multiset(rest.value) + multiset{enc(list[k]).value})
  {
    hide Encodings;
    var one := [list[k]];
    EncodingsSum(enc, list[..k], list[k + 1..]);
    EncodingsSum(enc, one, list[k + 1..]);
    EncodingsSum(enc, list[..k], one + list[k + 1..]);
    EncodingsOne(enc, list[k]);
    assert list == list[..k] + (one + list[k + 1..]);
  }

  lemma EncodingsOne<T>(enc: T -> Option<seq<byte>>, x: T)
    ensures Encodings(enc, [x]) == if enc(x).Some? then Some([enc(x).value]) else None
  {
    assert [x][1..] == [];
    assert enc(x).Some? ==> [enc(x).value] + [] == [enc(x).value];
  }

  /** Where the first element of a list is in a permutation of it. */
  lemma Partner<T>(a: seq<T>, b: seq<T>) returns (k: nat)
    requires multiset(a) == multiset(b) && a != []
    ensures k < |b| && b[k] == a[0] && multiset(a[1..]) == multiset(b[..k] + b[k + 1..])
  {
    k := IndexOf(a[0], a, b);
    SplitFirst(a);
    RemoveAt(b, k);
  }

  lemma IndexOf<T>(x: T, a: seq<T>, b: seq<T>) returns (k: nat)
    requires multiset(a) == multiset(b) && x in a
    ensures k < |b| && b[k] == x
  {
    assert x in multiset(b);
    k :| 0 <= k < |b| && b[k] == x;
  }

  lemma SplitFirst<T>(a: seq<T>)
    requires a != []
    ensures multiset(a[1..]) == multiset(a) - multiset{a[0]}
  {
    assert a == [a[0]] + a[1..];
  }

  /** Permuted lists fail together or have permuted encodings. */
  lemma {:induction false} EncodingsPermuted<T>(enc: T -> Option<seq<byte>>, a: seq<T>, b: seq<T>)
    requires multiset(a) == multiset(b)
    ensures var x, y := Encodings(enc, a), Encodings(enc, b);
            (x.Some? <==> y.Some?) && (x.Some? ==> multiset(x.value) == multiset(y.value))
    decreases |a|
  {
    hide Encodings;
    if a == [] {
      assert |multiset(b)| == 0;
      assert b == a;
    } else {
      var k := Partner(a, b);
      assert a[..0] + a[1..] == a[1..];
      EncodingsPermuted(enc, a[1..], b[..k] + b[k + 1..]);
      EncodingsWithout(enc, a, 0);
      EncodingsWithout(enc, b, k);
    }
  }

  /** The encoder gives one and the same result for lists that are permutations of each other. */
  method EncodeBoth<T>(header: nat -> seq<byte>, enc: T -> Option<seq<byte>>, a: seq<T>, b: seq<T>)
    returns (encoded: int, out: seq<byte>, encoded': int, out': seq<byte>)
    requires multiset(a) == multiset(b)
    ensures encoded == encoded' && out == out'
  {
    hide IsSetOf, Encodings;
    EncodingsPermuted(enc, a, b);
    encoded, out := EncodeDer(header, enc, a);
    encoded', out' := EncodeDer(header, enc, b);
    if Encodings(enc, a).Some? {
      Canonical(header, Encodings(enc, a).value, Encodings(enc, b).value, out, out');
    }
  }
}
