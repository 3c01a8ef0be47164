/**
 * Base-128 groups with a continuation bit, most significant group first: the
 * high-tag-number form of BER tags and the subidentifiers of OBJECT IDENTIFIER.
 */
module Base128 {
  import opened Arith

  /** v >> (7 * j) */
  function Shift7(v: nat, j: nat): nat {
    if j == 0 then v else Shift7(v / 128, j - 1)
  }

  lemma {:induction false} Shift7Next(v: nat, j: nat)
    ensures Shift7(v, j + 1) == Shift7(v, j) / 128
  {
    if j > 0 {
      Shift7Next(v / 128, j - 1);
    }
  }

  /** The groups of v that are followed by another group; none for 0. */
  function Leading(v: nat): seq<byte> {
    if v == 0 then [] else Leading(v / 128) + [128 + v % 128]
  }

  /** The shortest group sequence for v. */
  function Groups(v: nat): seq<byte> {
    Leading(v / 128) + [v % 128]
  }

  /** The number that a group sequence denotes, whatever its length. */
  function Value(s: seq<byte>): nat {
    if s == [] then 0 else Value(s[..|s| - 1]) * 128 + s[|s| - 1] % 128
  }

  /** Exactly the last group has its high bit clear. */
  predicate WellFormed(s: seq<byte>) {
    && |s| > 0
    && s[|s| - 1] < 128
    && forall k :: 0 <= k < |s| - 1 ==> s[k] >= 128
  }

  lemma ValueSnoc(s: seq<byte>, x: byte)
    ensures Value(s + [x]) == Value(s) * 128 + x % 128
  {
    assert (s + [x])[..|s|] == s;
  }

  lemma NoValue()
    ensures Value([]) == 0
  {
  }

  lemma {:induction false} LeadingValue(v: nat)
    ensures Value(Leading(v)) == v
  {
    hide Value;
    if v == 0 {
      NoValue();
    } else {
      LeadingValue(v / 128);
      ValueSnoc(Leading(v / 128), 128 + v % 128);
    }
  }

  lemma LeadingEmpty(v: nat)
    ensures v == 0 ==> Leading(v) == []
  {
  }

  lemma {:induction false} LeadingShape(v: nat)
    ensures forall k :: 0 <= k < |Leading(v)| ==> Leading(v)[k] >= 128
    ensures v > 0 ==> |Leading(v)| > 0 && Leading(v)[0] > 128
  {
    if v > 0 {
      LeadingShape(v / 128);
    }
  }

  /** Groups is well formed, denotes v and does not start with an empty group. */
  lemma GroupsShape(v: nat)
    ensures WellFormed(Groups(v)) && Value(Groups(v)) == v
    ensures |Groups(v)| > 1 ==> Groups(v)[0] > 128
  {
    hide Leading, Value;
    var u, x := v / 128, v % 128;
    LeadingValue(u);
    LeadingShape(u);
    LeadingEmpty(u);
    ValueSnoc(Leading(u), x);
    assert v == u * 128 + x;
  }

  lemma {:induction false} LeadingUnique(s: seq<byte>)
    requires forall k :: 0 <= k < |s| ==> s[k] >= 128
    requires s != [] ==> s[0] > 128
    ensures Leading(Value(s)) == s
    ensures s != [] ==> Value(s) > 0
  {
    if s != [] {
      var p, x := s[..|s| - 1], s[|s| - 1];
      LeadingUnique(p);
      assert s == p + [x];
      assert Value(s) / 128 == Value(p) && Value(s) % 128 == x - 128;
    }
  }

  lemma ShortestIsGroups(s: seq<byte>)
    requires WellFormed(s) && s[0] != 128
    ensures Groups(Value(s)) == s
  {
    hide Leading, Value;
    var p, x := s[..|s| - 1], s[|s| - 1];
    LeadingUnique(p);
    assert s == p + [x];
    ValueSnoc(p, x);
    SplitGroup(Value(p), x);
  }

  lemma SplitGroup(v: nat, x: nat)
    requires x < 128
    ensures (v * 128 + x) / 128 == v && (v * 128 + x) % 128 == x
  {
  }

  /** Groups is the one well-formed sequence for a number that does not start with an empty group. */
  lemma GroupsUnique(s: seq<byte>, v: nat)
    ensures s == Groups(v) <==> WellFormed(s) && s[0] != 128 && Value(s) == v
  {
    hide Groups, Value, WellFormed;
    GroupsShape(v);
    if WellFormed(s) && s != [] && s[0] != 128 {
      ShortestIsGroups(s);
    }
    NotEmpty(s);
    NotEmpty(Groups(v));
  }

  lemma NotEmpty(s: seq<byte>)
    ensures WellFormed(s) ==> s != [] && (|s| == 1 ==> s[0] < 128)
  {
  }

  /** A 32-bit number has at most five groups. */
  lemma FiveGroups(v: nat)
    requires v < 0x1_0000_0000
    ensures |Groups(v)| <= 5
  {
    LeadingLength(v / 128, 4);
    Shift7Next(v, 0);
    Shift7Next(v, 1);
    Shift7Next(v, 2);
    Shift7Next(v, 3);
    Shift7Next(v, 4);
  }

  lemma {:induction false} LeadingAt(v: nat, j: nat)
    requires j < |Leading(v)|
    ensures Leading(v)[|Leading(v)| - 1 - j] == 128 + Shift7(v, j) % 128
  {
    if j > 0 {
      LeadingAt(v / 128, j - 1);
    }
  }

  /** The octet j places before the last group, as the serializers compute it by shifting. */
  lemma GroupsAt(v: nat, j: nat)
    requires j < |Groups(v)|
    ensures Groups(v)[|Groups(v)| - 1 - j] == (if j == 0 then 0 else 128) + Shift7(v, j) % 128
  {
    if j > 0 {
      LeadingAt(v / 128, j - 1);
    }
  }

  /** Group j from the end exists exactly when something is left after shifting by 7 * j. */
  lemma {:induction false} LeadingLength(v: nat, j: nat)
    ensures j < |Leading(v)| <==> Shift7(v, j) > 0
  {
    if v > 0 && j > 0 {
      LeadingLength(v / 128, j - 1);
    } else if j > 0 {
      LeadingLength(0, j - 1);
    }
  }
}
