/**
 * When a string decoder that asks for more octets can make use of them. Inside a frame of known size the
 * header of a segment is read as if the input ended with the frame (asn1/OCTET_STRING.c:263-264), so a header
 * that does not fit into the frame is waited for without end.
 */
module OctetStringWaits {
  import opened Arith
  import opened BerTag
  import opened BerLength
  import opened BerHeader
  import opened OctetString
  import opened OctetStringChunks

  /** A waiting step that is taken again waits without using anything. */
  predicate Waits(ty: StringType, s: State, b: seq<byte>) {
    Valid(s) && DoStep(ty, s, b) == Stop(WantMore, s, 0)
  }

  lemma {:induction false} RunWaits(ty: StringType, s: State, b: seq<byte>)
    requires Valid(s) && Run(ty, s, b).code == WantMore
    ensures var r := Run(ty, s, b); Waits(ty, r.state, b[r.used..])
    decreases |b|, Rank(s)
  {
    hide DoStep;
    var d := DoStep(ty, s, b);
    if d.Next? {
      RunWaits(ty, d.state, b[d.used..]);
      var r := Run(ty, d.state, b[d.used..]);
      assert b[d.used..][r.used..] == b[d.used + r.used..];
    } else {
      StepWaits(ty, s, b);
    }
  }

  lemma StepWaits(ty: StringType, s: State, b: seq<byte>)
    requires Valid(s) && DoStep(ty, s, b).Stop? && DoStep(ty, s, b).code == WantMore
    ensures var d := DoStep(ty, s, b); Waits(ty, d.state, b[d.used..])
  {
    WaitResumes(ty, s, b, []);
    var d := DoStep(ty, s, b);
    assert b + [] == b && b[0..] == b;
    hide DoStep;
    if d.used == |b| {
      assert b[d.used..] == [];
      var e := DoStep(ty, d.state, []);
      assert e.used == 0;
    }
  }

  /** The octets of a frame of n octets: those already there, filled up with x. */
  function Fill(rest: seq<byte>, n: nat, x: byte): (w: seq<byte>)
    ensures |w| == n
    ensures forall i :: 0 <= i < n ==> w[i] == if i < |rest| then rest[i] else x
  {
    if |rest| >= n then rest[..n] else rest + seq(n - |rest|, _ => x)
  }

  /** The current frame has a size that leaves no room to complete the header, nor to make it a bad one. */
  predicate Stuck(s: State, rest: seq<byte>)
    requires Valid(s)
  {
    && s.phase == AtExpect && s.stack != [] && Top(s).left != -1
    && FrameOk(Top(s))
    && Header(Fill(rest, Top(s).left, 0)).More? && Header(Fill(rest, Top(s).left, 255)).More?
  }

  // Which headers can be completed in a given number of octets: zeros complete them soonest, 255s spoil them soonest.

  lemma {:induction false} LongZero(rest: seq<byte>, z: seq<byte>, i: nat, val: nat, cls: nat)
    requires rest < z && z[|rest|] == 0 && i <= |rest| && val < 0x80_0000 && cls < 4
    requires FetchLong(rest, i, val, cls).More?
    ensures FetchLong(z, i, val, cls).Got? && FetchLong(z, i, val, cls).used == |rest| + 1
    decreases |rest| - i
  {
    if i < |rest| {
      assert z[i] == rest[i];
      LongZero(rest, z, i + 1, val * 128 + rest[i] % 128, cls);
    }
  }

  lemma {:induction false} LongSpoiled(w: seq<byte>, o: seq<byte>, i: nat, val: nat, val': nat, cls: nat)
    requires |w| == |o| && i <= |w| && val <= val' < 0x80_0000 && cls < 4
    requires forall j :: i <= j < |w| ==> o[j] == w[j] || o[j] == 255
    requires FetchLong(w, i, val, cls).Bad?
    ensures FetchLong(o, i, val', cls).Bad?
    decreases |w| - i
  {
    var v, v' := val * 128 + w[i] % 128, val' * 128 + o[i] % 128;
    if v' < 0x80_0000 {
      LongSpoiled(w, o, i + 1, v, v', cls);
    }
  }

  lemma {:induction false} OctetsEnough(b: seq<byte>, i: nat, n: nat, len: nat)
    requires i + n <= |b|
    ensures !FetchOctets(b, i, n, len).More?
    decreases n
  {
    if n > 0 && len < 0x80_0000_0000_0000 {
      OctetsEnough(b, i + 1, n - 1, len * 256 + b[i]);
    }
  }

  lemma {:induction false} OctetsSpoiled(w: seq<byte>, o: seq<byte>, i: nat, n: nat, len: nat, len': nat)
    requires |w| == |o| && i <= |w| && len <= len'
    requires forall j :: i <= j < |w| ==> o[j] == w[j] || o[j] == 255
    requires FetchOctets(w, i, n, len).Bad?
    ensures FetchOctets(o, i, n, len').Bad?
    decreases n
  {
    if n > 0 && len' < 0x80_0000_0000_0000 {
      OctetsSpoiled(w, o, i + 1, n - 1, len * 256 + w[i], len' * 256 + o[i]);
    }
  }

  /** If a length can be completed or spoiled at all, then by zeros or by 255s. */
  lemma LengthFill(constructed: bool, rest: seq<byte>, w: seq<byte>)
    requires rest <= w && !FetchLength(constructed, w).More?
    ensures !FetchLength(constructed, Fill(rest, |w|, 0)).More? || !FetchLength(constructed, Fill(rest, |w|, 255)).More?
  {
    var z, o := Fill(rest, |w|, 0), Fill(rest, |w|, 255);
    if rest != [] && rest[0] >= 128 && !(constructed && rest[0] == 0x80) && rest[0] != 0xff {
      var n: int := rest[0] - 128;
      assert w[0] == z[0] == o[0] == rest[0];
      if FetchOctets(w, 1, n, 0).Bad? {
        OctetsSpoiled(w, o, 1, n, 0, 0);
      } else {
        OctetsEnough(z, 1, n, 0);
      }
    }
  }

  /** The same for a header. */
  lemma HeaderFill(rest: seq<byte>, w: seq<byte>)
    requires rest <= w && !Header(w).More?
    ensures !Header(Fill(rest, |w|, 0)).More? || !Header(Fill(rest, |w|, 255)).More?
  {
    var z, o := Fill(rest, |w|, 0), Fill(rest, |w|, 255);
    match FetchTag(rest)
    case More => TagFill(rest, w);
    case Bad =>
      FetchTagStable(rest, z[|rest|..]);
      assert z == rest + z[|rest|..];
    case Got(tl, tag) =>
      assert z == rest + z[|rest|..] && o == rest + o[|rest|..] && w == rest + w[|rest|..];
      FetchTagStable(rest, z[|rest|..]);
      FetchTagStable(rest, o[|rest|..]);
      FetchTagStable(rest, w[|rest|..]);
      hide FetchTag, FetchLength;
      TagUsed(rest);
      LengthFill(Constructed(rest[0]), rest[tl..], w[tl..]);
      assert z[tl..] == Fill(rest[tl..], |w| - tl, 0) && o[tl..] == Fill(rest[tl..], |w| - tl, 255);
  }

  lemma TagFill(rest: seq<byte>, w: seq<byte>)
    requires rest <= w && FetchTag(rest).More? && !Header(w).More?
    ensures !Header(Fill(rest, |w|, 0)).More? || !Header(Fill(rest, |w|, 255)).More?
  {
    var z, o := Fill(rest, |w|, 0), Fill(rest, |w|, 255);
    if rest != [] && FetchTag(w).Bad? {
      LongSpoiled(w, o, 1, 0, 0, rest[0] / 64);
    } else {
      TagAndLength(rest, w);
      ZerosComplete(rest, z);
    }
  }

  /** A tag that is completed is followed by an octet of a length. */
  lemma TagAndLength(rest: seq<byte>, w: seq<byte>)
    requires rest <= w && FetchTag(rest).More? && !Header(w).More? && (rest == [] || !FetchTag(w).Bad?)
    ensures |w| >= |rest| + 2
  {
    if rest != [] {
      var tl := FetchTag(w).used;
      assert w[tl..] != [];
      LongBeyond(rest, w, 1, 0, rest[0] / 64);
    }
  }

  lemma {:induction false} LongBeyond(rest: seq<byte>, w: seq<byte>, i: nat, val: nat, cls: nat)
    requires rest <= w && i <= |rest| && val < 0x80_0000 && cls < 4
    requires FetchLong(rest, i, val, cls).More? && FetchLong(w, i, val, cls).Got?
    ensures FetchLong(w, i, val, cls).used > |rest|
    decreases |rest| - i
  {
    if i < |rest| {
      assert w[i] == rest[i];
      LongBeyond(rest, w, i + 1, val * 128 + rest[i] % 128, cls);
    }
  }

  lemma ZerosComplete(rest: seq<byte>, z: seq<byte>)
    requires rest <= z && |z| >= |rest| + 2 && z[|rest|] == 0 && z[|rest| + 1] == 0 && FetchTag(rest).More?
    ensures !Header(z).More?
  {
    if rest == [] {
      HeaderOfEoc(z);
    } else {
      LongZero(rest, z, 1, 0, rest[0] / 64);
      assert z[|rest| + 1..][0] == 0;
    }
  }

  /** Without a bound every header can be completed. */
  lemma HeaderEnds(rest: seq<byte>)
    ensures !Header(rest + seq(128, _ => 0)).More?
  {
    var zeros: seq<byte> := seq(128, _ => 0);
    var z := rest + zeros;
    match FetchTag(rest)
    case More => ZerosComplete(rest, z);
    case Bad => FetchTagStable(rest, zeros);
    case Got(tl, tag) =>
      FetchTagStable(rest, zeros);
      hide FetchTag;
      TagUsed(rest);
      LengthEnds(Constructed(rest[0]), rest[tl..], zeros);
      assert z[tl..] == rest[tl..] + zeros;
  }

  lemma LengthEnds(constructed: bool, b: seq<byte>, zeros: seq<byte>)
    requires |zeros| == 128 && zeros[0] == 0
    ensures !FetchLength(constructed, b + zeros).More?
  {
    var z := b + zeros;
    if b != [] && b[0] >= 128 {
      assert z[0] == b[0];
      OctetsEnough(z, 1, b[0] - 128, 0);
    }
  }

  /** A stuck decoder waits whatever follows. */
  lemma StuckStays(ty: StringType, s: State, rest: seq<byte>, more: seq<byte>)
    requires Valid(s) && Stuck(s, rest) && Waits(ty, s, rest)
    ensures Waits(ty, s, rest + more)
  {
    hide Header;
    var n, w := Top(s).left, Window(s.stack, rest + more);
    assert !(Top(s).left <= 0 && !Top(s).wantNulls);
    var v := Fill(w, n, 0);
    assert v == w + v[|w|..];
    HeaderStable(w, v[|w|..]);
    if |rest| >= n {
      assert w == rest[..n];
    } else if !Header(v).More? {
      HeaderFill(rest, v);
    }
  }

  /** Octets that a waiting decoder which is not stuck can make use of. */
  function Helpful(s: State, rest: seq<byte>): seq<byte>
    requires Valid(s)
  {
    if s.phase == AtExpect && s.stack != [] && Top(s).left != -1 then
      assert FrameOk(Top(s));
      var n := Top(s).left;
      if |rest| >= n then [] else Fill(rest, n, if Header(Fill(rest, n, 0)).More? then 255 else 0)[|rest|..]
    else seq(128, _ => 0)
  }

  /** If all octets of the frame were there, the step would not wait without being stuck. */
  lemma FrameNotFull(ty: StringType, s: State, rest: seq<byte>)
    requires Waits(ty, s, rest) && !Stuck(s, rest) && s.phase == AtExpect && s.stack != [] && Top(s).left != -1
    ensures |rest| < Top(s).left
  {
    hide Header;
    var n := Top(s).left;
    assert FrameOk(Top(s));
    assert n <= |rest| ==> Window(s.stack, rest) == Fill(rest, n, 0) == Fill(rest, n, 255);
  }

  /** They complete or spoil the header. */
  lemma HeaderHelped(ty: StringType, s: State, rest: seq<byte>)
    requires Waits(ty, s, rest) && !Stuck(s, rest) && s.phase == AtExpect
    ensures !Header(Window(s.stack, rest + Helpful(s, rest))).More?
  {
    hide Header, DoStep;
    if s.stack != [] && Top(s).left != -1 {
      FrameNotFull(ty, s, rest);
      var n := Top(s).left;
      var x := if Header(Fill(rest, n, 0)).More? then 255 else 0;
      assert rest + Helpful(s, rest) == Fill(rest, n, x);
      assert Window(s.stack, Fill(rest, n, x)) == Fill(rest, n, x);
    } else {
      HeaderEnds(rest);
    }
  }

  lemma {:induction false} NeverBack(ty: StringType, s: State, b: seq<byte>)
    requires Valid(s) && s.phase != AtHeader
    ensures Run(ty, s, b).state.phase != AtHeader
    decreases |b|, Rank(s)
  {
    hide Header, Take, TakePrimitive, Finish;
    var d := DoStep(ty, s, b);
    PhaseKept(ty, s, b);
    hide DoStep;
    if d.Next? {
      NeverBack(ty, d.state, b[d.used..]);
    }
  }

  lemma PhaseKept(ty: StringType, s: State, b: seq<byte>)
    requires Valid(s) && s.phase != AtHeader
    ensures DoStep(ty, s, b).state.phase != AtHeader
  {
    hide Header, Grow;
  }

  /** What a decoder does that is not stuck. */
  lemma GoesOn(ty: StringType, s: State, rest: seq<byte>)
    requires Waits(ty, s, rest) && !Stuck(s, rest)
    ensures Run(ty, s, rest + Helpful(s, rest)) != Stop(WantMore, s, 0)
  {
    var b := rest + Helpful(s, rest);
    match s.phase
    case AtHeader => HeaderGoesOn(ty, s, rest);
    case AtExpect =>
      HeaderHelped(ty, s, rest);
      ExpectGoesOn(ty, s, b);
    case AtContent => ContentGoesOn(ty, s, rest);
    case AtPrimitive => ContentGoesOn(ty, s, rest);
    case AtEnd =>
  }

  lemma HeaderGoesOn(ty: StringType, s: State, rest: seq<byte>)
    requires Waits(ty, s, rest) && s.phase == AtHeader
    ensures Run(ty, s, rest + seq(128, _ => 0)) != Stop(WantMore, s, 0)
  {
    var b := rest + seq(128, _ => 0);
    HeaderEnds(rest);
    var d := HeaderStep(ty, s, b);
    assert DoStep(ty, s, b) == d;
    if d.Next? {
      assert d.state.phase != AtHeader;
      hide DoStep, Header, HeaderStep;
      NeverBack(ty, d.state, b[d.used..]);
    }
  }

  lemma ExpectGoesOn(ty: StringType, s: State, b: seq<byte>)
    requires Valid(s) && s.phase == AtExpect && !Header(Window(s.stack, b)).More?
    requires !(s.stack != [] && Top(s).left <= 0 && !Top(s).wantNulls)
    ensures Run(ty, s, b) != Stop(WantMore, s, 0)
  {
    hide Header;
    var d := ExpectStep(ty, s, b);
    assert d == DoStep(ty, s, b);
    assert if d.Next? then d.used > 0 else d.code == Fail;
  }

  lemma ContentGoesOn(ty: StringType, s: State, rest: seq<byte>)
    requires Waits(ty, s, rest) && (s.phase == AtContent || s.phase == AtPrimitive)
    ensures Run(ty, s, rest + seq(128, _ => 0)) != Stop(WantMore, s, 0)
  {
    hide Take, TakePrimitive, Finish;
    var b := rest + seq(128, _ => 0);
    if s.phase == AtContent {
      ContentTakes(ty, s, rest);
    }
    assert DoStep(ty, s, b).used > 0;
  }

  /**
   * A call that asks for more gets the same answer whatever follows if and only if the current frame has no
   * room for the header it waits for; else further octets make the decoder go on.
   */
  lemma StuckIff(ty: StringType, b: seq<byte>)
    requires Run(ty, Fresh, b).code == WantMore
    ensures var r := Run(ty, Fresh, b);
            (forall more :: Run(ty, Fresh, b + more) == r) <==> Stuck(r.state, b[r.used..])
  {
    hide Run, Stuck, Waits;
    var r := Run(ty, Fresh, b);
    var s, rest := r.state, b[r.used..];
    RunWaits(ty, Fresh, b);
    if Stuck(s, rest) {
      forall more
        ensures Run(ty, Fresh, b + more) == r
      {
        StuckStays(ty, s, rest, more);
        WaitingRun(ty, s, rest + more);
        Resume(ty, Fresh, b, more);
      }
    } else {
      var more := Helpful(s, rest);
      GoesOn(ty, s, rest);
      Resume(ty, Fresh, b, more);
      assert Run(ty, Fresh, b + more) != r;
    }
  }

  lemma WaitingRun(ty: StringType, s: State, b: seq<byte>)
    requires Waits(ty, s, b)
    ensures Valid(s) && Run(ty, s, b) == Stop(WantMore, s, 0)
  {
    hide DoStep;
  }

  /** OCTET STRING, UNIVERSAL 4. */
  const OCTETS := StringType(Str, 16, [16], false)

  lemma FirstSteps()
    ensures var b: seq<byte>, one: seq<byte> := [0x24, 0x01, 0x04], [0x04];
            var s, t := Fresh.(left := 1, phase := AtExpect), State(AtExpect, 1, 0, [Frame(1, 2, false, false)], [], 0);
            && DoStep(OCTETS, Fresh, b) == Next(s, 0) && DoStep(OCTETS, s, b) == Next(t, 2)
            && DoStep(OCTETS, t, one) == Stop(WantMore, t, 0) && Header(one) == More
  {
    var b: seq<byte>, one: seq<byte> := [0x24, 0x01, 0x04], [0x04];
    assert b[1..][0] == 0x01 && one[1..] == [];
    assert Header(b) == Got(2, Head(16, true, 1));
    assert Header(one) == More;
    hide Header;
  }

  /** A string of one octet, which is the tag of a segment: two octets are used and the wait never ends. */
  lemma EndlessWait(more: seq<byte>)
    ensures var r := Run(OCTETS, Fresh, [0x24, 0x01, 0x04] + more); r.code == WantMore && r.used == 2
  {
    hide DoStep, Header;
    var b: seq<byte>, one: seq<byte> := [0x24, 0x01, 0x04], [0x04];
    var s, t := Fresh.(left := 1, phase := AtExpect), State(AtExpect, 1, 0, [Frame(1, 2, false, false)], [], 0);
    FirstSteps();
    assert b[0..] == b && b[2..] == one;
    assert Run(OCTETS, t, one) == Stop(WantMore, t, 0);
    assert Run(OCTETS, s, b) == Stop(WantMore, t, 2);
    assert Run(OCTETS, Fresh, b) == Stop(WantMore, t, 2);
    assert Fill(one, 1, 0) == one && Fill(one, 1, 255) == one;
    StuckIff(OCTETS, b);
  }
}
