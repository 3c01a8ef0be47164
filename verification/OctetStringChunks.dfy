/** Resumption: how the input is cut into chunks does not change what the decoder does. */
module OctetStringChunks {
  import opened Arith
  import opened BerTag
  import opened BerHeader
  import opened OctetString

  lemma {:induction false} GrowGrow(ns: nat, e1: nat, e2: nat)
    requires e1 <= e2
    ensures Grow(Grow(ns, e1), e2) == Grow(ns, e2)
    decreases if ns > e1 then 0 else e1 + 1 - ns
  {
    if ns <= e1 {
      GrowGrow(if ns == 0 then 16 else 2 * ns, e1, e2);
    }
  }

  lemma AppendAppend(s: State, x: seq<byte>, y: seq<byte>)
    ensures Append(Append(s, x), y) == Append(s, x + y)
  {
    GrowGrow(s.context, |s.buf| + |x|, |s.buf| + |x| + |y|);
    assert s.buf + x + y == s.buf + (x + y);
  }

  lemma TakeTake(ty: StringType, s: State, x: seq<byte>, y: seq<byte>)
    requires s.stack != []
    ensures Take(ty, Take(ty, s, x), y) == Take(ty, s, x + y)
  {
    hide Grow;
    if x == [] {
      assert x + y == y;
    } else if y == [] {
      assert x + y == x;
    } else {
      var chop := ty.variant.Bit? && !Top(s).chopped;
      if chop {
        assert (x + y)[1..] == x[1..] + y;
        AppendAppend(s.(unused := x[0]), x[1..], y);
      } else {
        AppendAppend(s, x, y);
      }
    }
  }

  lemma TakePrimitiveTwice(ty: StringType, s: State, x: seq<byte>, y: seq<byte>)
    requires x != []
    ensures TakePrimitive(ty, TakePrimitive(ty, s, x), y) == TakePrimitive(ty, s, x + y)
  {
    hide Grow;
    var t := s.(left := s.left - |x| - |y|);
    if ty.variant.Bit? && s.context == 0 {
      assert (x + y)[1..] == x[1..] + y;
      AppendAppend(t.(unused := x[0]), x[1..], y);
    } else {
      AppendAppend(t, x, y);
    }
  }

  lemma WindowGrows(st: seq<Frame>, a: seq<byte>, b: seq<byte>) returns (d: seq<byte>)
    requires StackOk(st)
    ensures Window(st, a + b) == Window(st, a) + d
  {
    var w, v := Window(st, a), Window(st, a + b);
    d := v[|w|..];
  }

  lemma ExpectStable(ty: StringType, s: State, a: seq<byte>, b: seq<byte>)
    requires Valid(s) && s.phase == AtExpect
    requires var d := ExpectStep(ty, s, a); d.Next? || d.code != WantMore
    ensures ExpectStep(ty, s, a + b) == ExpectStep(ty, s, a)
  {
    hide Header;
    if !(s.stack != [] && Top(s).left <= 0 && !Top(s).wantNulls) {
      var d := WindowGrows(s.stack, a, b);
      HeaderStable(Window(s.stack, a), d);
    }
  }

  lemma HeaderStepStable(ty: StringType, s: State, a: seq<byte>, b: seq<byte>)
    requires s.phase == AtHeader
    requires var d := HeaderStep(ty, s, a); d.Next? || d.code != WantMore
    ensures HeaderStep(ty, s, a + b) == HeaderStep(ty, s, a)
  {
    hide Header, FetchTag;
    FetchTagStable(a, b);
    HeaderStable(a, b);
  }

  /** A step that goes on, succeeds or fails is the same with more input. */
  lemma StepStable(ty: StringType, s: State, a: seq<byte>, b: seq<byte>)
    requires Valid(s)
    requires var d := DoStep(ty, s, a); d.Next? || d.code != WantMore
    ensures DoStep(ty, s, a + b) == DoStep(ty, s, a)
  {
    hide ExpectStep, HeaderStep, Take, TakePrimitive, Finish;
    match s.phase
    case AtHeader => HeaderStepStable(ty, s, a, b);
    case AtExpect => ExpectStable(ty, s, a, b);
    case AtContent =>
      ContentTakes(ty, s, a);
      var n := Top(s).left;
      assert (a + b)[..n] == a[..n];
    case AtPrimitive =>
      assert (a + b)[..s.left] == a[..s.left];
    case AtEnd =>
  }

  lemma ContentTakes(ty: StringType, s: State, b: seq<byte>)
    requires s.phase == AtContent && Valid(s)
    ensures var n := Min(|b|, Top(s).left);
            Top(Take(ty, s, b[..n])).left == Top(s).left - n
  {
  }

  /** A step that used up its input and waits does the rest when more input comes. */
  lemma WaitResumes(ty: StringType, s: State, a: seq<byte>, b: seq<byte>)
    requires Valid(s)
    requires var d := DoStep(ty, s, a); d.Stop? && d.code == WantMore
    ensures var d := DoStep(ty, s, a);
            || (d.state == s && d.used == 0)
            || (d.used == |a| && DoStep(ty, s, a + b) == Using(|a|, DoStep(ty, d.state, b)))
  {
    var t := DoStep(ty, s, a).state;
    match s.phase
    case AtHeader =>
    case AtExpect =>
    case AtContent => ContentResumes(ty, s, a, b);
    case AtPrimitive => PrimitiveResumes(ty, s, a, b);
    case AtEnd =>
  }

  lemma ContentResumes(ty: StringType, s: State, a: seq<byte>, b: seq<byte>)
    requires Valid(s) && s.phase == AtContent
    requires var d := ContentStep(ty, s, a); d.Stop?
    ensures var d := ContentStep(ty, s, a);
            && d.used == |a| && d.state.phase == AtContent
            && ContentStep(ty, s, a + b) == Using(|a|, ContentStep(ty, d.state, b))
  {
    ContentTakes(ty, s, a);
    var t := ContentStep(ty, s, a).state;
    var n := Min(|b|, Top(t).left);
    assert a[..|a|] == a;
    assert t == Take(ty, s, a);
    TakeTake(ty, s, a, b[..n]);
    assert (a + b)[..|a| + n] == a + b[..n];
    assert t.phase == AtContent;
    hide Take;
    assert Top(t).left == Top(s).left - |a|;
  }

  lemma PrimitiveResumes(ty: StringType, s: State, a: seq<byte>, b: seq<byte>)
    requires Valid(s) && s.phase == AtPrimitive
    requires PrimitiveStep(ty, s, a).code == WantMore
    ensures var d := PrimitiveStep(ty, s, a);
            || (d.state == s && d.used == 0)
            || (d.used == |a| && d.state.phase == AtPrimitive
                && PrimitiveStep(ty, s, a + b) == Using(|a|, PrimitiveStep(ty, d.state, b)))
  {
    hide Grow;
    if a != [] && |a| < s.left {
      var t := TakePrimitive(ty, s, a);
      var n := Min(|b|, t.left);
      assert (a + b)[..|a| + n] == a + b[..n];
      TakePrimitiveTwice(ty, s, a, b[..n]);
      assert b == [] ==> a + b == a;
      assert |b| < t.left ==> b[..n] == b;
    }
  }

  /** A call that waits, followed by one on the rest, is one call on both parts. */
  lemma {:induction false} Resume(ty: StringType, s: State, a: seq<byte>, b: seq<byte>)
    requires Valid(s)
    ensures var r := Run(ty, s, a);
            Run(ty, s, a + b) == if r.code == WantMore then Using(r.used, Run(ty, r.state, a[r.used..] + b)) else r
    decreases |a|, Rank(s)
  {
    hide DoStep;
    var d := DoStep(ty, s, a);
    if d.Next? {
      StepStable(ty, s, a, b);
      var rest := a[d.used..];
      assert (a + b)[d.used..] == rest + b;
      Resume(ty, d.state, rest, b);
      var r := Run(ty, d.state, rest);
      assert a[d.used + r.used..] == rest[r.used..];
    } else if d.code == WantMore {
      WaitResumes(ty, s, a, b);
      assert a[0..] == a;
      assert a[|a|..] + b == b;
      var e := DoStep(ty, d.state, b);
      assert (a + b)[|a| + e.used..] == b[e.used..];
    } else {
      StepStable(ty, s, a, b);
    }
  }

  /**
   * Feeding chunks one call at a time: octets that a call did not use are presented again in
   * front of the next chunk, and the first call that does not ask for more ends the decoding.
   */
  function Feed(ty: StringType, s: State, pending: seq<byte>, chunks: seq<seq<byte>>): (r: Step)
    requires Valid(s) && chunks != []
    decreases |chunks|
  {
    var input := pending + chunks[0];
    var r := Run(ty, s, input);
    if r.code != WantMore || |chunks| == 1 then r
    else Using(r.used, Feed(ty, r.state, input[r.used..], chunks[1..]))
  }

  lemma {:induction false} FeedIsRun(ty: StringType, s: State, pending: seq<byte>, chunks: seq<seq<byte>>)
    requires Valid(s) && chunks != []
    ensures Feed(ty, s, pending, chunks) == Run(ty, s, pending + Joined(chunks))
    decreases |chunks|
  {
    hide Run;
    var input, more := pending + chunks[0], Joined(chunks[1..]);
    assert pending + Joined(chunks) == input + more;
    Resume(ty, s, input, more);
    var r := Run(ty, s, input);
    if |chunks| == 1 {
      assert input + more == input;
    } else if r.code == WantMore {
      FeedIsRun(ty, r.state, input[r.used..], chunks[1..]);
    }
  }

  /**
   * Chunk independence: for every input and every way to cut it, decoding chunk by chunk ends
   * with the code, the contents, the unused bits and the octets used of one call on everything.
   */
  lemma ChunkIndependence(ty: StringType, chunks: seq<seq<byte>>)
    requires chunks != []
    ensures Feed(ty, Fresh, [], chunks) == Run(ty, Fresh, Joined(chunks))
  {
    FeedIsRun(ty, Fresh, [], chunks);
    assert [] + Joined(chunks) == Joined(chunks);
  }
}
