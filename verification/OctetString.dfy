/**
 * The resumable BER decoder of OCTET STRING and BIT STRING as a state machine:
 * OCTET_STRING_decode_ber of asn1/OCTET_STRING.c for types with a single tag.
 */
module OctetString {
  import opened Arith
  import opened BerTag
  import opened BerLength
  import opened BerHeader

  datatype Variant = Str | Bit

  /**
   * A string type: its one tag, which is not compared when the caller replaced it (tag mode -1), and the list
   * all_tags, in which an implicitly tagged type keeps the tags that were replaced.
   */
  datatype StringType = StringType(variant: Variant, tag: nat, allTags: seq<nat>, implicit: bool)

  /** Whether a tag may stand in a frame with this many frames around it. */
  predicate SegmentTag(ty: StringType, level: nat, tag: nat) {
    ty.allTags != [] ==> tag == ty.allTags[Min(level, |ty.allTags| - 1)]
  }

  /** ctx->phase 0, 1, 2, 3 and 4. */
  datatype Phase = AtHeader | AtExpect | AtContent | AtPrimitive | AtEnd

  /** An expectation; left is -1 while nothing bounds it. */
  datatype Frame = Frame(left: int, got: nat, wantNulls: bool, chopped: bool)

  /** The string being built together with its decoding context; the last frame is current. */
  datatype State = State(phase: Phase, left: int, context: nat, stack: seq<Frame>, buf: seq<byte>, unused: byte)

  /** One step: go on after using some octets, or return to the caller. */
  datatype Step = Next(state: State, used: nat) | Stop(code: Code, state: State, used: nat)

  const Fresh := State(AtHeader, 0, 0, [], [], 0)

  predicate FrameOk(f: Frame) {
    f.left >= -1 && (f.left == -1 ==> f.wantNulls)
  }

  /** What a child has taken and may still take fits into its parent when that is bounded. */
  predicate Nested(parent: Frame, child: Frame) {
    parent.left != -1 ==> child.left != -1 && child.got + child.left <= parent.left
  }

  predicate StackOk(st: seq<Frame>) {
    && (forall i :: 0 <= i < |st| ==> FrameOk(st[i]))
    && (forall i :: 0 < i < |st| ==> Nested(st[i - 1], st[i]))
  }

  function Top(s: State): Frame
    requires s.stack != []
  {
    s.stack[|s.stack| - 1]
  }

  function SetTop(s: State, f: Frame): State
    requires s.stack != []
  {
    s.(stack := s.stack[|s.stack| - 1 := f])
  }

  predicate Valid(s: State) {
    match s.phase
    case AtHeader => true
    case AtExpect => StackOk(s.stack)
    case AtContent => StackOk(s.stack) && s.stack != [] && Top(s).left >= 0 && !Top(s).wantNulls
    case AtPrimitive => s.left >= 0
    case AtEnd => true
  }

  /** Buffer capacity: doubled from 16 until it exceeds es. */
  function Grow(ns: nat, es: nat): (r: nat)
    ensures r > es && r >= ns
    decreases if ns > es then 0 else es + 1 - ns
  {
    if ns > es then ns else Grow(if ns == 0 then 16 else 2 * ns, es)
  }

  function Append(s: State, data: seq<byte>): State {
    s.(buf := s.buf + data, context := Grow(s.context, |s.buf| + |data|))
  }

  /** The octets that the current frame may look at. */
  function Window(st: seq<Frame>, b: seq<byte>): (w: seq<byte>)
    requires StackOk(st)
    ensures w <= b
    ensures st != [] && st[|st| - 1].left != -1 ==> |w| <= st[|st| - 1].left
  {
    if st == [] || st[|st| - 1].left == -1 || st[|st| - 1].left >= |b| then b else b[..st[|st| - 1].left]
  }

  /** Zeroes the unused bits of the last octet. */
  function Mask(x: byte, unused: nat): byte
    requires unused <= 7
  {
    x - x % Pow(2, unused)
  }

  /** Leaving the decoder: the BIT STRING checks and the clearing of unused bits. */
  function Finish(ty: StringType, s: State): (r: Step)
    ensures r.Stop? && r.code != WantMore && r.used == 0 && r.state.phase == AtEnd
  {
    var e := s.(phase := AtEnd);
    if ty.variant.Str? then Stop(Ok, e, 0)
    else if s.buf == [] then Stop(if s.unused == 0 then Ok else Fail, e, 0)
    else if s.unused > 7 then Stop(Fail, e, 0)
    else Stop(Ok, e.(buf := s.buf[|s.buf| - 1 := Mask(s.buf[|s.buf| - 1], s.unused)]), 0)
  }

  /**
   * A finished frame is accounted to its parent, or ends the string when it has none. In a
   * well-nested stack the parent always has room for it.
   */
  function Pop(ty: StringType, s: State): (r: Step)
    requires s.phase == AtExpect && s.stack != []
    requires Top(s).left <= 0 && !Top(s).wantNulls
    ensures StackOk(s.stack) && |s.stack| > 1 ==> r.Next? && Valid(r.state)
    ensures r.Next? ==> r.state.phase == AtExpect && |r.state.stack| < |s.stack|
    ensures r.used == 0 && (r.Stop? ==> r.code != WantMore)
  {
    var n := |s.stack|;
    if n == 1 then Finish(ty, s.(stack := []))
    else
      var sel, prev := s.stack[n - 1], s.stack[n - 2];
      if prev.left != -1 && prev.left < sel.got then Stop(Fail, s, 0)
      else
        var left := if prev.left == -1 then -1 else prev.left - sel.got;
        Next(s.(stack := s.stack[..n - 2] + [prev.(left := left, got := prev.got + sel.got)]), 0)
  }

  /** End-of-contents octets close the current frame. */
  function Close(s: State): (r: Step)
    requires s.phase == AtExpect && StackOk(s.stack) && s.stack != []
    requires Top(s).left == -1 || Top(s).left >= 2
    ensures r.Next? && Valid(r.state)
  {
    Next(SetTop(s, Top(s).(got := Top(s).got + 2, left := 0, wantNulls := false)), 2)
  }

  /** A header of tlvl octets opens a new frame, which must fit into a bounded parent. */
  function Open(s: State, h: Head, tlvl: nat): (r: Step)
    requires s.phase == AtExpect && StackOk(s.stack) && tlvl > 0
    requires h.len >= INDEFINITE && (h.len == INDEFINITE ==> h.constructed)
    ensures r.Next? ==> Valid(r.state) && r.used == tlvl
    ensures r.Stop? ==> r.code == Fail && r.used == 0
  {
    var bounded := s.stack != [] && Top(s).left != -1;
    if bounded && Top(s).left < tlvl + (if h.len == INDEFINITE then 0 else h.len) then Stop(Fail, s, 0)
    else
      var left := if bounded && h.len == INDEFINITE then Top(s).left - tlvl else h.len;
      Next(s.(stack := s.stack + [Frame(left, tlvl, h.len == INDEFINITE, false)],
              phase := if h.constructed then AtExpect else AtContent), tlvl)
  }

  function ExpectStep(ty: StringType, s: State, b: seq<byte>): (r: Step)
    requires s.phase == AtExpect && Valid(s)
    ensures r.Next? ==> Valid(r.state) && r.used <= |b| && (r.used > 0 || Rank(r.state) < Rank(s))
    ensures r.Stop? ==> r.used == 0 && (r.code == WantMore ==> r.state == s)
  {
    if s.stack != [] && Top(s).left <= 0 && !Top(s).wantNulls then Pop(ty, s)
    else
      match Header(Window(s.stack, b))
      case More => Stop(WantMore, s, 0)
      case Bad => Stop(Fail, s, 0)
      case Got(tlvl, h) =>
        if s.stack != [] && Top(s).wantNulls && b[0] == 0 && b[1] == 0 then Close(s)
        else if s.stack != [] && !SegmentTag(ty, |s.stack| - 1, h.tag) then Stop(Fail, s, 0)
        else Open(s, h, tlvl)
  }

  /** Content octets of a segment; a BIT STRING segment starts with its unused-bits octet. */
  function Take(ty: StringType, s: State, data: seq<byte>): State
    requires s.stack != []
  {
    if data == [] then s
    else
      var f := Top(s);
      var chop := ty.variant.Bit? && !f.chopped;
      var t := if chop then Append(s.(unused := data[0]), data[1..]) else Append(s, data);
      SetTop(t, f.(left := f.left - |data|, got := f.got + |data|, chopped := f.chopped || chop))
  }

  function ContentStep(ty: StringType, s: State, b: seq<byte>): (r: Step)
    requires s.phase == AtContent && Valid(s)
    ensures r.used <= |b| && Valid(r.state)
    ensures r.Next? ==> r.used > 0 || Rank(r.state) < Rank(s)
  {
    var n := Min(|b|, Top(s).left);
    var t := Take(ty, s, b[..n]);
    if Top(t).left > 0 then Stop(WantMore, t, n) else Next(t.(phase := AtExpect), n)
  }

  /** Content octets of the primitive form; an empty buffer marks the start of a BIT STRING. */
  function TakePrimitive(ty: StringType, s: State, data: seq<byte>): State {
    var t := s.(left := s.left - |data|);
    if ty.variant.Bit? && s.context == 0 && data != [] then Append(t.(unused := data[0]), data[1..])
    else Append(t, data)
  }

  function Using(n: nat, r: Step): Step {
    r.(used := r.used + n)
  }

  function PrimitiveStep(ty: StringType, s: State, b: seq<byte>): (r: Step)
    requires s.phase == AtPrimitive && Valid(s)
    ensures r.Stop? && r.used <= |b| && Valid(r.state)
  {
    if |b| < s.left then
      if b == [] then Stop(WantMore, s, 0) else Stop(WantMore, TakePrimitive(ty, s, b), |b|)
    else Using(s.left, Finish(ty, TakePrimitive(ty, s, b[..s.left])))
  }

  /** The tag check, after which the primitive and the constructed form part. */
  function HeaderStep(ty: StringType, s: State, b: seq<byte>): (r: Step)
    requires s.phase == AtHeader
    ensures r.Next? ==> Valid(r.state) && r.used <= |b| && Rank(r.state) < Rank(s)
    ensures r.Stop? ==> r.used == 0 && (r.code == WantMore ==> r.state == s) && r.code != Ok
  {
    if FetchTag(b).More? then Stop(WantMore, s, 0)
    else if FetchTag(b).Bad? || (!ty.implicit && FetchTag(b).value != ty.tag) then Stop(Fail, s, 0)
    else
      match Header(b)
      case More => Stop(WantMore, s, 0)
      case Bad => Stop(Fail, s, 0)
      case Got(tlvl, h) =>
        var t := s.(left := h.len, context := 0, stack := []);
        if h.constructed then Next(t.(phase := AtExpect), 0) else Next(t.(phase := AtPrimitive), tlvl)
  }

  /** Steps that use no octets lower the rank. */
  function Rank(s: State): nat {
    match s.phase
    case AtHeader => 1
    case AtExpect => 2 * |s.stack|
    case AtContent => 2 * |s.stack| + 1
    case AtPrimitive => 0
    case AtEnd => 0
  }

  function DoStep(ty: StringType, s: State, b: seq<byte>): (r: Step)
    requires Valid(s)
    ensures r.used <= |b|
    ensures r.Next? ==> Valid(r.state) && (r.used > 0 || Rank(r.state) < Rank(s))
    ensures r.Stop? && r.code == WantMore ==> Valid(r.state)
  {
    match s.phase
    case AtHeader => HeaderStep(ty, s, b)
    case AtExpect => ExpectStep(ty, s, b)
    case AtContent => ContentStep(ty, s, b)
    case AtPrimitive => PrimitiveStep(ty, s, b)
    case AtEnd => Finish(ty, s)
  }

  /** A whole call: steps until one of them returns; used counts the octets of the call. */
  function Run(ty: StringType, s: State, b: seq<byte>): (r: Step)
    requires Valid(s)
    ensures r.Stop? && r.used <= |b|
    ensures r.code == WantMore ==> Valid(r.state)
    decreases |b|, Rank(s)
  {
    var d := DoStep(ty, s, b);
    if d.Stop? then d else Using(d.used, Run(ty, d.state, b[d.used..]))
  }
}
