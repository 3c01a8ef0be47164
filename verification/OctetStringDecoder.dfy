/** The decoder as an object that lives across calls, proved against the state machine. */
module OctetStringDecoder {
  import opened Arith
  import opened Wrappers
  import opened BerTag
  import opened BerLength
  import opened BerHeader
  import BerCheckTags
  import opened OctetString

  class StringDecoder {
    const ty: StringType
    var phase: Phase
    var left: int
    var context: nat
    var frames: seq<Frame>   // every stack element allocated so far; the list is never shortened
    var cur: nat             // how many of them are live: cur_ptr is frames[cur - 1], or null
    var buf: seq<byte>
    var unused: byte

    ghost predicate Wf()
      reads this
    {
      cur <= |frames| && Valid(Now())
    }

    ghost function Now(): State
      reads this
      requires cur <= |frames|
    {
      State(phase, left, context, frames[..cur], buf, unused)
    }

    /** A zeroed string structure. */
    constructor (ty: StringType)
      ensures this.ty == ty && Wf() && Now() == Fresh
    {
      this.ty := ty;
      phase, left, context, frames, cur, buf, unused := AtHeader, 0, 0, [], 0, [], 0;
    }

    /** The APPEND macro: grow the buffer by doubling when the data and a final zero do not fit. */
    method AppendOctets(data: seq<byte>)
      requires cur <= |frames|
      modifies this`buf, this`context
      ensures Now() == Append(old(Now()), data)
    {
      var es := |buf| + |data|;
      if context <= es {
        var ns := context;
        ns := if ns > 0 then 2 * ns else 16;
        while ns <= es
          invariant ns > 0 && Grow(ns, es) == Grow(context, es)
          decreases es - ns
        {
          ns := 2 * ns;
        }
        context := ns;
      }
      buf := buf + data;
    }

    /** OS__add_stack_el: take the next element of the list if there is one, else allocate it. */
    method AddFrame(f: Frame)
      requires cur <= |frames|
      modifies this`frames, this`cur
      ensures cur == old(cur) + 1 <= |frames|
      ensures frames[..cur] == old(frames[..cur]) + [f]
    {
      if cur < |frames| {
        frames := frames[cur := f];
      } else {
        frames := frames + [f];
      }
      cur := cur + 1;
    }

    /** Replaces the current stack element. */
    method UpdateTop(f: Frame)
      requires 0 < cur <= |frames|
      modifies this`frames
      ensures cur <= |frames| && Now() == SetTop(old(Now()), f)
    {
      frames := frames[cur - 1 := f];
      assert frames[..cur] == old(frames[..cur])[cur - 1 := f];
    }

    /** What follows the phase switch: BIT STRING checks. */
    method Complete() returns (code: Code)
      requires cur <= |frames|
      modifies this`buf, this`phase
      ensures var r := Finish(ty, old(Now())); code == r.code && Now() == r.state
    {
      phase := AtEnd;
      code := Ok;
      if ty.variant.Bit? {
        if |buf| > 0 {
          if unused > 7 {
            return Fail;
          }
          buf := buf[|buf| - 1 := Mask(buf[|buf| - 1], unused)];
        } else if unused > 0 {
          return Fail;
        }
      }
    }

    /** Phase 0. */
    method CheckHeader(ptr: seq<byte>) returns (stop: bool, code: Code, used: nat)
      requires Wf() && phase == AtHeader
      modifies this
      ensures var r := HeaderStep(ty, old(Now()), ptr);
              && cur <= |frames| && used == r.used && stop == r.Stop?
              && (stop ==> code == r.code) && Now() == r.state
    {
      hide FetchTag, Header;
      var mode := if ty.implicit then -1 else 0;
      BerCheckTags.SingleTag(ty.tag, mode, ptr);
      var rc, consumed, step, lastLength, constr := BerCheckTags.BerCheckTags(BerCheckTags.Chain([ty.tag], mode, -1), Some(0), ptr);
      if rc != Ok {
        return true, rc, consumed;
      }
      left, context, frames, cur := lastLength, 0, [], 0;
      if constr {
        phase := AtExpect;
        return false, Ok, 0;
      }
      phase := AtPrimitive;
      return false, Ok, consumed;
    }

    /** The top of the phase 1 loop: a finished expectation is accounted to the one around it. */
    method PopFrame() returns (stop: bool, code: Code)
      requires Wf() && phase == AtExpect && cur > 0
      requires frames[cur - 1].left <= 0 && !frames[cur - 1].wantNulls
      modifies this
      ensures var r := Pop(ty, old(Now()));
              && cur <= |frames| && stop == r.Stop? && (stop ==> code == r.code) && Now() == r.state
    {
      code := Ok;
      if cur > 1 {
        var sel, prev := frames[cur - 1], frames[cur - 2];
        if prev.left != -1 {
          assert prev.left >= sel.got;   // the source's test for the contrary never fires
          prev := prev.(left := prev.left - sel.got);
        }
        prev := prev.(got := prev.got + sel.got);
        cur := cur - 1;
        frames := frames[cur - 1 := prev];
        assert frames[..cur] == old(frames[..cur])[..old(cur) - 2] + [prev];
        return false, Ok;
      }
      cur := 0;
      code := Complete();
      stop := true;
    }

    /** T and L at ptr: 0, -1 or their size. */
    method FetchHead(w: seq<byte>) returns (ret: int, h: Head)
      ensures match Header(w)
              case More => ret == 0
              case Bad => ret == -1
              case Got(tlvl, head) => ret == tlvl && h == head
    {
      hide FetchTag, FetchLength;
      h := Head(0, false, 0);
      var tl, tag := BerFetchTag(w);
      if tl <= 0 {
        return tl, h;
      }
      var constr := Constructed(w[0]);
      var ll, len := BerFetchLength(constr, w[tl..]);
      if ll <= 0 {
        return ll, h;
      }
      return tl + ll, Head(tag, constr, len);
    }

    /** End-of-contents octets. */
    method EatEoc()
      requires cur <= |frames| && phase == AtExpect && StackOk(frames[..cur]) && cur > 0
      requires frames[cur - 1].left == -1 || frames[cur - 1].left >= 2
      modifies this`frames
      ensures cur <= |frames| && Now() == Close(old(Now())).state
    {
      var sel := frames[cur - 1];
      sel := sel.(got := sel.got + 2);
      if sel.left != -1 {
        sel := sel.(left := sel.left - 2);
      }
      UpdateTop(sel.(wantNulls := false, left := 0));
    }

    /** A new expectation, checked against the one around it. */
    method OpenFrame(h: Head, tlvl: nat) returns (fits: bool)
      requires cur <= |frames| && phase == AtExpect && StackOk(frames[..cur]) && tlvl > 0
      requires h.len >= INDEFINITE && (h.len == INDEFINITE ==> h.constructed)
      modifies this`frames, this`cur, this`phase
      ensures var r := Open(old(Now()), h, tlvl);
              cur <= |frames| && fits == r.Next? && (fits ==> Now() == r.state)
    {
      hide StackOk;
      AddFrame(Frame(h.len, 0, h.len == INDEFINITE, false));
      assert forall k :: 0 <= k < cur - 1 ==> frames[..cur][k] == frames[k];
      var sel := frames[cur - 1];
      if cur > 1 && frames[cur - 2].left != -1 {
        if frames[cur - 2].left < tlvl + (if h.len == INDEFINITE then 0 else h.len) {
          return false;
        }
        if h.len == INDEFINITE {
          sel := sel.(left := frames[cur - 2].left - tlvl);
        }
      }
      sel := sel.(got := sel.got + tlvl);
      UpdateTop(sel);
      if !h.constructed {
        phase := AtContent;
      }
      fits := true;
    }

    /** The rest of a phase 1 iteration: read a header, then close or open an expectation. */
    method ReadExpectation(ptr: seq<byte>) returns (stop: bool, code: Code, used: nat)
      requires Wf() && phase == AtExpect
      requires cur > 0 ==> frames[cur - 1].left > 0 || frames[cur - 1].left == -1 || frames[cur - 1].wantNulls
      modifies this`frames, this`cur, this`phase
      ensures var r := ExpectStep(ty, old(Now()), ptr);
              && cur <= |frames| && used == r.used && stop == r.Stop? && (stop ==> code == r.code)
              && ((stop && code == Fail) || Now() == r.state)
    {
      hide Header, Pop, Open;
      assert cur > 0 ==> FrameOk(Now().stack[cur - 1]);
      hide StackOk;
      var w := if cur == 0 || frames[cur - 1].left == -1 || frames[cur - 1].left >= |ptr| then ptr
               else ptr[..frames[cur - 1].left];
      var tlvl, h := FetchHead(w);
      if tlvl <= 0 {
        return true, if tlvl < 0 then Fail else WantMore, 0;
      }
      if cur > 0 && frames[cur - 1].wantNulls && ptr[0] == 0 && ptr[1] == 0 {
        EatEoc();
        return false, Ok, 2;
      }
      if cur > 0 && !SegmentTag(ty, cur - 1, h.tag) {
        return true, Fail, 0;
      }
      var fits := OpenFrame(h, tlvl);
      if fits {
        return false, Ok, tlvl;
      }
      return true, Fail, 0;
    }

    /** Phase 2. */
    method ReadContent(ptr: seq<byte>) returns (stop: bool, code: Code, used: nat)
      requires Wf() && phase == AtContent
      modifies this
      ensures var r := ContentStep(ty, old(Now()), ptr);
              && cur <= |frames| && used == r.used && stop == r.Stop? && (stop ==> code == r.code) && Now() == r.state
    {
      hide StackOk, Grow;
      var sel := frames[cur - 1];
      var len := Min(|ptr|, sel.left);
      if len > 0 {
        if ty.variant.Bit? && !sel.chopped {
          unused := ptr[0];
          AppendOctets(ptr[1..len]);
          assert ptr[..len][1..] == ptr[1..len];
          sel := sel.(chopped := true);
        } else {
          AppendOctets(ptr[..len]);
        }
        UpdateTop(sel.(left := sel.left - len, got := sel.got + len));
      }
      if frames[cur - 1].left > 0 {
        return true, WantMore, len;
      }
      phase := AtExpect;
      return false, Ok, len;
    }

    /** Phase 3. */
    /** The part of the contents that is there. */
    method TakePart(ptr: seq<byte>)
      requires Wf() && phase == AtPrimitive && ptr != [] && |ptr| <= left
      modifies this
      ensures cur <= |frames| && Now() == TakePrimitive(ty, old(Now()), ptr)
    {
      hide StackOk, Grow;
      var size := |ptr|;
      if ty.variant.Bit? && context == 0 {
        unused := ptr[0];
        left := left - 1;
        AppendOctets(ptr[1..]);
        left := left - (size - 1);
      } else {
        AppendOctets(ptr);
        left := left - size;
      }
    }

    /** All contents that are still to come. */
    method TakeRest(ptr: seq<byte>)
      requires Wf() && phase == AtPrimitive && |ptr| >= left
      modifies this
      ensures cur <= |frames| && Now() == TakePrimitive(ty, old(Now()), ptr[..old(left)])
    {
      hide StackOk, Grow;
      ghost var data := ptr[..left];
      if ty.variant.Bit? && context == 0 && left > 0 {
        unused := ptr[0];
        assert ptr[1..left] == data[1..];
        AppendOctets(ptr[1..left]);
      } else {
        AppendOctets(ptr[..left]);
      }
      left := 0;
    }

    method ReadPrimitive(ptr: seq<byte>) returns (code: Code, used: nat)
      requires Wf() && phase == AtPrimitive
      modifies this
      ensures var r := PrimitiveStep(ty, old(Now()), ptr);
              cur <= |frames| && used == r.used && code == r.code && Now() == r.state
    {
      hide StackOk, TakePrimitive, Finish;
      if |ptr| < left {
        if |ptr| == 0 {
          return WantMore, 0;
        }
        TakePart(ptr);
        return WantMore, |ptr|;
      }
      used := left;
      TakeRest(ptr);
      code := Complete();
    }

    /** What one step of the current phase does, up to the stack after a failure. */
    method Proceed(ptr: seq<byte>) returns (stop: bool, code: Code, used: nat)
      requires Wf()
      modifies this
      ensures var r := DoStep(ty, old(Now()), ptr);
              && cur <= |frames| && used == r.used && stop == r.Stop? && (stop ==> code == r.code)
              && ((stop && code == Fail) || Now() == r.state)
              && buf == r.state.buf && unused == r.state.unused
    {
      hide HeaderStep, ContentStep, PrimitiveStep, Finish, StackOk;
      match phase
      case AtHeader =>
        stop, code, used := CheckHeader(ptr);
      case AtExpect =>
        used := 0;
        if cur > 0 && frames[cur - 1].left <= 0 && !frames[cur - 1].wantNulls {
          stop, code := PopFrame();
        } else {
          ExpectKeepsContents(ty, Now(), ptr);
          hide ExpectStep;
          stop, code, used := ReadExpectation(ptr);
        }
      case AtContent =>
        stop, code, used := ReadContent(ptr);
      case AtPrimitive =>
        stop := true;
        code, used := ReadPrimitive(ptr);
      case AtEnd =>
        stop, used := true, 0;
        code := Complete();
    }

    /** One call of the decoder; after a failure only the contents are of interest. */
    method Decode(input: seq<byte>) returns (code: Code, consumed: nat)
      requires Wf()
      modifies this
      ensures var r := Run(ty, old(Now()), input);
              && code == r.code && consumed == r.used && cur <= |frames|
              && buf == r.state.buf && unused == r.state.unused
              && (code != Fail ==> Now() == r.state)
    {
      hide DoStep, Valid;
      var ptr := input;
      consumed := 0;
      ghost var s := Now();
      while true
        invariant cur <= |frames| && Valid(Now()) && consumed + |ptr| == |input|
        invariant Run(ty, s, input) == Using(consumed, Run(ty, Now(), ptr))
        decreases |ptr|, Rank(Now())
      {
        var stop, rc, used := Proceed(ptr);
        consumed := consumed + used;
        if stop {
          return rc, consumed;
        }
        ptr := ptr[used..];
      }
    }
  }

  /** Reading an expectation leaves the string alone. */
  lemma ExpectKeepsContents(ty: StringType, s: State, b: seq<byte>)
    requires s.phase == AtExpect && Valid(s)
    requires s.stack != [] ==> Top(s).left > 0 || Top(s).left == -1 || Top(s).wantNulls
    ensures ExpectStep(ty, s, b).state.buf == s.buf && ExpectStep(ty, s, b).state.unused == s.unused
  {
    hide Header;
  }
}
