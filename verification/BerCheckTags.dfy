/** Checking a chain of tags, each TLV inside the previous one: ber_check_tags of asn1/ber_decoder.c. */
module BerCheckTags {
  import opened Arith
  import opened Wrappers
  import opened BerTag
  import opened BerLength
  import opened BerHeader

  /** The tags of a type, the caller's tag mode (-1, 0 or 1) and the required form of the last tag. */
  datatype Chain = Chain(tags: seq<nat>, mode: int, lastForm: int)

  /** Loop variables: position in the chain, the inferred limit, open indefinite lengths, last header. */
  datatype Progress = Progress(tagno: int, step: nat, limit: int, terminators: nat, len: int, constructed: bool)

  /** On Ok, lastLength is the innermost length or minus the number of indefinite ones. */
  datatype Outcome = Outcome(code: Code, consumed: nat, at: Progress)

  function LastLength(p: Progress): int {
    if p.terminators > 0 then 0 - p.terminators else p.len
  }

  function Add(n: nat, r: Outcome): Outcome {
    r.(consumed := r.consumed + n)
  }

  predicate ProgressOk(c: Chain, p: Progress) {
    && -1 <= p.tagno <= |c.tags| && -1 <= p.limit
    && (p.tagno < 0 ==> c.mode != 0 && p.step == 0)
  }

  /** Whether a tag and its form are acceptable at this place of the chain. */
  predicate TagFits(c: Chain, p: Progress, tag: nat, constructed: bool)
    requires ProgressOk(c, p) && p.tagno < |c.tags|
  {
    && ((c.mode != 0 && p.step == 0) || tag == c.tags[p.tagno])
    && (if p.tagno < |c.tags| - 1 then constructed
        else c.lastForm == -1 || c.lastForm == (if constructed then 1 else 0))
  }

  /** Whether a length fits what the outer TLVs announced: no mixing of forms, and an exact fit. */
  predicate LengthFits(p: Progress, h: Head, tlvl: nat) {
    if h.len == INDEFINITE then p.limit == -1
    else p.terminators == 0 && (p.limit == -1 || p.limit == h.len + tlvl)
  }

  function Inner(p: Progress, h: Head): Progress {
    var q := p.(tagno := p.tagno + 1, step := p.step + 1, len := h.len, constructed := h.constructed);
    if h.len == INDEFINITE then q.(terminators := p.terminators + 1) else q.(limit := h.len)
  }

  /** The octets that the rest of the chain may look at. */
  function InnerOctets(b: seq<byte>, h: Head, tlvl: nat): (r: seq<byte>)
    requires tlvl <= |b| && h.len >= INDEFINITE
    ensures r <= b[tlvl..]
  {
    if h.len == INDEFINITE || |b| - tlvl <= h.len then b[tlvl..] else b[tlvl..][..h.len]
  }

  function CheckFrom(c: Chain, p: Progress, b: seq<byte>): (r: Outcome)
    requires ProgressOk(c, p)
    ensures r.consumed <= |b|
    decreases |c.tags| - p.tagno
  {
    if p.tagno == |c.tags| then Outcome(Ok, 0, p)
    else if FetchTag(b).More? then Outcome(WantMore, 0, p)
    else if FetchTag(b).Bad? || !TagFits(c, p, FetchTag(b).value, Constructed(b[0])) then Outcome(Fail, 0, p)
    else
      match Header(b)
      case More => Outcome(WantMore, 0, p)
      case Bad => Outcome(Fail, 0, p)
      case Got(tlvl, h) =>
        if !LengthFits(p, h, tlvl) then Outcome(Fail, 0, p)
        else Add(tlvl, CheckFrom(c, Inner(p, h), InnerOctets(b, h, tlvl)))
  }

  /** Entering without a saved context, or with step tags already checked by earlier calls. */
  function Start(c: Chain, step: nat): Progress {
    Progress(if c.mode == 1 then step - 1 else step, step, -1, 0, 0, false)
  }

  /** An untagged type takes any header; every other one checks its tags. */
  function Check(c: Chain, step: nat, b: seq<byte>): (r: Outcome)
    requires ProgressOk(c, Start(c, step)) && (c.mode != 0 ==> Start(c, step).tagno < |c.tags|)
    ensures r.consumed <= |b|
  {
    var p := Start(c, step);
    if c.mode == 0 && p.tagno == |c.tags| then
      match Header(b)
      case More => Outcome(WantMore, 0, p)
      case Bad => Outcome(Fail, 0, p)
      case Got(tlvl, h) => Outcome(Ok, tlvl, p.(len := h.len, constructed := h.constructed))
    else CheckFrom(c, p, b)
  }

  lemma CheckUnfold(c: Chain, p: Progress, b: seq<byte>)
    requires ProgressOk(c, p) && p.tagno < |c.tags|
    requires Header(b).Got? && FetchTag(b).Got? && TagFits(c, p, FetchTag(b).value, Constructed(b[0]))
    ensures var tlvl, h := Header(b).used, Header(b).value;
            CheckFrom(c, p, b) == if LengthFits(p, h, tlvl) then Add(tlvl, CheckFrom(c, Inner(p, h), InnerOctets(b, h, tlvl)))
                                  else Outcome(Fail, 0, p)
  {
    hide FetchTag, Header;
  }

  /** The part of an iteration that reads T and L and compares the tag and its form. */
  method ReadHead(c: Chain, tagno: int, step: nat, ghost p: Progress, ptr: seq<byte>) returns (code: Code, tlvl: nat, h: Head)
    requires ProgressOk(c, p) && p.tagno == tagno < |c.tags| && p.step == step
    ensures code == Ok ==>
              && Header(ptr) == Got(tlvl, h)
              && FetchTag(ptr).Got? && TagFits(c, p, FetchTag(ptr).value, Constructed(ptr[0]))
    ensures code != Ok ==> CheckFrom(c, p, ptr) == Outcome(code, 0, p)
  {
    hide FetchTag, FetchLength;
    tlvl, h := 0, Head(0, false, 0);
    var tl, tag := BerFetchTag(ptr);
    if tl <= 0 {
      code := if tl < 0 then Fail else WantMore;
      return;
    }
    var constr := Constructed(ptr[0]);
    if !(c.mode != 0 && step == 0) && tag != c.tags[tagno] {
      code := Fail;
      return;
    }
    if tagno < |c.tags| - 1 {
      if !constr {
        code := Fail;
        return;
      }
    } else if c.lastForm != (if constr then 1 else 0) && c.lastForm != -1 {
      code := Fail;
      return;
    }
    var ll, len := BerFetchLength(constr, ptr[tl..]);
    if ll <= 0 {
      code := if ll < 0 then Fail else WantMore;
      return;
    }
    return Ok, tl + ll, Head(tag, constr, len);
  }

  /** ber_check_tags. Without a context nothing is saved, and nothing is reported as consumed unless all tags fit. */
  method BerCheckTags(c: Chain, saved: Option<nat>, input: seq<byte>)
    returns (code: Code, consumed: nat, step: Option<nat>, lastLength: int, constructed: bool)
    requires var p := Start(c, if saved.Some? then saved.value else 0);
             ProgressOk(c, p) && (c.mode != 0 ==> p.tagno < |c.tags|)
    ensures var r := Check(c, if saved.Some? then saved.value else 0, input);
            && code == r.code && consumed == (if code == Ok || saved.Some? then r.consumed else 0)
            && step == (if saved.Some? then Some(r.at.step) else None)
            && (code == Ok ==> lastLength == LastLength(r.at) && constructed == r.at.constructed)
  {
    hide Check;
    var n;
    code, consumed, n, lastLength, constructed := CheckTags(c, if saved.Some? then saved.value else 0, input);
    step := None;
    if saved.Some? {
      step := Some(n);
    } else if code != Ok {
      consumed := 0;
    }
  }

  /** The loop from a step on. */
  method CheckTags(c: Chain, step0: nat, input: seq<byte>)
    returns (code: Code, consumed: nat, step: nat, lastLength: int, constructed: bool)
    requires ProgressOk(c, Start(c, step0)) && (c.mode != 0 ==> Start(c, step0).tagno < |c.tags|)
    ensures var r := Check(c, step0, input);
            && code == r.code && consumed == r.consumed && step == r.at.step
            && (code == Ok ==> lastLength == LastLength(r.at) && constructed == r.at.constructed)
  {
    hide FetchTag, FetchLength, CheckFrom, TagFits, Constructed;
    consumed, lastLength, constructed, step := 0, 0, false, step0;
    var ptr := input;
    var limit, terminators, len := -1, 0, 0;
    var tagno := step0 + (if c.mode == 1 then -1 else 0);
    if c.mode == 0 && tagno == |c.tags| {
      var tl, tag := BerFetchTag(ptr);
      if tl <= 0 {
        code := if tl < 0 then Fail else WantMore;
        return;
      }
      var ll, l := BerFetchLength(Constructed(ptr[0]), ptr[tl..]);
      if ll <= 0 {
        code := if ll < 0 then Fail else WantMore;
        return;
      }
      return Ok, tl + ll, step, l, Constructed(ptr[0]);
    }
    hide Header;
    ghost var p := Start(c, step0);
    while tagno < |c.tags|
      invariant p == Progress(tagno, step, limit, terminators, len, constructed) && ProgressOk(c, p)
      invariant Check(c, step0, input) == Add(consumed, CheckFrom(c, p, ptr))
    {
      hide Check, InnerOctets;
      var rc, tlvl, h := ReadHead(c, tagno, step, p, ptr);
      if rc != Ok {
        code := rc;
        return;
      }
      CheckUnfold(c, p, ptr);
      len, constructed := h.len, h.constructed;
      if len == INDEFINITE {
        if limit == -1 {
          terminators := terminators + 1;
        } else {
          code := Fail;
          return;
        }
      } else {
        if terminators > 0 {
          code := Fail;
          return;
        }
        if limit == -1 {
          limit := len + tlvl;
        } else if limit != len + tlvl {
          code := Fail;
          return;
        }
        limit := limit - tlvl;
      }
      ptr := Advance(ptr, h, tlvl);
      consumed := consumed + tlvl;
      p := Inner(p, h);
      tagno, step := tagno + 1, step + 1;
    }
    CheckDone(c, p, ptr);
    code := Ok;
    lastLength := if terminators > 0 then 0 - terminators else len;
  }

  lemma CheckDone(c: Chain, p: Progress, b: seq<byte>)
    requires ProgressOk(c, p) && p.tagno == |c.tags|
    ensures CheckFrom(c, p, b) == Outcome(Ok, 0, p)
  {
  }

  /** ADVANCE past a header, never beyond the inferred limit of a definite length. */
  method Advance(ptr: seq<byte>, h: Head, tlvl: nat) returns (r: seq<byte>)
    requires tlvl <= |ptr| && h.len >= INDEFINITE
    ensures r == InnerOctets(ptr, h, tlvl)
  {
    r := ptr[tlvl..];
    if h.len != INDEFINITE && |r| > h.len {
      r := r[..h.len];
    }
  }

  /** A single tag without a saved context, spelled out. */
  lemma SingleTag(tag: nat, mode: int, b: seq<byte>)
    requires mode == 0 || mode == -1
    ensures var r := Check(Chain([tag], mode, -1), 0, b);
            && (FetchTag(b).More? ==> r.code == WantMore)
            && (FetchTag(b).Bad? || (FetchTag(b).Got? && mode == 0 && FetchTag(b).value != tag) ==> r.code == Fail)
            && (FetchTag(b).Got? && (mode == -1 || FetchTag(b).value == tag) ==>
                  match Header(b)
                  case More => r.code == WantMore
                  case Bad => r.code == Fail
                  case Got(tlvl, h) =>
                    r.code == Ok && r.consumed == tlvl && LastLength(r.at) == h.len && r.at.constructed == h.constructed)
            && (r.code != Ok ==> r.consumed == 0)
  {
    hide FetchTag, Header;
    var c := Chain([tag], mode, -1);
    if Header(b).Got? {
      CheckDone(c, Inner(Start(c, 0), Header(b).value), InnerOctets(b, Header(b).value, Header(b).used));
    }
  }

  /** Whether a header may stand at this step of the chain: its tag, and the form that what follows demands. */
  predicate HeadFits(c: Chain, step: nat, h: Head)
    requires 0 <= step < Steps(c)
  {
    var last := step == Steps(c) - 1;
    && ((c.mode != 0 && step == 0) || h.tag == c.tags[if c.mode == 1 then step - 1 else step])
    && (if last then c.lastForm == -1 || c.lastForm == (if h.constructed then 1 else 0) else h.constructed)
  }

  /** How many headers there are: one more than tags when the caller put its own tag around them. */
  function Steps(c: Chain): nat {
    if c.mode == 1 then |c.tags| + 1 else |c.tags|
  }

  /** Headers of definite lengths from a step on, each TLV exactly filling the value of the one around it. */
  predicate ExactChain(c: Chain, step: nat, b: seq<byte>, total: int)
    requires step <= Steps(c)
    decreases Steps(c) - step
  {
    step == Steps(c)
    || (&& Header(b).Got? && Header(b).value.len >= 0 && HeadFits(c, step, Header(b).value)
        && total == Header(b).used + Header(b).value.len
        && ExactChain(c, step + 1, b[Header(b).used..], Header(b).value.len))
  }

  lemma CheckOk(c: Chain, p: Progress, b: seq<byte>)
    requires ProgressOk(c, p) && p.tagno < |c.tags| && CheckFrom(c, p, b).code == Ok
    ensures Header(b).Got? && LengthFits(p, Header(b).value, Header(b).used)
    ensures TagFits(c, p, Header(b).value.tag, Header(b).value.constructed)
    ensures var tlvl, h := Header(b).used, Header(b).value;
            CheckFrom(c, p, b) == Add(tlvl, CheckFrom(c, Inner(p, h), InnerOctets(b, h, tlvl)))
  {
    hide FetchTag;
  }

  /** The loop variables belong to a definite chain entered at step 0. */
  predicate OnTrack(c: Chain, p: Progress) {
    && ProgressOk(c, p) && p.terminators == 0 && p.tagno == (if c.mode == 1 then p.step - 1 else p.step)
    && (p.limit != -1 && p.tagno == |c.tags| ==> p.limit == p.len)
  }

  lemma {:induction false} CheckedChain(c: Chain, p: Progress, b: seq<byte>, more: seq<byte>)
    requires OnTrack(c, p) && CheckFrom(c, p, b).code == Ok && CheckFrom(c, p, b).at.terminators == 0
    ensures var r := CheckFrom(c, p, b);
            var total := r.consumed + r.at.len;
            && ExactChain(c, p.step, b + more, total)
            && (p.limit != -1 ==> total == p.limit)
    decreases |c.tags| - p.tagno
  {
    hide Header, CheckFrom, InnerOctets;
    if p.tagno == |c.tags| {
      CheckDone(c, p, b);
    } else {
      CheckOk(c, p, b);
      var tlvl, h := Header(b).used, Header(b).value;
      if h.len == INDEFINITE {
        TerminatorsGrow(c, Inner(p, h), InnerOctets(b, h, tlvl));
      } else {
        var inner := InnerOctets(b, h, tlvl);
        var more' := (b + more)[tlvl + |inner|..];
        SplitAt(b, more, inner, tlvl);
        CheckedChain(c, Inner(p, h), inner, more');
        HeaderStable(b, more);
      }
    }
  }

  lemma SplitAt(b: seq<byte>, more: seq<byte>, inner: seq<byte>, n: nat)
    requires n <= |b| && inner <= b[n..]
    ensures (b + more)[n..] == inner + (b + more)[n + |inner|..]
  {
    var all := b + more;
    assert all[n..][..|inner|] == inner;
    assert all[n..][|inner|..] == all[n + |inner|..];
  }

  lemma {:induction false} TerminatorsGrow(c: Chain, p: Progress, b: seq<byte>)
    requires ProgressOk(c, p)
    ensures CheckFrom(c, p, b).at.terminators >= p.terminators
    decreases |c.tags| - p.tagno
  {
    hide FetchTag, Header;
    if p.tagno < |c.tags| && Header(b).Got? {
      var tlvl, h := Header(b).used, Header(b).value;
      TerminatorsGrow(c, Inner(p, h), InnerOctets(b, h, tlvl));
    }
  }

  /** The headers of an exact chain lie within its octets. */
  lemma {:induction false} ChainWindow(c: Chain, step: nat, b: seq<byte>, total: int, n: nat)
    requires step <= Steps(c) && ExactChain(c, step, b, total) && total <= n <= |b|
    ensures ExactChain(c, step, b[..n], total)
    decreases Steps(c) - step
  {
    hide Header, HeadFits;
    if step < Steps(c) {
      HeaderLocal(b, n);
      var tlvl := Header(b).used;
      ChainWindow(c, step + 1, b[tlvl..], Header(b).value.len, n - tlvl);
      assert b[..n][tlvl..] == b[tlvl..][..n - tlvl];
    }
  }

  lemma {:induction false} ChainChecked(c: Chain, p: Progress, b: seq<byte>, total: int)
    requires OnTrack(c, p) && ExactChain(c, p.step, b, total) && (p.limit == -1 || p.limit == total)
    ensures CheckFrom(c, p, b).code == Ok && CheckFrom(c, p, b).at.terminators == 0
    decreases |c.tags| - p.tagno
  {
    hide Header, CheckFrom;
    if p.tagno == |c.tags| {
      CheckDone(c, p, b);
    } else {
      var tlvl, h := Header(b).used, Header(b).value;
      if |b| - tlvl > h.len {
        ChainWindow(c, p.step + 1, b[tlvl..], h.len, h.len);
      }
      ChainChecked(c, Inner(p, h), InnerOctets(b, h, tlvl), h.len);
      HeaderTag(b);
      CheckUnfold(c, p, b);
    }
  }

  /**
   * Without a saved context a chain of definite lengths is accepted exactly when its tags and forms are
   * those of the type and every TLV exactly fills the value of the one around it; then the octets
   * consumed together with the last length are the size of the outermost TLV.
   */
  lemma DefiniteChainIff(c: Chain, b: seq<byte>)
    requires ProgressOk(c, Start(c, 0)) && Start(c, 0).tagno < |c.tags|
    ensures var r := Check(c, 0, b);
            && (r.code == Ok && r.at.terminators == 0
                <==> Header(b).Got? && ExactChain(c, 0, b, Header(b).used + Header(b).value.len))
            && (r.code == Ok && r.at.terminators == 0
                ==> r.consumed + LastLength(r.at) == Header(b).used + Header(b).value.len)
  {
    hide FetchTag, Header, CheckFrom, HeadFits;
    var p, r := Start(c, 0), Check(c, 0, b);
    if r.code == Ok && r.at.terminators == 0 {
      CheckedChain(c, p, b, []);
      assert b + [] == b;
    }
    if Header(b).Got? && ExactChain(c, 0, b, Header(b).used + Header(b).value.len) {
      ChainChecked(c, p, b, Header(b).used + Header(b).value.len);
    }
  }

  /** Headers of indefinite lengths from a step on, one right after the other. */
  predicate OpenChain(c: Chain, step: nat, b: seq<byte>)
    requires step <= Steps(c)
    decreases Steps(c) - step
  {
    step == Steps(c)
    || (&& Header(b).Got? && Header(b).value.len == INDEFINITE && HeadFits(c, step, Header(b).value)
        && OpenChain(c, step + 1, b[Header(b).used..]))
  }

  /** The octets of those headers. */
  function OpenSize(c: Chain, step: nat, b: seq<byte>): nat
    requires step <= Steps(c) && OpenChain(c, step, b)
    decreases Steps(c) - step
  {
    if step == Steps(c) then 0 else Header(b).used + OpenSize(c, step + 1, b[Header(b).used..])
  }

  /** The loop variables belong to a chain of indefinite lengths entered at step 0. */
  predicate Open(c: Chain, p: Progress) {
    ProgressOk(c, p) && p.limit == -1 && p.tagno == (if c.mode == 1 then p.step - 1 else p.step)
  }

  /** After a definite length no indefinite one is accepted. */
  lemma {:induction false} NoneOpened(c: Chain, p: Progress, b: seq<byte>)
    requires ProgressOk(c, p) && p.limit != -1 && CheckFrom(c, p, b).code == Ok
    ensures CheckFrom(c, p, b).at.terminators == p.terminators
    decreases |c.tags| - p.tagno
  {
    hide Header, CheckFrom, InnerOctets, TagFits;
    if p.tagno == |c.tags| {
      CheckDone(c, p, b);
    } else {
      CheckOk(c, p, b);
      NoneOpened(c, Inner(p, Header(b).value), InnerOctets(b, Header(b).value, Header(b).used));
    }
  }

  lemma {:induction false} CheckedOpen(c: Chain, p: Progress, b: seq<byte>)
    requires Open(c, p) && CheckFrom(c, p, b).code == Ok && CheckFrom(c, p, b).at.terminators > 0
    ensures OpenChain(c, p.step, b)
    ensures var r := CheckFrom(c, p, b);
            r.consumed == OpenSize(c, p.step, b) && r.at.terminators == p.terminators + (Steps(c) - p.step)
    decreases |c.tags| - p.tagno
  {
    hide Header, CheckFrom;
    if p.tagno == |c.tags| {
      CheckDone(c, p, b);
    } else {
      CheckOk(c, p, b);
      var tlvl, h := Header(b).used, Header(b).value;
      if h.len != INDEFINITE {
        NoneOpened(c, Inner(p, h), InnerOctets(b, h, tlvl));
      } else {
        CheckedOpen(c, Inner(p, h), InnerOctets(b, h, tlvl));
      }
    }
  }

  lemma {:induction false} OpenChecked(c: Chain, p: Progress, b: seq<byte>)
    requires Open(c, p) && OpenChain(c, p.step, b)
    ensures CheckFrom(c, p, b).code == Ok
    ensures CheckFrom(c, p, b).at.terminators == p.terminators + (Steps(c) - p.step)
    decreases |c.tags| - p.tagno
  {
    hide Header, CheckFrom;
    if p.tagno == |c.tags| {
      CheckDone(c, p, b);
    } else {
      var tlvl, h := Header(b).used, Header(b).value;
      OpenChecked(c, Inner(p, h), b[tlvl..]);
      HeaderTag(b);
      CheckUnfold(c, p, b);
    }
  }

  /**
   * Without a saved context a chain that contains an indefinite length is accepted exactly when all its lengths
   * are indefinite and its tags and forms are those of the type; then exactly the headers are consumed
   * and the last length is minus their number.
   */
  lemma OpenChainIff(c: Chain, b: seq<byte>)
    requires ProgressOk(c, Start(c, 0)) && Start(c, 0).tagno < |c.tags|
    ensures var r := Check(c, 0, b);
            && (r.code == Ok && r.at.terminators > 0 <==> OpenChain(c, 0, b))
            && (OpenChain(c, 0, b) ==> r.consumed == OpenSize(c, 0, b) && LastLength(r.at) == -(Steps(c) as int))
  {
    hide FetchTag, Header, CheckFrom, HeadFits;
    var p, r := Start(c, 0), Check(c, 0, b);
    if OpenChain(c, 0, b) {
      OpenChecked(c, p, b);
    }
    if r.code == Ok && r.at.terminators > 0 {
      CheckedOpen(c, p, b);
    }
  }
}
