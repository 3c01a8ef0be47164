/** The OER SEQUENCE decoder as an object that lives across calls, and the encoder's loops. */
module OerCodec {
  import opened Arith
  import opened Wrappers
  import opened Bits
  import opened BitReader
  import opened BitWriter
  import opened BerHeader
  import opened OerSequence
  import opened OerRoundTrip

  class SequenceDecoder<M(!new), V> {
    const ty: SequenceType<M, V>
    var phase: Phase
    var step: nat
    var preamble: BitData?
    var slots: seq<Slot<M, V>>

    ghost predicate Wf()
      reads this, preamble
    {
      && (phase.AtRoot? ==> preamble != null)
      && (preamble != null ==> preamble.Valid())
      && Valid(ty, Now())
    }

    ghost function Now(): State<M, V>
      reads this, preamble
      requires preamble != null ==> preamble.Valid()
    {
      State(phase, step / 2, step % 2 == 1, if preamble == null then [] else preamble.Remaining(), slots)
    }

    /** A zeroed structure. */
    constructor (ty: SequenceType<M, V>)
      ensures this.ty == ty && Wf() && Now() == Fresh(ty) && preamble == null
    {
      this.ty := ty;
      phase, step, preamble, slots := AtPreamble, 0, null, seq(|ty.members|, _ => Unset);
    }

    /** The start of a member's turn: its presence bit, and where there is none its default. */
    method BeginMember(edx: nat) returns (entry: int)
      requires Wf() && phase.AtRoot? && step == 2 * edx && edx < |ty.members|
      modifies this`step, this`slots, preamble
      ensures preamble.Valid() && |slots| == |ty.members|
      ensures match Presence(ty, old(Now()))
              case NoBit => entry == -1
              case Skip(t) => entry == 0 && Now() == t
              case Enter(t) => entry == 1 && Now() == t
    {
      hide BytesBits, Num;
      var m := ty.members[edx];
      if m.optional {
        ghost var bits := preamble.Remaining();
        var present := preamble.GetFewBits(1);
        if bits != [] {
          assert bits[..1] == [bits[0]];
          OneBit(bits[0]);
        }
        if present < 0 {
          return -1;
        } else if present == 0 {
          slots := slots[edx := if m.default.Some? then Defaulted(m.default.value) else Unset];
          step := step + 2;
          return 0;
        }
      }
      step := step + 1;
      slots := slots[edx := Memory(m.codec.blank)];
      entry := 1;
    }

    /** One turn of the loop over the root members. */
    method DecodeMember(edx: nat, ptr: seq<byte>) returns (code: Code, used: nat)
      requires Wf() && phase.AtRoot? && CodecsResumable(ty) && edx == step / 2 < |ty.members|
      modifies this`step, this`slots, preamble
      ensures used <= |ptr|
      ensures var r := Root(ty, old(Now()), ptr);
              if code == Ok then Wf() && step == 2 * (edx + 1) && r == Using(used, Root(ty, Now(), ptr[used..]))
              else r.code == code && r.used == used && (code == WantMore ==> Wf() && Now() == r.state)
    {
      hide CodecsResumable, BytesBits, Root, Presence;
      RootCases(ty, Now(), ptr);
      var entry := 1;
      if step % 2 == 0 {
        entry := BeginMember(edx);
      }
      assert ptr[0..] == ptr;
      if entry < 0 {
        return Fail, 0;
      } else if entry == 0 {
        return Ok, 0;
      }
      var r := ty.members[edx].codec.dec(slots[edx].m, ptr);
      if r.code == Fail {
        return Fail, 0;
      }
      slots := slots[edx := Memory(r.memory)];
      if r.code == WantMore {
        return WantMore, r.used;
      }
      step := step + 1;
      return Ok, r.used;
    }

    /** Phase 1: the loop over the root members. */
    method DecodeRoot(input: seq<byte>) returns (code: Code, consumed: nat)
      requires Wf() && phase.AtRoot? && CodecsResumable(ty)
      modifies this`step, this`slots, this`phase, preamble
      ensures var r := Root(ty, old(Now()), input);
              && code == r.code && consumed == r.used
              && (code != Fail ==> Wf() && Now() == r.state)
    {
      hide CodecsResumable, BytesBits, Root, Presence;
      var ptr := input;
      consumed := 0;
      ghost var goal := Root(ty, Now(), input);
      var edx := step / 2;
      while edx < |ty.members|
        invariant Wf() && phase.AtRoot? && edx == step / 2 <= |ty.members|
        invariant consumed + |ptr| == |input|
        invariant goal == Using(consumed, Root(ty, Now(), ptr))
        decreases |ty.members| - edx
      {
        var rc, used := DecodeMember(edx, ptr);
        consumed := consumed + used;
        if rc != Ok {
          return rc, consumed;
        }
        ptr := ptr[used..];
        edx := edx + 1;
      }
      RootEnd(ty, Now(), ptr);
      phase := AtEnd;
      code := Ok;
    }

    /** One call of the decoder. */
    method Decode(input: seq<byte>) returns (code: Code, consumed: nat)
      requires Wf() && CodecsResumable(ty)
      modifies this, preamble
      ensures var r := Run(ty, old(Now()), input);
              && code == r.code && consumed == r.used
              && (code != Fail ==> preamble != null ==> preamble.Valid())
              && (code == Ok ==> r.state.slots == slots)
              && (code == WantMore ==> Wf() && Now() == r.state)
    {
      hide CodecsResumable, BytesBits, Root;
      consumed := 0;
      var ptr := input;
      if phase == AtPreamble {
        var bytes := (7 + ty.roms) / 8;
        if bytes > |ptr| {
          return WantMore, 0;
        }
        assert BytesBits(ptr)[..ty.roms] == BytesBits(ptr[..bytes])[..ty.roms] by {
          BytesBitsSum(ptr[..bytes], ptr[bytes..]);
          assert ptr == ptr[..bytes] + ptr[bytes..];
        }
        preamble := new BitData.Contiguous(ptr, ty.roms);
        ptr, consumed := ptr[bytes..], bytes;
        phase, step := AtRoot, 0;
      }
      if phase == AtRoot {
        var rc, used := DecodeRoot(ptr);
        return rc, consumed + used;
      }
      code := Ok;
    }
  }

  lemma RootEnd<M(!new), V>(ty: SequenceType<M, V>, s: State<M, V>, b: seq<byte>)
    requires Valid(ty, s) && s.phase == AtRoot && CodecsResumable(ty) && s.edx == |ty.members|
    ensures Root(ty, s, b) == Outcome(Ok, 0, s.(phase := AtEnd))
  {
  }

  lemma RootCases<M(!new), V>(ty: SequenceType<M, V>, s: State<M, V>, b: seq<byte>)
    requires Valid(ty, s) && s.phase == AtRoot && CodecsResumable(ty) && s.edx < |ty.members|
    ensures s.entered ==> Presence(ty, s) == Enter(s)
    ensures Presence(ty, s).NoBit? ==> Root(ty, s, b) == Outcome(Fail, 0, s)
    ensures Presence(ty, s).Skip? ==>
              var t := Presence(ty, s).next;
              Valid(ty, t) && t.phase == AtRoot && t.edx == s.edx + 1 && !t.entered && Root(ty, s, b) == Root(ty, t, b)
    ensures Presence(ty, s).Enter? ==>
              var t := Presence(ty, s).into;
              && Valid(ty, t) && t.phase == AtRoot && t.entered && t.edx == s.edx
              && var r := ty.members[s.edx].codec.dec(t.slots[s.edx].m, b);
                 && r.used <= |b| && (r.code == WantMore ==> ty.members[s.edx].codec.inv(r.memory))
                 && Root(ty, s, b) == AfterMember(ty, t, r, b)
  {
    hide CodecsResumable;
    if Presence(ty, s).Enter? {
      RootUnfold(ty, s, Presence(ty, s).into, b);
    }
  }

  /** The preamble: a presence bit for every optional member, filled up to whole octets. */
  method EncodePreamble<M, V(==)>(ms: seq<Member<M, V>>, values: seq<Option<V>>) returns (out: seq<byte>)
    requires |values| == |ms|
    ensures out == Pack(WireBits(ms, values))
  {
    hide BytesBits, BitsOf, Prefix, Pack, Zeros;
    var po := new BitOutp();
    var edx := 0;
    assert ms[0..] == ms && values[0..] == values;
    while edx < |ms|
      invariant 0 <= edx <= |ms| && po.Valid() && fresh(po) && fresh(po.tmpspace)
      invariant po.Written() + WireBits(ms[edx..], values[edx..]) == WireBits(ms, values)
    {
      var m := ms[edx];
      assert ms[edx..][1..] == ms[edx + 1..] && values[edx..][1..] == values[edx + 1..];
      if m.optional {
        var has := values[edx].Some?;
        if has && m.default.Some? && values[edx].value == m.default.value {
          has := false;
        }
        OneBit(has);
        Assoc(po.Written(), [has], WireBits(ms[edx + 1..], values[edx + 1..]));
        var ret := po.PutFewBits(if has then 1 else 0, 1);
      }
      edx := edx + 1;
    }
    ghost var bits := WireBits(ms, values);
    var ret := po.AlignedFlush();
    PackBits(bits);
    out := po.output;
    BytesBitsInjective(out, Pack(bits));
  }

  lemma PartAdded(out: seq<byte>, n: nat, e: seq<byte>, rest: seq<byte>)
    requires n <= |out|
    ensures out[n..] + (e + rest) == (out + e)[n..] + rest
  {
    assert (out + e)[n..] == out[n..] + e;
  }

  method EncodeOer<M, V(==)>(ty: SequenceType<M, V>, values: seq<Option<V>>) returns (r: Option<seq<byte>>)
    requires |values| == |ty.members|
    ensures r == Encode(ty, values)
  {
    hide Pack, WireBits;
    var out: seq<byte> := [];
    if ty.roms > 0 {
      out := EncodePreamble(ty.members, values);
    }
    ghost var pre, whole := out, EncodeMembers(ty.members, values);
    assert whole.Some? ==> out[|pre|..] + whole.value == whole.value;
    var edx := 0;
    assert ty.members[0..] == ty.members && values[0..] == values;
    while edx < |ty.members|
      invariant 0 <= edx <= |ty.members| && pre <= out
      invariant var all, rest := EncodeMembers(ty.members, values), EncodeMembers(ty.members[edx..], values[edx..]);
                all == if rest.Some? then Some(out[|pre|..] + rest.value) else None
    {
      var m := ty.members[edx];
      TailOf(ty, values, edx);
      if values[edx].Some? {
        if !(m.default.Some? && values[edx].value == m.default.value) {
          var er := m.codec.enc(values[edx].value);
          if er.None? {
            return None;
          }
          ghost var rest := EncodeMembers(ty.members[edx + 1..], values[edx + 1..]);
          if rest.Some? {
            PartAdded(out, |pre|, er.value, rest.value);
          }
          out := out + er.value;
        }
      } else if !m.optional {
        return None;
      }
      edx := edx + 1;
    }
    assert out == pre + out[|pre|..] && out[|pre|..] + [] == out[|pre|..];
    r := Some(out);
  }
}
