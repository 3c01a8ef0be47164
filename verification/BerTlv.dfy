/** BER TLVs as trees, with any accepted tag and length octets, and their encoding. */
module BerTlv {
  import opened Arith
  import opened BerTag
  import opened BerLength

  /** A TLV with the octets of its T and L exactly as they stand on the wire. */
  datatype Tlv = Tlv(t: seq<byte>, l: seq<byte>, v: Body)

  /** The V: plain octets, or nested TLVs with a definite or an indefinite length. */
  datatype Body = Flat(content: seq<byte>) | Definite(items: seq<Tlv>) | Indefinite(open: seq<Tlv>)

  const EOC: seq<byte> := [0, 0]

  function Encode(x: Tlv): seq<byte>
    decreases x, 1
  {
    x.t + x.l + EncodeBody(x.v)
  }

  function EncodeBody(v: Body): seq<byte>
    decreases v, 0
  {
    match v
    case Flat(c) => c
    case Definite(xs) => EncodeAll(xs)
    case Indefinite(xs) => EncodeAll(xs) + EOC
  }

  function EncodeAll(xs: seq<Tlv>): seq<byte>
    decreases xs, 0
  {
    if xs == [] then [] else Encode(xs[0]) + EncodeAll(xs[1..])
  }

  /** L announces the size of V, or is the indefinite form where V is closed by an EOC. */
  predicate LengthFits(constructed: bool, l: seq<byte>, v: Body) {
    FetchLength(constructed, l) == Got(|l|, if v.Indefinite? then INDEFINITE else |EncodeBody(v)|)
  }

  /** The first two octets are not those of an end-of-contents marker. */
  predicate NotEoc(x: Tlv)
    requires x.t != [] && x.l != []
  {
    x.t[0] != 0 || x.l[0] != 0
  }

  lemma EncodeSplit(x: Tlv, rest: seq<byte>)
    ensures Encode(x) + rest == x.t + (x.l + (EncodeBody(x.v) + rest))
  {
  }

  lemma EncodeAllSplit(xs: seq<Tlv>, rest: seq<byte>)
    requires xs != []
    ensures EncodeAll(xs) + rest == Encode(xs[0]) + (EncodeAll(xs[1..]) + rest)
  {
  }
}
