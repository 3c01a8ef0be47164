/** Dotted text of OBJECT IDENTIFIER values: asn1/OBJECT_IDENTIFIER.c and the number scanner of asn1/INTEGER.c. */
module OidText {
  import opened Arith
  import opened ObjectIdentifier
  import opened Text

  const UINTMAX: nat := 0xffff_ffff_ffff_ffff
  const DOT: byte := 0x2e

  function DigitValue(c: byte): (v: nat)
    requires Digit(c)
    ensures v < 10
  {
    var n: int := c;
    n - 0x30
  }

  /** What a digit string denotes. */
  function DecValue(d: seq<byte>): nat
    requires forall c :: c in d ==> Digit(c)
  {
    if d == [] then 0 else DecValue(d[..|d| - 1]) * 10 + DigitValue(d[|d| - 1])
  }

  /** Where the digits that start at i end. */
  function DigitsEnd(text: seq<byte>, i: nat): (e: nat)
    requires i <= |text|
    ensures i <= e <= |text| && (e < |text| ==> !Digit(text[e]))
    ensures forall c :: c in text[i..e] ==> Digit(c)
    decreases |text| - i
  {
    if i < |text| && Digit(text[i]) then
      var e := DigitsEnd(text, i + 1);
      assert text[i..e] == [text[i]] + text[i + 1..e];
      e
    else i
  }

  lemma {:induction false} DigitsEndUnique(text: seq<byte>, i: nat, e: nat)
    requires i <= e <= |text| && (e < |text| ==> !Digit(text[e]))
    requires forall k :: i <= k < e ==> Digit(text[k])
    ensures DigitsEnd(text, i) == e
    decreases e - i
  {
    if i < e {
      DigitsEndUnique(text, i + 1, e);
    }
  }

  lemma DecSnoc(text: seq<byte>, s: nat, i: nat)
    requires s <= i < |text| && (forall c :: c in text[s..i + 1] ==> Digit(c))
    ensures forall c :: c in text[s..i] ==> Digit(c)
    ensures DecValue(text[s..i + 1]) == DecValue(text[s..i]) * 10 + DigitValue(text[i])
  {
    assert text[s..i + 1] == text[s..i] + [text[i]];
    assert text[s..i + 1][..i - s] == text[s..i];
  }

  lemma {:induction false} DecMono(d: seq<byte>, n: nat)
    requires n <= |d| && (forall c :: c in d ==> Digit(c))
    ensures DecValue(d[..n]) <= DecValue(d)
  {
    if n < |d| {
      DecMono(d[..|d| - 1], n);
      assert d[..|d| - 1][..n] == d[..n];
      assert DecValue(d) >= DecValue(d[..|d| - 1]) * 10;
    } else {
      assert d[..n] == d;
    }
  }

  datatype Strtox = ErrorRange | ErrorInval | ExpectMore | StrtoxOk | ExtraData

  function AfterPlus(text: seq<byte>, start: nat): nat
    requires start < |text|
  {
    if text[start] == 0x2b then start + 1 else start
  }

  /** The digits from start on; at least one octet is there. */
  method ScanDigits(text: seq<byte>, start: nat) returns (res: Strtox, end: nat, value: nat)
    requires start < |text|
    ensures var e := DigitsEnd(text, start);
            var v := DecValue(text[start..e]);
            if v > UINTMAX then
              && res == ErrorRange && start <= end < e
              && DecValue(text[start..end]) <= UINTMAX < DecValue(text[start..end + 1])
            else res == (if e == |text| then StrtoxOk else ExtraData) && end == e && value == v
  {
    hide DecValue, DigitsEnd;
    value := 0;
    var i := start;
    ghost var e := DigitsEnd(text, start);
    NoDigits(text, start);
    while i < |text|
      invariant start <= i <= e && DigitsEnd(text, i) == e
      invariant forall c :: c in text[start..i] ==> Digit(c)
      invariant value == DecValue(text[start..i]) <= UINTMAX
    {
      NextDigit(text, start, i, e);
      if !Digit(text[i]) {
        return ExtraData, i, value;
      }
      var d := DigitValue(text[i]);
      if value < UINTMAX / 10 || (value == UINTMAX / 10 && d <= UINTMAX % 10) {
        value := value * 10 + d;
      } else {
        return ErrorRange, i, value;
      }
      i := i + 1;
    }
    return StrtoxOk, i, value;
  }

  lemma NoDigits(text: seq<byte>, start: nat)
    requires start <= |text|
    ensures DecValue(text[start..start]) == 0
  {
  }

  /** What the next character means for the digits read so far. */
  lemma NextDigit(text: seq<byte>, start: nat, i: nat, e: nat)
    requires start <= i < |text| && e == DigitsEnd(text, start) == DigitsEnd(text, i)
    requires forall c :: c in text[start..i] ==> Digit(c)
    ensures if !Digit(text[i]) then i == e
            else
              && i < e && DigitsEnd(text, i + 1) == e && (forall c :: c in text[start..i + 1] ==> Digit(c))
              && DecValue(text[start..i + 1]) == DecValue(text[start..i]) * 10 + DigitValue(text[i])
              && DecValue(text[start..i + 1]) <= DecValue(text[start..e])
  {
    hide DecValue;
    if Digit(text[i]) {
      assert text[start..i + 1] == text[start..i] + [text[i]];
      DecSnoc(text, start, i);
      DecMono(text[start..e], i + 1 - start);
      assert text[start..e][..i + 1 - start] == text[start..i + 1];
    }
  }

  /** asn_strtoumax_lim; asn_strtoul_lim passes its results on where both types have 64 bits. */
  method StrToUMax(text: seq<byte>, start: nat) returns (res: Strtox, end: nat, value: nat)
    ensures start >= |text| || text[start] == 0x2d ==> res == ErrorInval
    ensures start + 1 == |text| && text[start] == 0x2b ==> res == ExpectMore && end == |text|
    ensures start < |text| && text[start] != 0x2d && AfterPlus(text, start) < |text| ==>
              var s := AfterPlus(text, start);
              var e := DigitsEnd(text, s);
              var v := DecValue(text[s..e]);
              if v > UINTMAX then
                && res == ErrorRange && s <= end < e
                && DecValue(text[s..end]) <= UINTMAX < DecValue(text[s..end + 1])
              else res == (if e == |text| then StrtoxOk else ExtraData) && end == e && value == v
  {
    end, value := |text|, 0;
    if start >= |text| || text[start] == 0x2d {
      return ErrorInval, end, value;
    }
    var i := start;
    if text[i] == 0x2b {
      i := i + 1;
      if i >= |text| {
        return ExpectMore, i, value;
      }
    }
    res, end, value := ScanDigits(text, i);
  }

  datatype Spot = LeadSpace | TailSpace | AfterValue | WaitDigits

  /** What the scan answers from position i on; SomeArcs([]) stands for the answer 0. */
  function Parse(text: seq<byte>, i: nat, spot: Spot, acc: seq<nat>): Arcs
    requires i <= |text|
    decreases |text| - i
  {
    if i == |text| then
      if spot == WaitDigits then NoArcs else SomeArcs(acc)
    else if White(text[i]) then
      if spot == WaitDigits then NoArcs
      else Parse(text, i + 1, if spot == AfterValue then TailSpace else spot, acc)
    else if text[i] == DOT then
      if spot == AfterValue then Parse(text, i + 1, WaitDigits, acc) else NoArcs
    else if Digit(text[i]) && (spot == LeadSpace || spot == WaitDigits) then
      var e := DigitsEnd(text, i);
      if DecValue(text[i..e]) < ARC_LIMIT then Parse(text, e, AfterValue, acc + [DecValue(text[i..e])])
      else NoArcs
    else NoArcs
  }

  /** Where the scan from position i on stops: at the offending character or numeral, or at the end. */
  function ParseStop(text: seq<byte>, i: nat, spot: Spot): (e: nat)
    requires i <= |text|
    ensures i <= e <= |text|
    decreases |text| - i
  {
    if i == |text| then i
    else if White(text[i]) then
      if spot == WaitDigits then i else ParseStop(text, i + 1, if spot == AfterValue then TailSpace else spot)
    else if text[i] == DOT then
      if spot == AfterValue then ParseStop(text, i + 1, WaitDigits) else i
    else if Digit(text[i]) && (spot == LeadSpace || spot == WaitDigits) then
      var e := DigitsEnd(text, i);
      if DecValue(text[i..e]) < ARC_LIMIT then ParseStop(text, e, AfterValue) else i
    else i
  }

  /** A text that is accepted is read to its end, and one that is not is refused at a character or for being cut short. */
  lemma {:induction false} StopMeans(text: seq<byte>, i: nat, spot: Spot, acc: seq<nat>)
    requires i <= |text|
    ensures Parse(text, i, spot, acc).SomeArcs? ==> ParseStop(text, i, spot) == |text|
    ensures ParseStop(text, i, spot) == |text| && Parse(text, i, spot, acc).NoArcs?
            ==> if i == |text| then spot == WaitDigits else text[|text| - 1] == DOT
    decreases |text| - i
  {
    hide DecValue;
    if i < |text| {
      if White(text[i]) && spot != WaitDigits {
        StopMeans(text, i + 1, if spot == AfterValue then TailSpace else spot, acc);
      } else if text[i] == DOT && spot == AfterValue {
        StopMeans(text, i + 1, WaitDigits, acc);
      } else if Digit(text[i]) && (spot == LeadSpace || spot == WaitDigits) {
        var e := DigitsEnd(text, i);
        StopMeans(text, e, AfterValue, acc + [DecValue(text[i..e])]);
      }
    }
  }

  /** All arcs are counted and as many as there is room for are stored. */
  method ParseArcs(text: seq<byte>, count: nat) returns (ret: int, arcs: seq<nat>, end: nat)
    ensures match Parse(text, 0, LeadSpace, [])
            case NoArcs => ret == -1
            case SomeArcs(list) => ret == |list| && arcs == list[..Min(count, |list|)]
    ensures end == ParseStop(text, 0, LeadSpace)
  {
    hide DecValue, DigitsEnd;
    arcs := [];
    var num, i, spot := 0, 0, LeadSpace;
    ghost var acc: seq<nat> := [];
    while i < |text|
      invariant 0 <= i <= |text| && num == |acc| && arcs == acc[..Min(count, num)]
      invariant spot == LeadSpace ==> acc == []
      invariant Parse(text, 0, LeadSpace, []) == Parse(text, i, spot, acc)
      invariant ParseStop(text, 0, LeadSpace) == ParseStop(text, i, spot)
    {
      if White(text[i]) {
        if spot == WaitDigits {
          return -1, arcs, i;
        } else if spot == AfterValue {
          spot := TailSpace;
        }
        i := i + 1;
      } else if text[i] == DOT {
        if spot != AfterValue {
          return -1, arcs, i;
        }
        spot := WaitDigits;
        i := i + 1;
      } else if Digit(text[i]) {
        if spot == TailSpace || spot == AfterValue {
          return -1, arcs, i;
        }
        var res, endp, value := StrToUMax(text, i);
        if res == ErrorRange || value >= ARC_LIMIT {
          return -1, arcs, i;
        }
        SomeDigits(text, i);
        if num < count {
          arcs := arcs + [value];
        }
        acc := acc + [value];
        num := num + 1;
        i := endp;
        spot := AfterValue;
      } else {
        return -1, arcs, i;
      }
    }
    end := i;
    ret := if spot == LeadSpace then 0 else if spot == WaitDigits then -1 else num;
  }

  lemma SomeDigits(text: seq<byte>, i: nat)
    requires i < |text| && Digit(text[i])
    ensures DigitsEnd(text, i) > i
  {
  }

  /** A decimal numeral, leading zeros allowed, of a 32-bit number. */
  predicate Numeral(d: seq<byte>) {
    d != [] && (forall c :: c in d ==> Digit(c)) && DecValue(d) < ARC_LIMIT
  }

  predicate Numerals(ds: seq<seq<byte>>) {
    forall k :: 0 <= k < |ds| ==> Numeral(ds[k])
  }

  function Dotted(ds: seq<seq<byte>>): seq<byte> {
    if ds == [] then [] else if |ds| == 1 then ds[0] else ds[0] + [DOT] + Dotted(ds[1..])
  }

  function Values(ds: seq<seq<byte>>): seq<nat>
    requires Numerals(ds)
  {
    if ds == [] then [] else [DecValue(ds[0])] + Values(ds[1..])
  }

  lemma {:induction false} SkipBlank(text: seq<byte>, i: nat, n: nat, spot: Spot, acc: seq<nat>)
    requires i + n <= |text| && Blank(text[i..i + n]) && (spot == LeadSpace || spot == TailSpace)
    ensures Parse(text, i, spot, acc) == Parse(text, i + n, spot, acc)
    decreases n
  {
    if n > 0 {
      assert White(text[i..i + n][0]);
      assert text[i + 1..i + n] == text[i..i + n][1..];
      SkipBlank(text, i + 1, n - 1, spot, acc);
    }
  }

  lemma EndBlank(text: seq<byte>, i: nat, acc: seq<nat>)
    requires i <= |text| && Blank(text[i..])
    ensures Parse(text, i, AfterValue, acc) == SomeArcs(acc)
  {
    if i < |text| {
      assert White(text[i..][0]);
      assert text[i + 1..|text|] == text[i..][1..];
      SkipBlank(text, i + 1, |text| - i - 1, TailSpace, acc);
    }
  }

  lemma ReadNumeral(text: seq<byte>, i: nat, d: seq<byte>, spot: Spot, acc: seq<nat>)
    requires Numeral(d) && i + |d| <= |text| && text[i..i + |d|] == d
    requires i + |d| < |text| ==> !Digit(text[i + |d|])
    requires spot == LeadSpace || spot == WaitDigits
    ensures Parse(text, i, spot, acc) == Parse(text, i + |d|, AfterValue, acc + [DecValue(d)])
  {
    forall k | i <= k < i + |d| ensures Digit(text[k]) {
      assert text[k] == d[k - i];
    }
    DigitsEndUnique(text, i, i + |d|);
  }

  lemma SuffixSplit(text: seq<byte>, i: nat, d: seq<byte>, rest: seq<byte>)
    requires i <= |text| && text[i..] == d + rest
    ensures i + |d| <= |text| && text[i..i + |d|] == d && text[i + |d|..] == rest
    ensures i + |d| < |text| <==> rest != []
    ensures rest != [] ==> text[i + |d|] == rest[0]
  {
    assert |text[i..]| == |d| + |rest|;
    assert text[i..i + |d|] == text[i..][..|d|];
    assert text[i + |d|..] == text[i..][|d|..];
  }

  lemma DottedHead(ds: seq<seq<byte>>, w: seq<byte>)
    requires |ds| > 1
    ensures Dotted(ds) + w == ds[0] + ([DOT] + (Dotted(ds[1..]) + w))
  {
  }

  lemma ReadLast(text: seq<byte>, i: nat, d: seq<byte>, w: seq<byte>, spot: Spot, acc: seq<nat>)
    requires Numeral(d) && Blank(w) && i <= |text| && text[i..] == d + w
    requires spot == LeadSpace || spot == WaitDigits
    ensures Parse(text, i, spot, acc) == SomeArcs(acc + [DecValue(d)])
  {
    hide Parse, DecValue, White;
    SuffixSplit(text, i, d, w);
    NotDigit(w);
    ReadNumeral(text, i, d, spot, acc);
    EndBlank(text, i + |d|, acc + [DecValue(d)]);
  }

  lemma ReadFirst(text: seq<byte>, i: nat, d: seq<byte>, rest: seq<byte>, spot: Spot, acc: seq<nat>)
    requires Numeral(d) && i <= |text| && text[i..] == d + ([DOT] + rest)
    requires spot == LeadSpace || spot == WaitDigits
    ensures i + |d| + 1 <= |text| && text[i + |d| + 1..] == rest
    ensures Parse(text, i, spot, acc) == Parse(text, i + |d| + 1, WaitDigits, acc + [DecValue(d)])
  {
    hide Parse, DecValue;
    var j := i + |d|;
    SuffixSplit(text, i, d, [DOT] + rest);
    SuffixSplit(text, j, [DOT], rest);
    ReadNumeral(text, i, d, spot, acc);
    DotStep(text, j, acc + [DecValue(d)]);
  }

  lemma {:induction false} ReadDotted(text: seq<byte>, i: nat, ds: seq<seq<byte>>, w: seq<byte>, spot: Spot, acc: seq<nat>)
    requires ds != [] && Numerals(ds) && Blank(w) && i <= |text| && text[i..] == Dotted(ds) + w
    requires spot == LeadSpace || spot == WaitDigits
    ensures Parse(text, i, spot, acc) == SomeArcs(acc + Values(ds))
    decreases |ds|
  {
    hide Parse, DecValue, White;
    var d := ds[0];
    assert Numeral(d);
    hide Numeral;
    if |ds| == 1 {
      ReadLast(text, i, d, w, spot, acc);
      assert Values(ds) == [DecValue(d)];
    } else {
      hide Dotted;
      DottedHead(ds, w);
      ReadFirst(text, i, d, Dotted(ds[1..]) + w, spot, acc);
      ReadDotted(text, i + |d| + 1, ds[1..], w, WaitDigits, acc + [DecValue(d)]);
      assert acc + [DecValue(d)] + Values(ds[1..]) == acc + Values(ds);
    }
  }

  lemma NotDigit(w: seq<byte>)
    requires Blank(w)
    ensures w != [] ==> !Digit(w[0])
  {
    assert w != [] ==> White(w[0]);
  }

  lemma DotStep(text: seq<byte>, i: nat, acc: seq<nat>)
    requires i < |text| && text[i] == DOT
    ensures Parse(text, i, AfterValue, acc) == Parse(text, i + 1, WaitDigits, acc)
  {
  }

  /** Dotted numerals, with blanks before and after, are read as the numbers they denote. */
  lemma ParseAccepts(before: seq<byte>, ds: seq<seq<byte>>, after: seq<byte>)
    requires Blank(before) && Numerals(ds) && ds != [] && Blank(after)
    ensures Parse(before + Dotted(ds) + after, 0, LeadSpace, []) == SomeArcs(Values(ds))
  {
    var text := before + Dotted(ds) + after;
    assert text[0..0 + |before|] == before;
    SkipBlank(text, 0, |before|, LeadSpace, []);
    assert text[|before|..] == Dotted(ds) + after;
    ReadDotted(text, |before|, ds, after, LeadSpace, []);
    assert [] + Values(ds) == Values(ds);
  }

  lemma {:induction false} TailOnlyBlank(text: seq<byte>, i: nat, acc: seq<nat>)
    requires i <= |text| && Parse(text, i, TailSpace, acc).SomeArcs?
    ensures Blank(text[i..]) && Parse(text, i, TailSpace, acc) == SomeArcs(acc)
    decreases |text| - i
  {
    if i < |text| {
      TailOnlyBlank(text, i + 1, acc);
      assert text[i..] == [text[i]] + text[i + 1..];
    }
  }

  lemma NumeralOnly(text: seq<byte>, i: nat, acc: seq<nat>)
    requires i <= |text| && Parse(text, i, WaitDigits, acc).SomeArcs?
    ensures var e := DigitsEnd(text, i);
            && i < e
            && Numeral(text[i..e])
            && Parse(text, i, WaitDigits, acc) == Parse(text, e, AfterValue, acc + [DecValue(text[i..e])])
  {
  }

  lemma AfterOnly(text: seq<byte>, i: nat, acc: seq<nat>)
    requires i <= |text| && Parse(text, i, AfterValue, acc).SomeArcs?
    ensures if i < |text| && text[i] == DOT
            then Parse(text, i, AfterValue, acc) == Parse(text, i + 1, WaitDigits, acc)
            else Parse(text, i, AfterValue, acc) == SomeArcs(acc) && Blank(text[i..])
  {
    if i < |text| && text[i] != DOT {
      TailOnlyBlank(text, i + 1, acc);
      assert text[i..] == [text[i]] + text[i + 1..];
    }
  }

  lemma {:induction false} DottedOnly(text: seq<byte>, i: nat, acc: seq<nat>)
    returns (ds: seq<seq<byte>>, after: seq<byte>)
    requires i <= |text| && Parse(text, i, WaitDigits, acc).SomeArcs?
    ensures ds != [] && Numerals(ds) && Blank(after) && text[i..] == Dotted(ds) + after
    ensures Parse(text, i, WaitDigits, acc) == SomeArcs(acc + Values(ds))
    decreases |text| - i
  {
    hide Parse, DecValue, White, Numeral;
    NumeralOnly(text, i, acc);
    var e := DigitsEnd(text, i);
    var d := text[i..e];
    var acc' := acc + [DecValue(d)];
    AfterOnly(text, e, acc');
    assert text[i..] == d + text[e..];
    if e < |text| && text[e] == DOT {
      var ds', after' := DottedOnly(text, e + 1, acc');
      ds, after := [d] + ds', after';
      assert ds[1..] == ds';
      DottedHead(ds, after);
      assert text[e..] == [DOT] + text[e + 1..];
      assert acc' + Values(ds') == acc + Values(ds);
    } else {
      ds, after := [d], text[e..];
      assert Values(ds) == [DecValue(d)];
    }
  }

  lemma LeadStep(text: seq<byte>, i: nat)
    requires i < |text| && White(text[i])
    ensures Parse(text, i, LeadSpace, []) == Parse(text, i + 1, LeadSpace, [])
  {
  }

  lemma {:induction false} LeadOnly(text: seq<byte>, i: nat) returns (before: seq<byte>, rest: seq<byte>)
    requires i <= |text|
    ensures before + rest == text[i..] && Blank(before) && (rest != [] ==> !White(rest[0]))
    ensures Parse(text, i, LeadSpace, []) == Parse(text, i + |before|, LeadSpace, [])
    decreases |text| - i
  {
    hide White;
    if i < |text| && White(text[i]) {
      before, rest := LeadOnly(text, i + 1);
      LeadStep(text, i);
      hide Parse;
      before := [text[i]] + before;
      assert text[i..] == [text[i]] + text[i + 1..];
    } else {
      before, rest := [], text[i..];
    }
  }

  /** Conversely, a text is read as a list of arcs only if it consists of dotted numerals between blanks. */
  lemma ParseAcceptsOnly(text: seq<byte>) returns (before: seq<byte>, ds: seq<seq<byte>>, after: seq<byte>)
    requires Parse(text, 0, LeadSpace, []).SomeArcs? && Parse(text, 0, LeadSpace, []).list != []
    ensures Blank(before) && Numerals(ds) && ds != [] && Blank(after)
    ensures text == before + Dotted(ds) + after
    ensures Parse(text, 0, LeadSpace, []) == SomeArcs(Values(ds))
  {
    var rest;
    before, rest := LeadOnly(text, 0);
    var i := |before|;
    assert text[0..] == text;
    assert rest == text[i..];
    LeadIsWait(text, i);
    ds, after := DottedOnly(text, i, []);
    assert [] + Values(ds) == Values(ds);
  }

  lemma LeadIsWait(text: seq<byte>, i: nat)
    requires i <= |text| && (i < |text| ==> !White(text[i]))
    requires Parse(text, i, LeadSpace, []).SomeArcs? && Parse(text, i, LeadSpace, []).list != []
    ensures i < |text| && Digit(text[i])
    ensures Parse(text, i, WaitDigits, []) == Parse(text, i, LeadSpace, [])
  {
  }

  /** How printf writes an unsigned number in base ten. */
  function Decimal(n: nat): (d: seq<byte>)
    ensures d != [] && forall c :: c in d ==> Digit(c)
  {
    (if n < 10 then [] else Decimal(n / 10)) + [0x30 + n % 10]
  }

  lemma {:induction false} DecimalValue(n: nat)
    ensures DecValue(Decimal(n)) == n
  {
    if n >= 10 {
      DecimalValue(n / 10);
    }
    assert Decimal(n)[..|Decimal(n)| - 1] == if n < 10 then [] else Decimal(n / 10);
  }

  function Decimals(arcs: seq<nat>): seq<seq<byte>> {
    if arcs == [] then [] else [Decimal(arcs[0])] + Decimals(arcs[1..])
  }

  lemma {:induction false} DecimalsValues(arcs: seq<nat>)
    requires ArcsInRange(arcs)
    ensures |Decimals(arcs)| == |arcs| && Numerals(Decimals(arcs)) && Values(Decimals(arcs)) == arcs
  {
    if arcs != [] {
      DecimalValue(arcs[0]);
      DecimalsValues(arcs[1..]);
      var ds := Decimals(arcs);
      assert ds[1..] == Decimals(arcs[1..]);
      forall k | 0 <= k < |ds| ensures Numeral(ds[k]) {
        assert k > 0 ==> ds[k] == Decimals(arcs[1..])[k - 1];
      }
      assert arcs == [arcs[0]] + arcs[1..];
    }
  }

  function OidToText(arcs: seq<nat>): seq<byte> {
    Dotted(Decimals(arcs))
  }

  lemma {:induction false} DottedSnoc(ds: seq<seq<byte>>, d: seq<byte>)
    requires ds != []
    ensures Dotted(ds + [d]) == Dotted(ds) + [DOT] + d
  {
    var es := ds + [d];
    assert es[0] == ds[0] && es[1..] == ds[1..] + [d];
    if |ds| == 1 {
      assert es[1..] == [d];
    } else {
      DottedSnoc(ds[1..], d);
      assert ds[0] + [DOT] + (Dotted(ds[1..]) + [DOT] + d) == (ds[0] + [DOT] + Dotted(ds[1..])) + [DOT] + d;
    }
  }

  lemma {:induction false} DecimalsSnoc(arcs: seq<nat>, a: nat)
    ensures Decimals(arcs + [a]) == Decimals(arcs) + [Decimal(a)]
  {
    if arcs != [] {
      assert (arcs + [a])[1..] == arcs[1..] + [a];
      DecimalsSnoc(arcs[1..], a);
    }
  }

  lemma TextSnoc(arcs: seq<nat>, a: nat)
    requires arcs != []
    ensures OidToText(arcs + [a]) == OidToText(arcs) + [DOT] + Decimal(a)
  {
    DecimalsSnoc(arcs, a);
    DottedSnoc(Decimals(arcs), Decimal(a));
  }

  lemma {:induction false} DecimalLength(n: nat, k: nat)
    requires k > 0 && n < Pow(10, k)
    ensures |Decimal(n)| <= k
  {
    assert Pow(10, 1) == 10;
    if n >= 10 {
      DecimalLength(n / 10, k - 1);
    }
  }

  lemma TenDigits(n: nat)
    requires n < ARC_LIMIT
    ensures |Decimal(n)| <= 10
  {
    assert Pow(10, 5) == 100000;
    PowAdd(10, 5, 5);
    DecimalLength(n, 10);
  }

  /** The arcs after the first two; each piece fits the 32-character scratch pad with its terminator. */
  method DumpRest(b: seq<byte>, start: seq<byte>, ghost first: seq<nat>) returns (ok: bool, text: seq<byte>)
    requires first != [] && start == OidToText(first)
    ensures ok <==> RestArcs(b).SomeArcs?
    ensures ok ==> text == OidToText(first + RestArcs(b).list)
  {
    hide SingleArc, Decimal, OidToText;
    text := start;
    ghost var all := first;
    var rest := b;
    ghost var whole := RestArcs(b);
    assert whole.SomeArcs? ==> first + whole.list == all + whole.list;
    while true
      invariant all != [] && text == OidToText(all)
      invariant whole.SomeArcs? == RestArcs(rest).SomeArcs?
      invariant whole.SomeArcs? ==> first + whole.list == all + RestArcs(rest).list
      decreases |rest|
    {
      var n, arc := GetSingleArc(rest);
      if n < 0 {
        return false, text;
      } else if n == 0 {
        break;
      }
      TenDigits(arc);
      var scratch := [DOT] + Decimal(arc);
      assert |scratch| < 32;
      TextSnoc(all, arc);
      assert text + scratch == text + [DOT] + Decimal(arc);
      text := text + scratch;
      if whole.SomeArcs? {
        MoveOne(all, arc, RestArcs(rest[n..]).list);
      }
      all := all + [arc];
      rest := rest[n..];
    }
    assert all + [] == all;
    ok := true;
  }

  lemma MoveOne(s: seq<nat>, x: nat, t: seq<nat>)
    ensures s + ([x] + t) == s + [x] + t
  {
  }

  /** Prints the arcs as they are read. */
  method DumpBody(b: seq<byte>) returns (produced: int, text: seq<byte>)
    ensures match AllArcs(b)
            case NoArcs => produced == -1
            case SomeArcs(list) => text == OidToText(list) && produced == |text|
  {
    hide SingleArc, RestArcs, Decimal, OidToText;
    text := [];
    var rd, value := GetSingleArc(b);
    if rd <= 0 {
      return -1, text;
    }
    var two := FirstTwo(value);
    TenDigits(two[0]);
    TenDigits(two[1]);
    var scratch := Decimal(two[0]) + [DOT] + Decimal(two[1]);
    assert |scratch| < 32;
    OneText(two[0]);
    TextSnoc([two[0]], two[1]);
    assert two == [two[0]] + [two[1]];
    var ok;
    ok, text := DumpRest(b[rd..], scratch, two);
    produced := if ok then |text| else -1;
  }

  lemma OneText(a: nat)
    ensures OidToText([a]) == Decimal(a)
  {
    assert Decimals([a]) == [Decimal(a)];
  }

  /** Parsing the printed text of any list of 32-bit arcs gives the list back. */
  lemma TextRoundTrip(arcs: seq<nat>)
    requires ArcsInRange(arcs) && arcs != []
    ensures Parse(OidToText(arcs), 0, LeadSpace, []) == SomeArcs(arcs)
  {
    DecimalsValues(arcs);
    ParseAccepts([], Decimals(arcs), []);
    assert [] + OidToText(arcs) + [] == OidToText(arcs);
  }
}
