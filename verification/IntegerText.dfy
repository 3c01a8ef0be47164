/** The colon-separated hexadecimal text of INTEGER: INTEGER__dump and INTEGER__xer_body_decode, asn1/INTEGER.c. */
module IntegerText {
  import opened Arith
  import opened Text
  import Integer

  const COLON: byte := 0x3a

  predicate HexLetter(c: byte) {
    0x41 <= c <= 0x46 || 0x61 <= c <= 0x66
  }

  predicate HexChar(c: byte) {
    Digit(c) || HexLetter(c)
  }

  function HexValue(c: byte): (v: nat)
    requires HexChar(c)
    ensures v < 16
  {
    var n: int := c;
    if n <= 0x39 then n - 0x30 else if n < 0x61 then n - 0x41 + 10 else n - 0x61 + 10
  }

  /** The states of the scanner; END_ENUM needs an enumeration map and UNEXPECTED ends the scan. */
  datatype Mode =
    | LeadSpace | SkipSpHex | WaitDigits(start: nat) | Digits(start: nat) | DigitsTrailSpace(start: nat, end: nat)
    | HexDigit1 | HexDigit2(high: nat) | HexDigitsTrailSpace | HexColon
  {
    /** The scanner has not yet decided for the hexadecimal form. */
    predicate Undecided() {
      LeadSpace? || WaitDigits? || Digits? || DigitsTrailSpace?
    }
  }

  /** DecimalText hands the characters from start to end over to the decimal conversion. */
  datatype Outcome = BodyConsumed(octets: seq<byte>) | DecimalText(start: nat, end: nat) | BrokenEncoding | NotBodyIgnore

  datatype Move = Go(mode: Mode) | Octet(x: byte) | Rewind | Break

  /** What one character at position i does; without an enumeration map '<' is an error like any other. */
  function Step(c: byte, i: nat, m: Mode): (r: Move)
    requires m.HexDigit2? ==> m.high < 16
    ensures r.Rewind? ==> m.Digits?
    ensures r.Go? && r.mode.Undecided() ==> m.Undecided()
    ensures r.Go? && r.mode.HexDigit2? ==> r.mode.high < 16
    ensures r.Octet? <==> m.HexDigit2? && HexChar(c)
  {
    if White(c) then
      match m
      case LeadSpace => Go(m)
      case DigitsTrailSpace(_, _) => Go(m)
      case HexDigitsTrailSpace => Go(m)
      case SkipSpHex => Go(m)
      case Digits(start) => Go(DigitsTrailSpace(start, i))
      case HexColon => Go(HexDigitsTrailSpace)
      case _ => Break
    else if c == 0x2d || c == 0x2b then
      if m.LeadSpace? then Go(WaitDigits(i)) else Break
    else if Digit(c) then
      match m
      case Digits(_) => Go(m)
      case SkipSpHex => Go(HexDigit2(HexValue(c)))
      case HexDigit1 => Go(HexDigit2(HexValue(c)))
      case HexDigit2(high) => Octet(16 * high + HexValue(c))
      case LeadSpace => Go(Digits(i))
      case WaitDigits(start) => Go(Digits(start))
      case _ => Break
    else if c == COLON then
      match m
      case HexColon => Go(HexDigit1)
      case Digits(_) => Rewind
      case _ => Break
    else if HexLetter(c) then
      match m
      case SkipSpHex => Go(HexDigit2(HexValue(c)))
      case LeadSpace => Go(HexDigit2(HexValue(c)))
      case HexDigit1 => Go(HexDigit2(HexValue(c)))
      case HexDigit2(high) => Octet(16 * high + HexValue(c))
      case Digits(_) => Rewind
      case _ => Break
    else Break
  }

  function Finish(m: Mode, end: nat, octets: seq<byte>): Outcome {
    match m
    case Digits(start) => DecimalText(start, end)
    case DigitsTrailSpace(start, e) => DecimalText(start, e)
    case HexColon => BodyConsumed(octets)
    case HexDigitsTrailSpace => BodyConsumed(octets)
    case LeadSpace => NotBodyIgnore
    case _ => BrokenEncoding
  }

  /** The scan from position i on; after a rewind it never comes back to an undecided state. */
  function Scan(text: seq<byte>, i: nat, m: Mode, octets: seq<byte>): Outcome
    requires i <= |text| && (m.HexDigit2? ==> m.high < 16)
    decreases m.Undecided(), |text| - i
  {
    if i == |text| then Finish(m, i, octets)
    else
      match Step(text[i], i, m)
      case Go(mode) => Scan(text, i + 1, mode, octets)
      case Octet(x) => Scan(text, i + 1, HexColon, octets + [x])
      case Rewind => Scan(text, 0, SkipSpHex, octets)
      case Break => BrokenEncoding
  }

  /** How many octets i characters can have given, so that the buffer is never overrun. */
  predicate Room(m: Mode, i: int, size: int) {
    match m
    case HexDigit1 => 3 * size <= i
    case HexDigit2(_) => 3 * size + 1 <= i
    case HexColon => 0 < size && 3 * size <= i + 1
    case HexDigitsTrailSpace => 0 < size && 3 * size <= i + 1
    case _ => size == 0
  }

  lemma RoomKept(c: byte, i: nat, m: Mode, size: nat)
    requires (m.HexDigit2? ==> m.high < 16) && Room(m, i, size)
    ensures match Step(c, i, m)
            case Go(mode) => Room(mode, i + 1, size)
            case Octet(_) => Room(HexColon, i + 1, size + 1)
            case Rewind => Room(SkipSpHex, 0, size)
            case Break => true
  {
  }

  /**
   * The scanner. It stops on every text, goes back to the start at most once, and stays within the
   * preallocated buffer of a third of the text and one octet, plus a terminating octet.
   */
  method XerBodyDecode(text: seq<byte>) returns (outcome: Outcome, ghost rewinds: nat)
    ensures outcome == Scan(text, 0, LeadSpace, [])
    ensures rewinds <= 1
    ensures outcome.BodyConsumed? ==> 0 < |outcome.octets| <= |text| / 3 + 1
  {
    hide Step;
    var buf := new byte[|text| / 3 + 2];
    var size := 0;
    var m, lp := LeadSpace, 0;
    rewinds := 0;
    while lp < |text|
      invariant 0 <= lp <= |text| && 0 <= size && Room(m, lp, size) && 3 * size <= |text| + 1
      invariant m.HexDigit2? ==> m.high < 16
      invariant rewinds + (if m.Undecided() then 1 else 0) <= 1
      invariant Scan(text, 0, LeadSpace, []) == Scan(text, lp, m, buf[..size])
      decreases m.Undecided(), |text| - lp
    {
      RoomKept(text[lp], lp, m, size);
      match Step(text[lp], lp, m) {
        case Go(mode) =>
          m, lp := mode, lp + 1;
        case Octet(x) =>
          ghost var before := buf[..size];
          buf[size] := x;
          assert buf[..size + 1] == before + [x];
          m, lp, size := HexColon, lp + 1, size + 1;
        case Rewind =>
          m, lp := SkipSpHex, 0;
          rewinds := rewinds + 1;
        case Break =>
          return BrokenEncoding, rewinds;
      }
    }
    if m.HexColon? || m.HexDigitsTrailSpace? {
      ghost var before := buf[..size];
      buf[size] := 0;
      assert buf[..size] == before;
    }
    outcome := Finish(m, lp, buf[..size]);
  }

  /** Two characters for one octet. */
  datatype Pair = Pair(high: byte, low: byte) {
    predicate Valid() {
      HexChar(high) && HexChar(low)
    }

    function Value(): byte
      requires Valid()
    {
      16 * HexValue(high) + HexValue(low)
    }
  }

  predicate AllValid(ps: seq<Pair>) {
    forall k :: 0 <= k < |ps| ==> ps[k].Valid()
  }

  function Values(ps: seq<Pair>): seq<byte>
    requires AllValid(ps)
  {
    if ps == [] then [] else [ps[0].Value()] + Values(ps[1..])
  }

  function Colons(ps: seq<Pair>): seq<byte> {
    if ps == [] then []
    else if |ps| == 1 then [ps[0].high, ps[0].low]
    else [ps[0].high, ps[0].low, COLON] + Colons(ps[1..])
  }

  /** A colon or a letter tells the hexadecimal form from a decimal number. */
  predicate LooksHex(ps: seq<Pair>) {
    |ps| > 1 || (|ps| == 1 && (HexLetter(ps[0].high) || HexLetter(ps[0].low)))
  }

  lemma PairStep(text: seq<byte>, i: nat, p: Pair, m: Mode, octets: seq<byte>)
    requires p.Valid() && (m == SkipSpHex || m == HexDigit1)
    requires i + 1 < |text| && text[i] == p.high && text[i + 1] == p.low
    ensures Scan(text, i, m, octets) == Scan(text, i + 2, HexColon, octets + [p.Value()])
  {
    assert Step(text[i], i, m) == Go(HexDigit2(HexValue(p.high)));
    assert Step(text[i + 1], i + 1, HexDigit2(HexValue(p.high))) == Octet(p.Value());
  }

  lemma {:induction false} TrailBlank(text: seq<byte>, i: nat, octets: seq<byte>)
    requires i <= |text| && Blank(text[i..])
    ensures Scan(text, i, HexDigitsTrailSpace, octets) == BodyConsumed(octets)
    decreases |text| - i
  {
    if i < |text| {
      assert White(text[i..][0]);
      assert text[i + 1..] == text[i..][1..];
      TrailBlank(text, i + 1, octets);
    }
  }

  lemma AfterPair(text: seq<byte>, i: nat, octets: seq<byte>)
    requires i <= |text| && Blank(text[i..])
    ensures Scan(text, i, HexColon, octets) == BodyConsumed(octets)
  {
    if i < |text| {
      assert White(text[i..][0]);
      assert text[i + 1..] == text[i..][1..];
      TrailBlank(text, i + 1, octets);
    }
  }

  lemma ColonStep(text: seq<byte>, i: nat, octets: seq<byte>)
    requires i < |text| && text[i] == COLON
    ensures Scan(text, i, HexColon, octets) == Scan(text, i + 1, HexDigit1, octets)
  {
  }

  /** Where the first pair, its colon and the pairs after it are in a text. */
  lemma PairsText(text: seq<byte>, i: nat, ps: seq<Pair>, after: seq<byte>)
    requires ps != [] && i <= |text| && text[i..] == Colons(ps) + after
    ensures i + 1 < |text| && text[i] == ps[0].high && text[i + 1] == ps[0].low
    ensures |ps| == 1 ==> text[i + 2..] == after
    ensures |ps| > 1 ==> i + 2 < |text| && text[i + 2] == COLON && text[i + 3..] == Colons(ps[1..]) + after
  {
    hide Colons;
    var p := ps[0];
    ColonsSplit(ps);
    if |ps| == 1 {
      TextAt(text, i, [p.high, p.low], after);
      assert text[i + 0] == p.high && text[i + 1] == p.low;
    } else {
      Regroup([p.high, p.low, COLON], Colons(ps[1..]), after);
      TextAt(text, i, [p.high, p.low, COLON], Colons(ps[1..]) + after);
      assert text[i + 0] == p.high && text[i + 1] == p.low && text[i + 2] == COLON;
    }
  }

  lemma Regroup(a: seq<byte>, b: seq<byte>, c: seq<byte>)
    ensures (a + b) + c == a + (b + c)
  {
  }

  lemma ColonsSplit(ps: seq<Pair>)
    requires ps != []
    ensures Colons(ps) == if |ps| == 1 then [ps[0].high, ps[0].low] else [ps[0].high, ps[0].low, COLON] + Colons(ps[1..])
  {
  }

  lemma TextAt(text: seq<byte>, i: nat, head: seq<byte>, tail: seq<byte>)
    requires i <= |text| && text[i..] == head + tail
    ensures i + |head| <= |text| && text[i + |head|..] == tail
    ensures forall k :: 0 <= k < |head| ==> text[i + k] == head[k]
  {
    var t := text[i..];
    assert text[i + |head|..] == t[|head|..];
    forall k | 0 <= k < |head|
      ensures text[i + k] == head[k]
    {
      assert text[i + k] == t[k];
    }
  }

  lemma PairsValues(ps: seq<Pair>, octets: seq<byte>)
    requires ps != [] && AllValid(ps)
    ensures octets + Values(ps) == octets + [ps[0].Value()] + Values(ps[1..])
    ensures |ps| == 1 ==> Values(ps) == [ps[0].Value()]
  {
  }

  lemma {:induction false} PairsRead(text: seq<byte>, i: nat, ps: seq<Pair>, after: seq<byte>, m: Mode, octets: seq<byte>)
    requires ps != [] && AllValid(ps) && Blank(after) && (m == SkipSpHex || m == HexDigit1)
    requires i <= |text| && text[i..] == Colons(ps) + after
    ensures Scan(text, i, m, octets) == BodyConsumed(octets + Values(ps))
    decreases |ps|
  {
    hide Scan, HexChar, HexValue, White, Colons, Values, Blank;
    var p := ps[0];
    var octets' := octets + [p.Value()];
    PairsText(text, i, ps, after);
    PairsValues(ps, octets);
    PairStep(text, i, p, m, octets);
    if |ps| == 1 {
      AfterPair(text, i + 2, octets');
    } else {
      ColonStep(text, i + 2, octets');
      PairsRead(text, i + 3, ps[1..], after, HexDigit1, octets');
    }
  }

  lemma {:induction false} SkipBlank(text: seq<byte>, i: nat, n: nat, m: Mode)
    requires i <= n <= |text| && Blank(text[..n]) && (m == LeadSpace || m == SkipSpHex)
    ensures Scan(text, i, m, []) == Scan(text, n, m, [])
    decreases n - i
  {
    if i < n {
      assert White(text[..n][i]);
      SkipBlank(text, i + 1, n, m);
    }
  }

  /** A text that looks hexadecimal is read in the hexadecimal form from the start, with or without a rewind. */
  lemma DecidesForHex(text: seq<byte>, i: nat, ps: seq<Pair>, after: seq<byte>)
    requires AllValid(ps) && LooksHex(ps) && i <= |text| && Blank(text[..i]) && text[i..] == Colons(ps) + after
    ensures Scan(text, i, LeadSpace, []) == Scan(text, 0, SkipSpHex, [])
  {
    var p := ps[0];
    assert text[i] == text[i..][0] == p.high && text[i + 1] == text[i..][1] == p.low;
    if HexLetter(p.high) {
      SkipBlank(text, 0, i, SkipSpHex);
    } else if HexLetter(p.low) {
      assert Step(text[i + 1], i + 1, Digits(i)) == Rewind;
    } else {
      assert text[i + 2] == text[i..][2] == COLON;
      assert Step(text[i + 1], i + 1, Digits(i)) == Go(Digits(i));
      assert Scan(text, i + 1, Digits(i), []) == Scan(text, i + 2, Digits(i), []);
      assert Step(text[i + 2], i + 2, Digits(i)) == Rewind;
    }
  }

  /** Hexadecimal pairs between colons, in either case of letters and with blanks around, are read as their octets. */
  lemma HexAccepted(before: seq<byte>, ps: seq<Pair>, after: seq<byte>)
    requires Blank(before) && AllValid(ps) && LooksHex(ps) && Blank(after)
    ensures Scan(before + Colons(ps) + after, 0, LeadSpace, []) == BodyConsumed(Values(ps))
  {
    hide Scan, White;
    var text, i := before + Colons(ps) + after, |before|;
    assert text[..i] == before && text[i..] == Colons(ps) + after;
    SkipBlank(text, 0, i, LeadSpace);
    DecidesForHex(text, i, ps, after);
    SkipBlank(text, 0, i, SkipSpHex);
    PairsRead(text, i, ps, after, SkipSpHex, []);
    assert [] + Values(ps) == Values(ps);
  }

  const H2C: seq<byte> := [0x30, 0x31, 0x32, 0x33, 0x34, 0x35, 0x36, 0x37, 0x38, 0x39, 0x41, 0x42, 0x43, 0x44, 0x45, 0x46]

  function PairOf(x: byte): Pair {
    Pair(H2C[x / 16], H2C[x % 16])
  }

  function PairsOf(s: seq<byte>): (ps: seq<Pair>)
    ensures |ps| == |s|
  {
    if s == [] then [] else [PairOf(s[0])] + PairsOf(s[1..])
  }

  /** The printed form of an octet string. */
  function HexText(s: seq<byte>): seq<byte> {
    Colons(PairsOf(s))
  }

  lemma DigitOf(v: nat)
    requires v < 16
    ensures HexChar(H2C[v]) && HexValue(H2C[v]) == v && (HexLetter(H2C[v]) <==> v >= 10)
  {
  }

  lemma PairOfValue(x: byte)
    ensures PairOf(x).Valid() && PairOf(x).Value() == x
  {
    DigitOf(x / 16);
    DigitOf(x % 16);
  }

  lemma {:induction false} PairsOfValues(s: seq<byte>)
    ensures AllValid(PairsOf(s)) && Values(PairsOf(s)) == s
  {
    if s != [] {
      hide PairOf;
      PairOfValue(s[0]);
      PairsOfValues(s[1..]);
      var ps := PairsOf(s);
      assert ps[1..] == PairsOf(s[1..]);
      forall k | 0 <= k < |ps| ensures ps[k].Valid() {
        assert k > 0 ==> ps[k] == PairsOf(s[1..])[k - 1];
      }
      assert [s[0]] + s[1..] == s;
    }
  }

  lemma ColonsSnoc(ps: seq<Pair>, p: Pair)
    requires ps != []
    ensures Colons(ps + [p]) == Colons(ps) + [COLON, p.high, p.low]
  {
    var qs := ps + [p];
    assert qs[0] == ps[0] && qs[1..] == ps[1..] + [p];
    if |ps| == 1 {
      assert qs[1..] == [p];
    } else {
      ColonsSnoc(ps[1..], p);
    }
  }

  lemma {:induction false} PairsOfSnoc(s: seq<byte>, x: byte)
    ensures PairsOf(s + [x]) == PairsOf(s) + [PairOf(x)]
  {
    if s != [] {
      assert (s + [x])[1..] == s[1..] + [x];
      PairsOfSnoc(s[1..], x);
    }
  }

  /** What has been printed, with a colon after every pair. */
  function Printed(s: seq<byte>): seq<byte> {
    if s == [] then [] else HexText(s) + [COLON]
  }

  function Piece(x: byte): (t: seq<byte>)
    ensures |t| == 3
  {
    [PairOf(x).high, PairOf(x).low, COLON]
  }

  lemma PrintedSnoc(s: seq<byte>, x: byte)
    ensures Printed(s + [x]) == Printed(s) + Piece(x)
  {
    PairsOfSnoc(s, x);
    if s == [] {
      assert s + [x] == [x];
      assert PairsOf([x]) == [PairOf(x)];
    } else {
      ColonsSnoc(PairsOf(s), PairOf(x));
    }
  }

  /** Appends one pair and a colon to the scratch pad, which is flushed first when it is nearly full. */
  method PutPiece(scratch: array<byte>, p: nat, out: seq<byte>, x: byte) returns (p': nat, out': seq<byte>)
    requires scratch.Length == 32 && p <= 31
    modifies scratch
    ensures 0 < p' <= 31 && out' + scratch[..p'] == out + old(scratch[..p]) + Piece(x)
  {
    p', out' := p, out;
    if p >= 28 {
      out' := out' + scratch[..p];
      p' := 0;
    }
    ghost var before := out' + scratch[..p'];
    assert before == out + old(scratch[..p]);
    scratch[p'] := H2C[x / 16];
    scratch[p' + 1] := H2C[x % 16];
    scratch[p' + 2] := COLON;
    p' := p' + 3;
    assert out' + scratch[..p'] == before + Piece(x);
  }

  /** The long form of INTEGER__dump, through a scratch pad of 32 characters. */
  method DumpHex(s: seq<byte>) returns (out: seq<byte>, wrote: nat)
    ensures out == HexText(s) && wrote == |out|
  {
    hide HexText, Piece;
    var scratch := new byte[32];
    var p, i := 0, 0;
    out := [];
    while i < |s|
      invariant 0 <= i <= |s| && 0 <= p <= 31 && (i > 0 ==> p > 0)
      invariant out + scratch[..p] == Printed(s[..i])
    {
      hide Printed;
      PrintedSnoc(s[..i], s[i]);
      assert s[..i + 1] == s[..i] + [s[i]];
      p, out := PutPiece(scratch, p, out, s[i]);
      i := i + 1;
    }
    assert s[..|s|] == s;
    ghost var all := out + scratch[..p];
    if p != 0 {
      p := p - 1;
      assert out + scratch[..p] == all[..|all| - 1];
    }
    EmptyText();
    out := out + scratch[..p];
    wrote := |out|;
  }

  lemma EmptyText()
    ensures HexText([]) == []
  {
  }

  /** What is printed is read back as the same octets unless it is empty or two decimal digits. */
  lemma HexRoundTrip(s: seq<byte>)
    ensures Scan(HexText(s), 0, LeadSpace, []) == BodyConsumed(s)
            <==> |s| > 1 || (|s| == 1 && (s[0] / 16 >= 10 || s[0] % 16 >= 10))
  {
    PairsOfValues(s);
    if s == [] {
    } else {
      DigitOf(s[0] / 16);
      DigitOf(s[0] % 16);
      var ps := PairsOf(s);
      if LooksHex(ps) {
        HexAccepted([], ps, []);
        assert [] + HexText(s) + [] == HexText(s);
      } else {
        TwoDigits(HexText(s));
      }
    }
  }

  lemma TwoDigits(text: seq<byte>)
    requires |text| == 2 && Digit(text[0]) && Digit(text[1])
    ensures Scan(text, 0, LeadSpace, []) == DecimalText(0, 2)
  {
    assert Step(text[0], 0, LeadSpace) == Go(Digits(0));
    assert Step(text[1], 1, Digits(0)) == Go(Digits(0));
    assert Scan(text, 2, Digits(0), []) == DecimalText(0, 2);
  }

  /** So every value that does not fit into 64 bits survives printing and reading. */
  lemma LargeRoundTrip(s: seq<byte>)
    requires !(-Integer.INTMAX_LIMIT <= Integer.Signed(s) < Integer.INTMAX_LIMIT)
    ensures Scan(HexText(s), 0, LeadSpace, []) == BodyConsumed(s)
  {
    Integer.SmallFits(s);
    HexRoundTrip(s);
  }

  lemma {:induction false} TrailOnlyBlank(text: seq<byte>, i: nat, octets: seq<byte>)
    requires i <= |text| && Scan(text, i, HexDigitsTrailSpace, octets).BodyConsumed?
    ensures Blank(text[i..]) && Scan(text, i, HexDigitsTrailSpace, octets) == BodyConsumed(octets)
    decreases |text| - i
  {
    if i < |text| {
      TrailOnlyBlank(text, i + 1, octets);
      assert text[i..] == [text[i]] + text[i + 1..];
    }
  }

  lemma AfterOnly(text: seq<byte>, i: nat, octets: seq<byte>)
    requires i <= |text| && Scan(text, i, HexColon, octets).BodyConsumed?
    ensures if i < |text| && text[i] == COLON
            then Scan(text, i, HexColon, octets) == Scan(text, i + 1, HexDigit1, octets)
            else Scan(text, i, HexColon, octets) == BodyConsumed(octets) && Blank(text[i..])
  {
    if i < |text| && text[i] != COLON {
      TrailOnlyBlank(text, i + 1, octets);
      assert text[i..] == [text[i]] + text[i + 1..];
    }
  }

  lemma PairOnly(text: seq<byte>, i: nat, octets: seq<byte>) returns (p: Pair)
    requires i <= |text| && Scan(text, i, HexDigit1, octets).BodyConsumed?
    ensures p.Valid() && i + 1 < |text| && text[i] == p.high && text[i + 1] == p.low
    ensures Scan(text, i, HexDigit1, octets) == Scan(text, i + 2, HexColon, octets + [p.Value()])
  {
    var high := HexValue(text[i]);
    assert Step(text[i], i, HexDigit1) == Go(HexDigit2(high));
    assert Step(text[i + 1], i + 1, HexDigit2(high)).Octet?;
    p := Pair(text[i], text[i + 1]);
    PairStep(text, i, p, HexDigit1, octets);
  }

  lemma MorePairs(p: Pair, ps: seq<Pair>, after: seq<byte>, octets: seq<byte>)
    requires p.Valid() && ps != [] && AllValid(ps)
    ensures AllValid([p] + ps) && octets + [p.Value()] + Values(ps) == octets + Values([p] + ps)
    ensures [p.high, p.low, COLON] + (Colons(ps) + after) == Colons([p] + ps) + after
  {
    var qs := [p] + ps;
    assert qs[1..] == ps;
    assert forall k :: 0 < k < |qs| ==> qs[k] == ps[k - 1];
  }

  lemma {:induction false} PairsOnly(text: seq<byte>, i: nat, octets: seq<byte>)
    returns (ps: seq<Pair>, after: seq<byte>)
    requires i <= |text| && Scan(text, i, HexDigit1, octets).BodyConsumed?
    ensures ps != [] && AllValid(ps) && Blank(after) && text[i..] == Colons(ps) + after
    ensures Scan(text, i, HexDigit1, octets) == BodyConsumed(octets + Values(ps))
    decreases |text| - i
  {
    hide Scan, HexChar, HexValue, White;
    var p := PairOnly(text, i, octets);
    var octets' := octets + [p.Value()];
    AfterOnly(text, i + 2, octets');
    if i + 2 < |text| && text[i + 2] == COLON {
      var ps', after' := PairsOnly(text, i + 3, octets');
      ps, after := [p] + ps', after';
      assert text[i..] == [p.high, p.low, COLON] + text[i + 3..];
      MorePairs(p, ps', after, octets);
    } else {
      ps, after := [p], text[i + 2..];
      assert text[i..] == [p.high, p.low] + after;
      assert Values(ps) == [p.Value()];
    }
  }

  lemma {:induction false} BlankThenHex(text: seq<byte>, i: nat) returns (n: nat)
    requires i <= |text| && Scan(text, i, SkipSpHex, []).BodyConsumed? && Blank(text[..i])
    ensures i <= n <= |text| && Blank(text[..n])
    ensures Scan(text, i, SkipSpHex, []) == Scan(text, n, HexDigit1, [])
    decreases |text| - i
  {
    if i < |text| && White(text[i]) {
      assert text[..i + 1] == text[..i] + [text[i]];
      n := BlankThenHex(text, i + 1);
    } else {
      n := i;
    }
  }

  /** The hexadecimal result never comes from an undecided state: there was a rewind or a leading letter. */
  lemma {:induction false} SameFromStart(text: seq<byte>, i: nat, m: Mode)
    requires i <= |text| && m.Undecided() && Scan(text, i, m, []).BodyConsumed?
    requires m.LeadSpace? ==> Blank(text[..i])
    ensures Scan(text, i, m, []) == Scan(text, 0, SkipSpHex, [])
    decreases |text| - i
  {
    assert i < |text|;
    var r := Step(text[i], i, m);
    if r.Go? && r.mode.Undecided() {
      assert text[..i + 1] == text[..i] + [text[i]];
      SameFromStart(text, i + 1, r.mode);
    } else if r.Go? {
      SkipBlank(text, 0, i, SkipSpHex);
      assert Step(text[i], i, SkipSpHex) == r;
    }
  }

  /** Conversely, nothing else is accepted in the hexadecimal form. */
  lemma HexAcceptedOnly(text: seq<byte>) returns (before: seq<byte>, ps: seq<Pair>, after: seq<byte>)
    requires Scan(text, 0, LeadSpace, []).BodyConsumed?
    ensures Blank(before) && AllValid(ps) && LooksHex(ps) && Blank(after)
    ensures text == before + Colons(ps) + after
    ensures Scan(text, 0, LeadSpace, []) == BodyConsumed(Values(ps))
  {
    hide White, HexValue;
    assert text[..0] == [];
    SameFromStart(text, 0, LeadSpace);
    var n := BlankThenHex(text, 0);
    before := text[..n];
    ps, after := PairsOnly(text, n, []);
    assert [] + Values(ps) == Values(ps);
    assert text == before + text[n..];
    if !LooksHex(ps) {
      DigitsAreDecimal(text, n, ps[0], after);
    }
  }

  lemma DigitsAreDecimal(text: seq<byte>, n: nat, p: Pair, after: seq<byte>)
    requires n <= |text| && Blank(text[..n]) && Blank(after) && text[n..] == [p.high, p.low] + after
    requires Digit(p.high) && Digit(p.low)
    ensures !Scan(text, 0, LeadSpace, []).BodyConsumed?
  {
    SkipBlank(text, 0, n, LeadSpace);
    assert text[n] == text[n..][0] && text[n + 1] == text[n..][1];
    assert Scan(text, n, LeadSpace, []) == Scan(text, n + 1, Digits(n), []);
    assert Scan(text, n + 1, Digits(n), []) == Scan(text, n + 2, Digits(n), []);
    assert text[n + 2..] == text[n..][2..] == after;
    if n + 2 < |text| {
      assert White(after[0]) && text[n + 2] == after[0];
      assert text[n + 3..] == after[1..];
      StaysDecimal(text, n + 3, n, n + 2);
    }
  }

  lemma {:induction false} StaysDecimal(text: seq<byte>, i: nat, start: nat, end: nat)
    requires i <= |text| && Blank(text[i..])
    ensures Scan(text, i, DigitsTrailSpace(start, end), []) == DecimalText(start, end)
    decreases |text| - i
  {
    if i < |text| {
      assert White(text[i..][0]);
      assert text[i + 1..] == text[i..][1..];
      StaysDecimal(text, i + 1, start, end);
    }
  }
}
