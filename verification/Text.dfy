/** Character classes shared by the text scanners. */
module Text {
  import opened Arith

  predicate Digit(c: byte) {
    0x30 <= c <= 0x39
  }

  /** Tab, line feed, carriage return and space. */
  predicate White(c: byte) {
    c == 0x09 || c == 0x0a || c == 0x0d || c == 0x20
  }

  predicate Blank(w: seq<byte>) {
    forall c :: c in w ==> White(c)
  }
}
