/** Writer and reader of asn1/asn_bit_data.c one after the other. */
module BitStream {
  import opened Arith
  import opened Bits
  import opened BitWriter
  import opened BitReader

  /** Bits written at any offset, after a field of k bits, are read back, left-aligned and filled up with zeros. */
  method WriteThenRead(v: nat, k: nat, src: seq<byte>, n: nat) returns (field: int, ret: int, dst: seq<byte>)
    requires k < 32 && n <= 8 * |src|
    ensures field == Low(v, k) && ret == 0
    ensures BytesBits(dst) == BytesBits(src)[..n] + Zeros(8 * Reach(n) - n)
  {
    hide BytesBits, Prefix, BitsOf, Low, Num, Zeros;
    var po := new BitOutp();
    var r := po.PutFewBits(v, k);
    r := po.PutManyBits(src, n);
    ghost var a, b := BitsOf(v, k), BytesBits(src)[..n];
    assert po.Written() == a + b;
    r := po.AlignedFlush();
    ghost var all := BytesBits(po.output);
    ghost var pad := all[k + n..];
    assert all == a + b + pad;
    var pd := new BitData.Contiguous(po.output, 8 * |po.output|);
    assert all[..8 * |po.output|] == all;
    field := pd.GetFewBits(k);
    assert all[..k] == a;
    LowIsNum(v, k);
    ret, dst := pd.GetManyBits(false, n);
    assert all[k..][..n] == b;
  }
}
