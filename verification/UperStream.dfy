/** A value through the UPER encoder, the output window, the flush and the decoder. */
module UperStream {
  import opened Arith
  import opened Bits
  import opened BitWriter
  import opened BitReader
  import opened Uper
  import opened UperRoundTrip
  import opened UperCodec
  import opened UperDecoder

  /** What the encoder accepts within the extension roots comes back out of the flushed octets. */
  method Transmit(ty: Type, v: Value) returns (octets: seq<byte>, sent: Result, got: Result, back: Value)
    requires TypeOk(ty)
    ensures sent == Done <==> Encode(ty, v).Encoded?
    ensures sent == Done ==> if Decodable(ty, v) then got == Done && back == Filled(ty, v) else got == Refused
    ensures sent == Done ==> |octets| == Reach(|Encode(ty, v).bits|)
  {
    hide Encode, Decode, TypeOk, Decodable, Filled, Reported, BytesBits, Prefix, Zeros;
    var po := new BitOutp();
    octets, got, back := [], Refused, Nothing;
    sent := EncodeUper(ty, v, po);
    if sent == Done {
      ghost var bits := Encode(ty, v).bits;
      assert po.Written() == bits;
      var ret := po.AlignedFlush();
      octets := po.output;
      assert |octets| == Reach(|bits|) by {
        WholeOctets(|bits|);
      }
      var pd := new BitData.Contiguous(octets, 8 * |octets|);
      ghost var pad := Zeros(8 * Reach(|bits|) - |bits|);
      assert pd.Remaining() == bits + pad;
      RoundTrip(ty, v, pad);
      var consumed;
      got, back, consumed := DecodeUper(ty, pd);
    }
  }
}
