/** One concrete signature element: the signature occupies a fixed block of
    73 bytes, which is the layout of the 8 + 73 byte payload the message's
    comments describe. It satisfies the laws `SigCodec.Lawful` asks of every
    signature element, so the message lemmas apply to it, and with it every
    encoded payload is exactly `MaxPayloadLength` bytes long. */
module FixedWidthSignature {
  import opened Wire
  import opened SignCompleteMsg

  /** Writes a present 73-byte signature as itself; anything else is refused.
      Reads the first 73 bytes of the stream as the signature. */
  function FixedWidthSigCodec(): (c: SigCodec)
    ensures forall s :: c.write(s).Ok? <==> s.Some? && |s.value| == MaxSigLen
    ensures forall b :: c.read(b).Err? <==> |b| < MaxSigLen
  {
    SigCodec(
      (s: Option<Sig>) => if s.Some? && |s.value| == MaxSigLen then Ok(s.value) else Err(BadSignature),
      (b: seq<Byte>) => if |b| < MaxSigLen then Err(ShortRead) else Ok((b[..MaxSigLen], b[MaxSigLen..])))
  }

  lemma FixedWidthSigCodecLawful()
    ensures FixedWidthSigCodec().Lawful()
  {
  }

  /** With the fixed-width signature, a message encodes exactly when its
      signature is present and 73 bytes long, and then into exactly 81 bytes. */
  lemma FixedWidthPayloadLength(c: SingleFundingSignComplete, pver: Uint32)
    ensures EncodePayload(FixedWidthSigCodec(), c.Value()).Ok? <==>
      c.commitSig.Some? && |c.commitSig.value| == MaxSigLen
    ensures EncodePayload(FixedWidthSigCodec(), c.Value()).Ok? ==>
      |EncodePayload(FixedWidthSigCodec(), c.Value()).value| == c.MaxPayloadLength(pver)
  {
  }

  /** Channel 42: the payload is seven zero bytes, the byte 42, then the
      signature, and decoding it gives back channel 42 and the same signature. */
  lemma ChannelId42Example(sig: Sig)
    requires |sig| == MaxSigLen
    ensures EncodePayload(FixedWidthSigCodec(), Msg(42, Some(sig))) == Ok([0, 0, 0, 0, 0, 0, 0, 42] + sig)
    ensures DecodePayload(FixedWidthSigCodec(), [0, 0, 0, 0, 0, 0, 0, 42] + sig) ==
      Ok(Decoded(Msg(42, Some(sig)), []))
  {
    assert WriteUint64(42) == [0, 0, 0, 0, 0, 0, 0, 42];
    FixedWidthSigCodecLawful();
    RoundTrip(FixedWidthSigCodec(), Msg(42, Some(sig)), []);
    assert [0, 0, 0, 0, 0, 0, 0, 42] + sig + [] == [0, 0, 0, 0, 0, 0, 0, 42] + sig;
  }
}
