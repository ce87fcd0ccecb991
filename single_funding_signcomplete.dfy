/** The `SingleFundingSignComplete` message of the single-funder channel
    workflow: the responder (Bob) sends it to the initiator (Alice) to deliver
    his signature over her version of the commitment transaction. Its payload
    is the channel identifier followed by the commitment signature. */
module SignCompleteMsg {
  import opened Wire

  /** The message's fields as a value. */
  datatype Msg = Msg(channelId: Uint64, commitSig: Option<Sig>)

  /** The command code by which the message is known on the wire; its
      numeric value is assigned with the other message types' codes, outside
      this message, so it is left unspecified here. */
  const CmdSingleFundingSignComplete: Uint32

  /** What `Validate` reports about a decoded message. */
  datatype ValidationError = NilCommitSignature

  /** A successfully decoded payload: the message and the bytes left unread. */
  datatype Decoded = Decoded(msg: Msg, rest: seq<Byte>)

  /** Reads the two fields in wire order: `ChannelID`, then the commitment
      signature. The first failing element's error is the result. */
  function DecodePayload(codec: SigCodec, b: seq<Byte>): (r: Result<Decoded, WireError>)
    ensures |b| < ChannelIdLen ==> r == Err(ShortRead)
    ensures |b| >= ChannelIdLen ==> (r.Err? <==> codec.read(b[ChannelIdLen..]).Err?)
    ensures r.Err? && |b| >= ChannelIdLen ==> codec.read(b[ChannelIdLen..]) == Err(r.error)
    ensures r.Ok? ==> r.value.msg.commitSig.Some?
    ensures r.Ok? ==> b[..ChannelIdLen] == WriteUint64(r.value.msg.channelId)
    ensures r.Ok? ==> codec.read(b[ChannelIdLen..]) == Ok((r.value.msg.commitSig.value, r.value.rest))
  {
    match ReadUint64(b)
    case Err(e) => Err(e)
    case Ok((id, afterId)) =>
      match codec.read(afterId)
      case Err(e) => Err(e)
      case Ok((sig, rest)) => Ok(Decoded(Msg(id, Some(sig)), rest))
  }

  /** Writes the two fields in the same order `DecodePayload` reads them. */
  function EncodePayload(codec: SigCodec, m: Msg): (r: Result<seq<Byte>, WireError>)
    ensures r.Err? <==> codec.write(m.commitSig).Err?
    ensures r.Ok? ==> |r.value| >= ChannelIdLen && r.value[..ChannelIdLen] == WriteUint64(m.channelId)
    ensures r.Ok? ==> codec.write(m.commitSig) == Ok(r.value[ChannelIdLen..])
  {
    match codec.write(m.commitSig)
    case Err(e) => Err(e)
    case Ok(sigBytes) => Ok(WriteUint64(m.channelId) + sigBytes)
  }

  /** The message as the workflow holds it; `Decode` fills its fields in place. */
  class SingleFundingSignComplete {
    var channelId: Uint64
    var commitSig: Option<Sig>

    /** The fields as a value. */
    function Value(): Msg
      reads this
    {
      Msg(channelId, commitSig)
    }

    /** A message carrying exactly the given channel identifier and signature. */
    constructor (chanId: Uint64, sig: Option<Sig>)
      ensures channelId == chanId && commitSig == sig
    {
      channelId := chanId;
      commitSig := sig;
    }

    /** Reads `ChannelID` and then the commitment signature from `r` into this
        message. Each field is assigned as soon as its element has been read,
        so a signature that fails to read leaves the new `ChannelID` behind.
        The protocol version is accepted and not consulted. */
    method Decode(codec: SigCodec, r: Reader, pver: Uint32) returns (err: Option<WireError>)
      modifies this, r
      ensures match DecodePayload(codec, old(r.unread))
        case Ok(d) => err.None? && Value() == d.msg && r.unread == d.rest
        case Err(e) => err == Some(e)
      ensures err.Some? ==> commitSig == old(commitSig)
      ensures err.Some? ==>
        channelId == match ReadUint64(old(r.unread))
                     case Ok((id, _)) => id
                     case Err(_) => old(channelId)
      ensures err.None? ==> Validate().None?
    {
      var idRead := ReadUint64(r.unread);
      if idRead.Err? {
        r.unread := [];
        return Some(idRead.error);
      }
      channelId := idRead.value.0;
      r.unread := idRead.value.1;
      var sigRead := codec.read(r.unread);
      if sigRead.Err? {
        return Some(sigRead.error);
      }
      commitSig := Some(sigRead.value.0);
      r.unread := sigRead.value.1;
      return None;
    }

    /** Writes `ChannelID` and then the commitment signature to `w`. When the
        signature cannot be written, the `ChannelID` bytes already written stay
        in `w`. The protocol version is accepted and not consulted. */
    method Encode(codec: SigCodec, w: Writer, pver: Uint32) returns (err: Option<WireError>)
      modifies w
      ensures match EncodePayload(codec, Value())
        case Ok(b) => err.None? && w.written == old(w.written) + b
        case Err(e) => err == Some(e) && w.written == old(w.written) + WriteUint64(channelId)
    {
      w.written := w.written + WriteUint64(channelId);
      var sigWrite := codec.write(commitSig);
      if sigWrite.Err? {
        return Some(sigWrite.error);
      }
      w.written := w.written + sigWrite.value;
      return None;
    }

    /** The message's command code, the same for every message of this type. */
    function Command(): (c: Uint32)
      ensures c == CmdSingleFundingSignComplete
    {
      CmdSingleFundingSignComplete
    }

    /** The largest payload this message may have: the widths of its two
        fields added up, whatever the protocol version. */
    function MaxPayloadLength(pver: Uint32): (n: Uint32)
      ensures n == ChannelIdLen + MaxSigLen
    {
      81
    }

    /** Fails exactly when the commitment signature is absent; `ChannelID` is
        not examined. */
    function Validate(): (r: Option<ValidationError>)
      reads this
      ensures r.Some? <==> commitSig.None?
    {
      if commitSig.None? then Some(NilCommitSignature) else None
    }
  }

  /** Decoding what was encoded restores the message, and the bytes after the
      payload are left unread. */
  lemma RoundTrip(codec: SigCodec, m: Msg, rest: seq<Byte>)
    requires codec.Lawful()
    requires m.commitSig.Some?
    requires EncodePayload(codec, m).Ok?
    ensures DecodePayload(codec, EncodePayload(codec, m).value + rest) == Ok(Decoded(m, rest))
  {
    var sigBytes := codec.write(m.commitSig).value;
    assert EncodePayload(codec, m).value + rest == WriteUint64(m.channelId) + (sigBytes + rest);
    Uint64RoundTrip(m.channelId, sigBytes + rest);
    assert codec.read(sigBytes + rest) == Ok((m.commitSig.value, rest));
  }

  /** An encoded payload is never longer than `MaxPayloadLength`. */
  lemma EncodedWithinMaxPayload(codec: SigCodec, c: SingleFundingSignComplete, pver: Uint32)
    requires codec.Lawful()
    ensures EncodePayload(codec, c.Value()).Ok? ==>
      ChannelIdLen <= |EncodePayload(codec, c.Value()).value| <= c.MaxPayloadLength(pver)
  {
  }

  /** Decoding never reads past the `MaxPayloadLength` bytes at the front of
      the stream: what it leaves unread is a suffix of its input, and it
      consumed at least the eight bytes of `ChannelID`. */
  lemma DecodeWithinMaxPayload(codec: SigCodec, c: SingleFundingSignComplete, b: seq<Byte>, pver: Uint32)
    requires codec.Lawful()
    ensures DecodePayload(codec, b).Ok? ==>
      IsSuffixWithin(DecodePayload(codec, b).value.rest, b, c.MaxPayloadLength(pver)) &&
      |b| - |DecodePayload(codec, b).value.rest| >= ChannelIdLen
  {
  }

  /** Every proper prefix of an encoded payload fails to decode: a stream cut
      anywhere before the end of the signature is an error, never a message. */
  lemma TruncatedPayloadFails(codec: SigCodec, m: Msg, k: nat)
    requires codec.Lawful()
    requires m.commitSig.Some?
    requires EncodePayload(codec, m).Ok?
    requires k < |EncodePayload(codec, m).value|
    ensures DecodePayload(codec, EncodePayload(codec, m).value[..k]).Err?
  {
    var e := EncodePayload(codec, m).value;
    var sigBytes := codec.write(m.commitSig).value;
    if k >= ChannelIdLen {
      var cut := e[..k];
      assert cut[ChannelIdLen..] == sigBytes[..k - ChannelIdLen];
      assert codec.read(sigBytes[..k - ChannelIdLen]).Err?;
    }
  }

  /** Every successfully decoded message passes `Validate`: an absent
      signature is caught by validation, never produced by decoding. */
  lemma DecodedMessagePassesValidate(codec: SigCodec, c: SingleFundingSignComplete, b: seq<Byte>)
    requires DecodePayload(codec, b).Ok?
    requires c.Value() == DecodePayload(codec, b).value.msg
    ensures c.Validate().None?
  {
  }

  /** `Command` does not depend on the message's contents. */
  lemma CommandIgnoresContents(c: SingleFundingSignComplete, d: SingleFundingSignComplete)
    ensures c.Command() == d.Command()
  {
  }
}
