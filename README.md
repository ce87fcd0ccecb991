# SingleFundingSignComplete: wire codec and message contract

This project models the `SingleFundingSignComplete` message of the lnd
Lightning daemon's wire protocol (`lnwire`). In the single-funder channel
workflow the responder (Bob) sends it to the initiator (Alice). It delivers
his signature over her version of the commitment transaction. After she has
processed it, she may broadcast the funding transaction.

The message has two fields: `ChannelID`, an unsigned 64-bit identifier of the
channel being funded, and `CommitSignature`, a signature that may be absent
(a nil pointer in Go, `Option` here). Its five operations make up the
message contract every `lnwire` message implements:

- **Decode** reads `ChannelID` and then the signature from a stream into the
  message's own fields.
- **Encode** writes the same two fields in the same order.
- **Command** returns the message's constant command code.
- **MaxPayloadLength** returns 81 (8 + 73) for every protocol version.
- **Validate** fails exactly when the signature is absent.

Layout:

- `wire.dfy` (module `Wire`): the wire elements the message is built from.
  `ChannelID` is eight bytes in network (big-endian) byte order, with both
  round trips proved. The signature element's reader and writer live outside
  the message file, so they are a parameter, `SigCodec`. `SigCodec.Lawful`
  states the four laws the message codec relies on:
  - a written signature takes at most 73 bytes;
  - it reads back as itself whatever follows it;
  - a stream cut inside it fails to read;
  - a read consumes at most 73 bytes from the front.
  `Reader` and `Writer` stand for `io.Reader` and `io.Writer`: a byte
  sequence consumed from the front, and one appended to.
- `single_funding_signcomplete.dfy` (module `SignCompleteMsg`): the message.
  `DecodePayload` and `EncodePayload` are the payload codec on values. The
  class `SingleFundingSignComplete` holds the fields that `Decode` fills in
  place and carries the five operations. The lemmas state round trip, length
  bound, no over-read, truncation and validation.
- `fixed_width_signature.dfy` (module `FixedWidthSignature`): one concrete
  signature element, a fixed 73-byte block. It is proved lawful, so the
  laws can be met. With it, every payload is exactly 81 bytes. It also gives
  the worked example for channel 42.

Two behaviours of the code are worth stating outright:

- Decode is not atomic. Each field is assigned as soon as its element has
  been read. So after a failed signature read, `ChannelID` already holds the
  new value. `SingleFundingSignComplete.Decode` states exactly this.
- Only the upper bound `MaxPayloadLength` = 8 + 73 is promised for the
  payload's length (lnwire/single_funding_signcomplete.go:77-80). The model
  proves that bound for every lawful signature element. It proves exactly 81
  bytes only for the fixed-width element.

## Model

| member | source | states |
|---|---|---|
| `Wire.ReadUint64` | lnwire/single_funding_signcomplete.go:43-44 | reading `ChannelID` fails, with a short-read error, exactly when fewer than 8 bytes remain; on success the value's 8 big-endian bytes followed by the unread rest are the input |
| `Wire.WriteUint64` | lnwire/single_funding_signcomplete.go:59-60 | `ChannelID` is always written as exactly 8 bytes |
| `Wire.FromToBigEndian` | lnwire/single_funding_signcomplete.go:41 | decoding the k big-endian bytes of any number below 256^k gives that number back |
| `Wire.ToFromBigEndian` | lnwire/single_funding_signcomplete.go:41 | every byte string is the big-endian form of the number it decodes to, so the 8-byte encoding is canonical |
| `Wire.Uint64RoundTrip` | lnwire/single_funding_signcomplete.go:43-44 | reading back the 8 bytes written for a `ChannelID` gives that value and leaves whatever followed unread |
| `SignCompleteMsg.DecodePayload` | lnwire/single_funding_signcomplete.go:40-51 | `ChannelID` is read first and the signature second: input shorter than 8 bytes fails with a short read; otherwise the decode fails exactly when the signature reader fails on the bytes after the first 8, with that reader's error; on success `ChannelID` is the big-endian value of the first 8 bytes, and the signature and the unread rest are what the signature reader returned for the bytes after them, so the signature is always present |
| `SignCompleteMsg.EncodePayload` | lnwire/single_funding_signcomplete.go:58-67 | encoding fails exactly when the signature element cannot be written; on success the payload is the 8 bytes of `ChannelID` followed by the signature element's bytes |
| `SignCompleteMsg.SingleFundingSignComplete.constructor` | lnwire/single_funding_signcomplete.go:26-33 | the new message holds exactly the given channel identifier and signature |
| `SignCompleteMsg.SingleFundingSignComplete.Decode` | lnwire/single_funding_signcomplete.go:40-51 | on success the fields become the decoded message and the stream is left at the end of the payload; on failure the element's error is returned, the signature field is unchanged, and `ChannelID` holds the newly read value if its 8 bytes were available; a successfully decoded message passes `Validate` |
| `SignCompleteMsg.SingleFundingSignComplete.Encode` | lnwire/single_funding_signcomplete.go:58-67 | on success the payload is appended to the writer; on failure the error is returned and the 8 `ChannelID` bytes already written remain in the writer |
| `SignCompleteMsg.SingleFundingSignComplete.Command` | lnwire/single_funding_signcomplete.go:73-75 | the command code is always `CmdSingleFundingSignComplete`, whatever the message holds |
| `SignCompleteMsg.SingleFundingSignComplete.MaxPayloadLength` | lnwire/single_funding_signcomplete.go:77-85 | the bound is the sum of the field maxima, 8 for `ChannelID` plus 73 for the signature, whatever the protocol version |
| `SignCompleteMsg.SingleFundingSignComplete.Validate` | lnwire/single_funding_signcomplete.go:91-98 | validation fails if and only if the commitment signature is absent; `ChannelID` plays no part |
| `SignCompleteMsg.RoundTrip` | lnwire/single_funding_signcomplete.go:43-61 | for a lawful signature element and a message with a present, writable signature, decoding the encoded payload restores the message and leaves trailing bytes unread |
| `SignCompleteMsg.EncodedWithinMaxPayload` | lnwire/single_funding_signcomplete.go:77-85 | a successfully encoded payload is at least 8 and at most `MaxPayloadLength` bytes long |
| `SignCompleteMsg.DecodeWithinMaxPayload` | lnwire/single_funding_signcomplete.go:40-45 | a successful decode consumes at least 8 and at most `MaxPayloadLength` bytes from the front of the stream and leaves the rest unread |
| `SignCompleteMsg.TruncatedPayloadFails` | lnwire/single_funding_signcomplete.go:43-48 | every proper prefix of an encoded payload decodes to an error, never to a message |
| `SignCompleteMsg.DecodedMessagePassesValidate` | lnwire/single_funding_signcomplete.go:91-94 | a message obtained by a successful decode always passes `Validate` |
| `SignCompleteMsg.CommandIgnoresContents` | lnwire/single_funding_signcomplete.go:73-75 | any two messages report the same command, whatever their fields |
| `FixedWidthSignature.FixedWidthSigCodec` | lnwire/single_funding_signcomplete.go:41-42 | the fixed-width element writes exactly the present 73-byte signatures and fails to read from fewer than 73 bytes |
| `FixedWidthSignature.FixedWidthSigCodecLawful` | lnwire/single_funding_signcomplete.go:77-80 | the fixed-width 73-byte signature element satisfies every law the message codec relies on |
| `FixedWidthSignature.FixedWidthPayloadLength` | lnwire/single_funding_signcomplete.go:77-84 | with the fixed-width element a message encodes if and only if its signature is present and 73 bytes long, and then into exactly `MaxPayloadLength` = 81 bytes |
| `FixedWidthSignature.ChannelId42Example` | lnwire/single_funding_signcomplete.go:41-45 | channel 42 encodes as seven zero bytes, the byte 42 and the signature, and that payload decodes back to channel 42 and the same signature |

## Left out

- Stream I/O: `io.Reader` and `io.Writer` are byte sequences (`Wire.Reader`, `Wire.Writer`), so a sink that rejects a write is not modelled and `Encode` can fail only in the signature element.
- SignCompleteMsg.SingleFundingSignComplete.Decode: after a failed read, how much of the stream was consumed is not stated, because that depends on the element readers, which are not part of this model.
- The signature element (`readElements` and `writeElements` for `*btcec.Signature`, and the signature library's serialisation and parsing) is not part of this model. It is the parameter `SigCodec`, constrained only by `SigCodec.Lawful`. What it does with an absent signature on encode is its own business: the laws only bound what it writes for an absent signature to 73 bytes.
- The numeric value of `CmdSingleFundingSignComplete` and the dispatcher that maps command codes to message types are defined outside this file, so the code is a `uint32` constant whose value is left unspecified.
- The protocol version argument is accepted by `Decode`, `Encode` and `MaxPayloadLength` and never consulted, as in the code.
- The text of the `Validate` error is a datatype variant, `NilCommitSignature`.
- Other `lnwire` message types are not part of this model, so the command tag is not shown to differ from theirs.
