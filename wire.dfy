/** The wire elements a `SingleFundingSignComplete` payload is made of, as far as
    its Decode and Encode depend on them: a fixed-width unsigned 64-bit integer in
    network byte order, and a commitment signature whose element reader and writer
    live outside the message file and are therefore a parameter (`SigCodec`) here,
    constrained only by the laws the message codec relies on. */
module Wire {

  type Byte = b: int | 0 <= b < 0x100
  type Uint32 = n: int | 0 <= n < 0x1_0000_0000
  type Uint64 = n: int | 0 <= n < 0x1_0000_0000_0000_0000

  /** The signature as the signature library hands it to the wire layer: an
      opaque byte string; its internal structure is not interpreted here. */
  type Sig = seq<Byte>

  /** Width of the `ChannelID` field on the wire. */
  const ChannelIdLen: nat := 8
  /** Largest number of bytes the commitment signature may occupy on the wire. */
  const MaxSigLen: nat := 73

  datatype Option<+T> = None | Some(value: T)
  datatype Result<+T, +E> = Ok(value: T) | Err(error: E)

  /** Why reading or writing a wire element failed. */
  datatype WireError =
    | ShortRead     // the stream ended before the element was complete
    | BadSignature  // the signature element could not be parsed or serialised

  /** 256 to the power `k`: the number of values `k` bytes can hold. */
  function Pow256(k: nat): (p: nat)
    ensures p >= 1
  {
    if k == 0 then 1 else 256 * Pow256(k - 1)
  }

  /** The `k` least significant bytes of `n`, most significant first. */
  function ToBigEndian(n: nat, k: nat): (b: seq<Byte>)
    ensures |b| == k
  {
    if k == 0 then [] else ToBigEndian(n / 256, k - 1) + [n % 256]
  }

  /** The unsigned number the bytes `b` denote, most significant byte first. */
  function FromBigEndian(b: seq<Byte>): (n: nat)
    ensures n < Pow256(|b|)
  {
    if b == [] then 0
    else
      var high := FromBigEndian(b[..|b| - 1]);
      assert high * 256 <= (Pow256(|b| - 1) - 1) * 256;
      high * 256 + b[|b| - 1]
  }

  /** Decoding `k` big-endian bytes gives back any number that fits in them. */
  lemma {:induction false} FromToBigEndian(n: nat, k: nat)
    requires n < Pow256(k)
    ensures FromBigEndian(ToBigEndian(n, k)) == n
  {
    if k > 0 {
      var b := ToBigEndian(n, k);
      assert b[..k - 1] == ToBigEndian(n / 256, k - 1);
      assert n / 256 < Pow256(k - 1);
      FromToBigEndian(n / 256, k - 1);
    }
  }

  /** Every byte string is the big-endian form of the number it denotes:
      the encoding is canonical, so no two byte strings decode alike. */
  lemma {:induction false} ToFromBigEndian(b: seq<Byte>)
    ensures ToBigEndian(FromBigEndian(b), |b|) == b
  {
    if b != [] {
      var k := |b|;
      var high := FromBigEndian(b[..k - 1]);
      SplitLowByte(high, b[k - 1]);
      ToFromBigEndian(b[..k - 1]);
      assert b == b[..k - 1] + [b[k - 1]];
    }
  }

  /** Dividing by 256 separates a number from its least significant byte. */
  lemma SplitLowByte(high: nat, low: Byte)
    ensures (high * 256 + low) / 256 == high && (high * 256 + low) % 256 == low
  {
  }

  lemma Pow256Of8()
    ensures Pow256(ChannelIdLen) == 0x1_0000_0000_0000_0000
  {
  }

  /** Reads a `uint64` in network byte order from the front of `b` and
      returns it with the bytes still unread. */
  function ReadUint64(b: seq<Byte>): (r: Result<(Uint64, seq<Byte>), WireError>)
    ensures r.Err? <==> |b| < ChannelIdLen
    ensures r.Err? ==> r.error == ShortRead
    ensures r.Ok? ==> ToBigEndian(r.value.0, ChannelIdLen) + r.value.1 == b
  {
    if |b| < ChannelIdLen then Err(ShortRead)
    else
      var n := FromBigEndian(b[..ChannelIdLen]);
      Pow256Of8();
      ToFromBigEndian(b[..ChannelIdLen]);
      assert b == b[..ChannelIdLen] + b[ChannelIdLen..];
      Ok((n, b[ChannelIdLen..]))
  }

  /** Writes a `uint64` as exactly eight bytes in network byte order. */
  function WriteUint64(n: Uint64): (b: seq<Byte>)
    ensures |b| == ChannelIdLen
  {
    ToBigEndian(n, ChannelIdLen)
  }

  /** Whatever follows the eight bytes written for `n` is left unread, and
      reading them back gives `n`. */
  lemma Uint64RoundTrip(n: Uint64, rest: seq<Byte>)
    ensures ReadUint64(WriteUint64(n) + rest) == Ok((n, rest))
  {
    var b := WriteUint64(n) + rest;
    assert b[..ChannelIdLen] == WriteUint64(n);
    assert b[ChannelIdLen..] == rest;
    Pow256Of8();
    FromToBigEndian(n, ChannelIdLen);
  }

  /** `rest` is what remains of `b` after at most `bound` bytes were taken
      from its front. */
  ghost predicate IsSuffixWithin(rest: seq<Byte>, b: seq<Byte>, bound: nat)
  {
    |rest| <= |b| && |b| - |rest| <= bound && b[|b| - |rest|..] == rest
  }

  /** The reader and writer of the commitment-signature element. The writer
      receives the field as the message holds it, present or absent; the
      reader returns a present signature and the bytes it left unread. */
  datatype SigCodec = SigCodec(
    write: Option<Sig> -> Result<seq<Byte>, WireError>,
    read: seq<Byte> -> Result<(Sig, seq<Byte>), WireError>)
  {
    /** A written signature never takes more than 73 bytes. */
    ghost predicate WritesWithinBound()
    {
      forall s :: write(s).Ok? ==> |write(s).value| <= MaxSigLen
    }

    /** A written signature reads back as itself, whatever follows it. */
    ghost predicate ReadsBackWhatItWrote()
    {
      forall s, rest :: write(Some(s)).Ok? ==> read(write(Some(s)).value + rest) == Ok((s, rest))
    }

    /** A stream that ends inside a written signature is a failed read. */
    ghost predicate RejectsTruncation()
    {
      forall s, k :: write(Some(s)).Ok? && 0 <= k < |write(Some(s)).value| ==>
        read(write(Some(s)).value[..k]).Err?
    }

    /** A successful read consumes at most 73 bytes from the front of the stream. */
    ghost predicate ConsumesWithinBound()
    {
      forall b :: read(b).Ok? ==> IsSuffixWithin(read(b).value.1, b, MaxSigLen)
    }

    ghost predicate Lawful()
    {
      WritesWithinBound() && ReadsBackWhatItWrote() && RejectsTruncation() && ConsumesWithinBound()
    }
  }

  /** A byte stream being consumed from the front. */
  class Reader {
    var unread: seq<Byte>

    constructor (data: seq<Byte>)
      ensures unread == data
    {
      unread := data;
    }
  }

  /** A byte sink that keeps everything written to it. */
  class Writer {
    var written: seq<Byte>

    constructor ()
      ensures written == []
    {
      written := [];
    }
  }
}
