/** The binary frame codec of the TCP server: `readTCPRequest` and `writeTCPResponse`.
    Wire layout, all big-endian: packet length (4), header length (2), version (2),
    operation (4), sequence id (4), then `packet length - 16` body bytes. */
module Codec {
  import opened Wrappers
  import opened BigEndian
  import opened Proto

  /** Why decoding stopped. `ShortRead` is any read that ran out of input. */
  datatype CodecError = ErrProtoPackLen | ErrProtoHeaderLen | ShortRead

  /** The fixed 16-byte header, after its two length checks passed. */
  datatype Header = Header(packLen: int32, ver: int16, op: int32, seqId: int32)

  /** The header read of `readTCPRequest`, in the order of its checks: the packet length is read
      and bounded above before the header length is read, and the header length must be exact. */
  function ReadHeader(s: seq<byte>): (r: Result<Header, CodecError>)
    ensures r.Ok? ==> |s| >= RawHeaderLen as int
  {
    if |s| < PackLenSize then Err(ShortRead)
    else
      var packLen := Int32(s[..4]);
      if packLen > MaxPackLen then Err(ErrProtoPackLen)
      else if |s| < 6 then Err(ShortRead)
      else if Int16(s[4..6]) != RawHeaderLen then Err(ErrProtoHeaderLen)
      // version, operation and sequence id are three further reads; any of them running short
      // is the same error, so they are checked together
      else if |s| < 16 then Err(ShortRead)
      else Ok(Header(packLen, Int16(s[6..8]), Int32(s[8..12]), Int32(s[12..16])))
  }

  /** The body read: `n` bytes after the header when `n` is positive, otherwise a nil body. */
  function ReadBody(s: seq<byte>, h: Header, n: int): (r: Result<(Frame, seq<byte>), CodecError>)
    requires |s| >= RawHeaderLen as int
    ensures r.Ok? ==> |r.value.1| <= |s| - 16 && r.value.1 == s[|s| - |r.value.1|..]
  {
    if n > 0 then
      if |s| - 16 < n then Err(ShortRead)
      else Ok((Frame(h.ver, h.op, h.seqId, Some(s[16..16 + n])), s[16 + n..]))
    else Ok((Frame(h.ver, h.op, h.seqId, None), s[16..]))
  }

  /** The body length the decoder uses: packet length minus header length, with no wrap-around.
      The source computes this in 32-bit arithmetic; see `BodyLenAsWritten`. */
  function BodyLen(packLen: int32): int
  {
    packLen as int - RawHeaderLen as int
  }

  /** Decodes one frame from the front of `s`, returning it with the unread input.
      A successful decode always consumes at least the 16 header bytes, and the body it yields
      never exceeds 1008 bytes and is never an empty non-nil slice. */
  function Decode(s: seq<byte>): (r: Result<(Frame, seq<byte>), CodecError>)
    ensures r.Ok? ==> |r.value.1| <= |s| - 16 && r.value.1 == s[|s| - |r.value.1|..]
    ensures r.Ok? ==> |BodyBytes(r.value.0)| <= MaxBodyLen
    ensures r.Ok? && r.value.0.body.Some? ==> |r.value.0.body.value| > 0
  {
    match ReadHeader(s)
    case Err(e) => Err(e)
    case Ok(h) => ReadBody(s, h, BodyLen(h.packLen))
  }

  /** `writeTCPResponse`: the length field is `int32(16) + int32(len(body))` with Go's wrap-around;
      the body is written only when it is not nil. The flush is part of the abstract write outcome. */
  function Encode(f: Frame): (s: seq<byte>)
    ensures |s| == RawHeaderLen as int + |BodyBytes(f)|
  {
    PutInt32(Wrap32(RawHeaderLen as int + |BodyBytes(f)|))
    + PutInt16(RawHeaderLen)
    + PutInt16(f.ver)
    + PutInt32(f.op)
    + PutInt32(f.seqId)
    + (if f.body.Some? then f.body.value else [])
  }

  /** The byte stream of frames written back to back. */
  function EncodeAll(fs: seq<Frame>): (s: seq<byte>)
  {
    if |fs| == 0 then [] else Encode(fs[0]) + EncodeAll(fs[1..])
  }

  // ---------------------------------------------------------------- decoder properties

  /** A declared packet length above 1024 is refused after reading only the 4 length bytes:
      whatever follows them is never looked at. */
  lemma DecodeRejectsPackLen(lenBytes: seq<byte>, tail: seq<byte>)
    requires |lenBytes| == PackLenSize && Int32(lenBytes) > MaxPackLen
    ensures Decode(lenBytes + tail) == Err(ErrProtoPackLen)
  {
    assert (lenBytes + tail)[..4] == lenBytes;
  }

  /** For any accepted packet length, a header length other than 16 is refused before the
      version, operation, sequence id or body are read. */
  lemma DecodeRejectsHeaderLen(lenBytes: seq<byte>, hdrBytes: seq<byte>, tail: seq<byte>)
    requires |lenBytes| == PackLenSize && Int32(lenBytes) <= MaxPackLen
    requires |hdrBytes| == HeaderLenSize && Int16(hdrBytes) != RawHeaderLen
    ensures Decode(lenBytes + hdrBytes + tail) == Err(ErrProtoHeaderLen)
  {
    var s := lenBytes + hdrBytes + tail;
    assert s[..4] == lenBytes && s[4..6] == hdrBytes;
  }

  /** Exactly when decoding succeeds: both length checks pass and the input holds the header
      and, when the packet length exceeds 16, the whole body. */
  predicate Decodable(s: seq<byte>)
  {
    && |s| >= 16
    && Int32(s[..4]) <= MaxPackLen
    && Int16(s[4..6]) == RawHeaderLen
    && |s| >= 16 + Int32(s[..4]) as int - 16
  }

  /** Which error a failed decode reports, in terms of the input bytes. */
  lemma DecodeErrors(s: seq<byte>)
    ensures Decode(s).Ok? <==> Decodable(s)
    ensures Decode(s) == Err(ErrProtoPackLen) <==> |s| >= 4 && Int32(s[..4]) > MaxPackLen
    ensures Decode(s) == Err(ErrProtoHeaderLen) <==>
              |s| >= 6 && Int32(s[..4]) <= MaxPackLen && Int16(s[4..6]) != RawHeaderLen
  {
  }

  /** The fields of a decoded frame are the big-endian values at offsets 6, 8 and 12; its body is
      the `packLen - 16` bytes after the header when that is positive and nil otherwise, which
      covers every packet length up to 16, negative ones included. */
  lemma DecodeFields(s: seq<byte>)
    requires Decode(s).Ok?
    ensures var (f, rest) := Decode(s).value;
      var n := Int32(s[..4]) as int - 16;
      && f.ver == Int16(s[6..8]) && f.op == Int32(s[8..12]) && f.seqId == Int32(s[12..16])
      && (n > 0 ==> f.body == Some(s[16..16 + n]) && rest == s[16 + n..])
      && (n <= 0 ==> f.body.None? && rest == s[16..])
  {
  }

  // ---------------------------------------------------------------- encoder properties

  /** The bytes of an encoded frame, field by field. */
  lemma EncodeLayout(f: Frame)
    ensures var s := Encode(f);
      && Int32(s[..4]) == Wrap32(16 + |BodyBytes(f)|)
      && Int16(s[4..6]) == RawHeaderLen
      && Int16(s[6..8]) == f.ver
      && Int32(s[8..12]) == f.op
      && Int32(s[12..16]) == f.seqId
      && s[16..] == BodyBytes(f)
  {
    var s := Encode(f);
    var a, b, c, d, e := PutInt32(Wrap32(16 + |BodyBytes(f)|)), PutInt16(RawHeaderLen),
      PutInt16(f.ver), PutInt32(f.op), PutInt32(f.seqId);
    assert s == a + b + c + d + e + BodyBytes(f);
    assert s[..4] == a;
    assert s[4..6] == b;
    assert s[6..8] == c;
    assert s[8..12] == d;
    assert s[12..16] == e;
    Int32RoundTrip(Wrap32(16 + |BodyBytes(f)|));
    Int16RoundTrip(RawHeaderLen);
    Int16RoundTrip(f.ver);
    Int32RoundTrip(f.op);
    Int32RoundTrip(f.seqId);
  }

  /** Prefix facts of `Encode(f) + rest` that the round-trip lemmas share. */
  lemma EncodeThenRest(f: Frame, rest: seq<byte>)
    ensures var s := Encode(f) + rest;
      && |s| == 16 + |BodyBytes(f)| + |rest|
      && Int32(s[..4]) == Wrap32(16 + |BodyBytes(f)|)
      && Int16(s[4..6]) == RawHeaderLen
      && Int16(s[6..8]) == f.ver
      && Int32(s[8..12]) == f.op
      && Int32(s[12..16]) == f.seqId
      && s[16..16 + |BodyBytes(f)|] == BodyBytes(f)
      && s[16 + |BodyBytes(f)|..] == rest
  {
    var e := Encode(f);
    var s := e + rest;
    EncodeLayout(f);
    assert s[..4] == e[..4] && s[4..6] == e[4..6] && s[6..8] == e[6..8];
    assert s[8..12] == e[8..12] && s[12..16] == e[12..16];
    assert s[16..16 + |BodyBytes(f)|] == e[16..];
  }

  /** Round trip: a frame whose body fits in one packet decodes back from its encoding, with
      anything written after it left unread. An empty body, nil or not, comes back nil. */
  lemma RoundTrip(f: Frame, rest: seq<byte>)
    requires |BodyBytes(f)| <= MaxBodyLen
    ensures Decode(Encode(f) + rest) == Ok((Normalize(f), rest))
  {
    EncodeThenRest(f, rest);
  }

  /** A frame whose body is too large for one packet encodes to bytes the decoder refuses, as long
      as the 32-bit length field has not wrapped to a negative number. */
  lemma EncodeOversizeRejected(f: Frame, rest: seq<byte>)
    requires MaxBodyLen < |BodyBytes(f)| < 0x8000_0000 - 16
    ensures Decode(Encode(f) + rest) == Err(ErrProtoPackLen)
  {
    EncodeThenRest(f, rest);
  }

  /** The length field wraps: a body of `2^32 - 16` bytes is announced as a packet of length 0,
      which the decoder accepts as a bodyless frame, leaving the whole body unread. */
  lemma EncodeLengthWraps(f: Frame)
    requires |BodyBytes(f)| == TWO32 - 16
    ensures Decode(Encode(f)) == Ok((f.(body := None), BodyBytes(f)))
  {
    EncodeThenRest(f, []);
    assert Encode(f) + [] == Encode(f);
  }

  // ---------------------------------------------------------------- the body length as written

  /** The body length as `readTCPRequest` computes it: `packLen - int32(headerLen)` in 32-bit
      arithmetic, which wraps for the most negative packet lengths. */
  function BodyLenAsWritten(packLen: int32): int32
  {
    Wrap32(packLen as int - RawHeaderLen as int)
  }

  /** `readTCPRequest` exactly as written, with the wrapping body length. */
  function DecodeAsWritten(s: seq<byte>): (r: Result<(Frame, seq<byte>), CodecError>)
    ensures r.Ok? ==> |r.value.1| <= |s| - 16
  {
    match ReadHeader(s)
    case Err(e) => Err(e)
    case Ok(h) => ReadBody(s, h, BodyLenAsWritten(h.packLen) as int)
  }

  /** The two decoders differ only for packet lengths below `-2^31 + 16`. */
  lemma AsWrittenAgreesElsewhere(s: seq<byte>)
    requires |s| >= 4 && Int32(s[..4]) >= -0x8000_0000 + 16
    ensures DecodeAsWritten(s) == Decode(s)
  {
  }

  /** For those packet lengths the subtraction wraps to a body length of almost 2^31 bytes,
      far past the 1024-byte packet bound the length check is meant to enforce. */
  lemma AsWrittenBodyLenOverflows(packLen: int32)
    requires packLen < -0x8000_0000 + 16
    ensures BodyLenAsWritten(packLen) as int > MaxPackLen as int
    ensures BodyLenAsWritten(packLen) as int == packLen as int - 16 + TWO32
  {
  }

  /** The counterexample: a header announcing packet length `-2^31` (bytes `80 00 00 00`) and
      header length 16. The corrected decoder yields a bodyless frame; the decoder as written
      tries to read a body of `2^31 - 16` bytes and so reports a short read. */
  lemma AsWrittenCounterexample()
    ensures var s: seq<byte> := [0x80, 0, 0, 0, 0, 16, 0, 1, 0, 0, 0, 5, 0, 0, 0, 7];
      && Decode(s) == Ok((Frame(1, 5, 7, None), []))
      && DecodeAsWritten(s) == Err(ShortRead)
  {
    var s: seq<byte> := [0x80, 0, 0, 0, 0, 16, 0, 1, 0, 0, 0, 5, 0, 0, 0, 7];
    FromBE4(s[..4]);
    FromBE2(s[4..6]);
    FromBE2(s[6..8]);
    FromBE4(s[8..12]);
    FromBE4(s[12..16]);
    assert Int32(s[..4]) == -0x8000_0000;
    assert Int16(s[4..6]) == 16;
    var h := Header(-0x8000_0000, 1, 5, 7);
    assert ReadHeader(s) == Ok(h);
    assert BodyLenAsWritten(h.packLen) == 0x8000_0000 - 16;
  }

  /** As written, a long enough input makes the decoder accept a body of `2^31 - 16` bytes. */
  lemma AsWrittenAcceptsHugeBody(s: seq<byte>)
    requires |s| >= 16 && Int32(s[..4]) == -0x8000_0000 && Int16(s[4..6]) == RawHeaderLen
    requires |s| >= 0x8000_0000
    ensures DecodeAsWritten(s).Ok?
    ensures |BodyBytes(DecodeAsWritten(s).value.0)| == 0x8000_0000 - 16
  {
  }
}
