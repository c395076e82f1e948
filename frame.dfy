/**
 * The general packet frame: a 32-bit length that counts every byte after
 * itself, the 32-bit packet code, the query id when the connection is
 * persistent and the code carries one, then the packet data.
 */
module Framing {
  import opened Results
  import opened Wire
  import opened PacketCodes

  datatype Frame = Frame(code: u32, queryId: Option<u32>, data: seq<byte>)

  /** The value of the length field: code, optional query id and data. */
  function FrameLength(f: Frame): nat {
    4 + (if f.queryId.Some? then 4 else 0) + |f.data|
  }

  /**
   * A frame that can be sent on a connection of the given kind: its code is
   * known, it has a query id exactly when the connection is persistent and the
   * code carries one, and its length fits the 32-bit length field.
   */
  predicate WellFormed(f: Frame, persistent: bool) {
    IsKnownCode(f.code) &&
    (f.queryId.Some? <==> persistent && CarriesQueryId(f.code)) &&
    FrameLength(f) < U32Limit
  }

  function QueryIdBytes(order: ByteOrder, id: Option<u32>): (r: seq<byte>)
    ensures |r| == if id.Some? then 4 else 0
  {
    match id
    case None => []
    case Some(q) => U32(order, q)
  }

  function EncodeFrame(order: ByteOrder, f: Frame): (r: seq<byte>)
    requires FrameLength(f) < U32Limit
    ensures |r| == 4 + FrameLength(f)
  {
    U32(order, FrameLength(f)) + (U32(order, f.code) + (QueryIdBytes(order, f.queryId) + f.data))
  }

  /**
   * The part of the frame after the code: the query id, when the connection
   * is persistent and the code carries one, then the data.
   */
  function DecodeFrameBody(order: ByteOrder, code: u32, payload: seq<byte>, persistent: bool): (r: Outcome<Frame>)
    ensures r.Ok? ==> r.value.code == code && (r.value.queryId.Some? <==> persistent && CarriesQueryId(code))
    ensures r.Ok? ==> QueryIdBytes(order, r.value.queryId) + r.value.data == payload
    ensures r.Fail? <==> persistent && CarriesQueryId(code) && |payload| < 4
    ensures r.Fail? ==> r.error == LengthMismatch
  {
    if !(persistent && CarriesQueryId(code)) then
      assert QueryIdBytes(order, None) + payload == payload;
      Ok(Frame(code, None, payload))
    else if |payload| < 4 then Fail(LengthMismatch)
    else
      var id := ReadU32(order, payload).value;
      U32OfReadU32(order, payload);
      Ok(Frame(code, Some(id.value), id.rest))
  }

  lemma DecodeFrameBodyOf(order: ByteOrder, f: Frame, persistent: bool)
    requires f.queryId.Some? <==> persistent && CarriesQueryId(f.code)
    ensures DecodeFrameBody(order, f.code, QueryIdBytes(order, f.queryId) + f.data, persistent) == Ok(f)
  {
    if f.queryId.Some? {
      ReadU32OfU32(order, f.queryId.value, f.data);
    } else {
      assert QueryIdBytes(order, f.queryId) + f.data == f.data;
    }
  }

  /** The bytes of a frame: the length, the code, the payload the length covers, and what follows. */
  lemma SplitFrame(order: ByteOrder, s: seq<byte>)
    requires |s| >= 8 && 4 <= ReadU32(order, s).value.value <= |s| - 4
    ensures var len := ReadU32(order, s).value;
            var code := ReadU32(order, len.rest).value;
            s == U32(order, len.value) + (U32(order, code.value) + len.rest[4..len.value]) + len.rest[len.value..]
  {
    var len := ReadU32(order, s).value;
    var code := ReadU32(order, len.rest).value;
    U32OfReadU32(order, s);
    U32OfReadU32(order, len.rest);
    assert len.rest == U32(order, code.value) + len.rest[4..len.value] + len.rest[len.value..];
  }

  /**
   * Decodes one frame from the front of a stream and returns the bytes after
   * it. A decoded frame is well formed, and encoding it gives back exactly the
   * bytes it was decoded from.
   */
  function DecodeFrame(order: ByteOrder, s: seq<byte>, persistent: bool): (r: Outcome<Read<Frame>>)
    ensures r.Ok? ==> WellFormed(r.value.value, persistent)
    ensures r.Ok? ==> EncodeFrame(order, r.value.value) + r.value.rest == s
  {
    if |s| < 8 then Fail(BufferTooShort)
    else
      var len := ReadU32(order, s).value;
      var code := ReadU32(order, len.rest).value;
      if !IsKnownCode(code.value) then Fail(UnknownCode)
      else if len.value < 4 || |len.rest| < len.value then Fail(LengthMismatch)
      else
        var payload := len.rest[4..len.value];
        var f :- DecodeFrameBody(order, code.value, payload, persistent);
        SplitFrame(order, s);
        ConcatAssoc(U32(order, f.code), QueryIdBytes(order, f.queryId), f.data);
        Ok(Read(f, len.rest[len.value..]))
  }

  /** How DecodeFrame puts together a frame from its length, its code and its body. */
  lemma DecodeFrameSteps(order: ByteOrder, s: seq<byte>, persistent: bool, n: u32, afterLen: seq<byte>, f: Frame)
    requires ReadU32(order, s) == Ok(Read(n, afterLen))
    requires ReadU32(order, afterLen).Ok? && ReadU32(order, afterLen).value.value == f.code
    requires IsKnownCode(f.code) && 4 <= n <= |afterLen|
    requires DecodeFrameBody(order, f.code, afterLen[4..n], persistent) == Ok(f)
    ensures DecodeFrame(order, s, persistent) == Ok(Read(f, afterLen[n..]))
  {
  }

  lemma PayloadSlices(code: seq<byte>, payload: seq<byte>, rest: seq<byte>)
    requires |code| == 4
    ensures (code + payload + rest)[4..4 + |payload|] == payload
    ensures (code + payload + rest)[4 + |payload|..] == rest
  {
  }

  /** The length and the code of an encoded frame read back, and the length delimits the payload. */
  lemma FrameHeaderOf(order: ByteOrder, f: Frame, rest: seq<byte>)
    requires FrameLength(f) < U32Limit
    ensures var payload := QueryIdBytes(order, f.queryId) + f.data;
            var afterLen := U32(order, f.code) + payload + rest;
            ReadU32(order, EncodeFrame(order, f) + rest) == Ok(Read(FrameLength(f) as u32, afterLen)) &&
            ReadU32(order, afterLen) == Ok(Read(f.code, payload + rest)) &&
            afterLen[4..FrameLength(f)] == payload && afterLen[FrameLength(f)..] == rest
  {
    var payload := QueryIdBytes(order, f.queryId) + f.data;
    var afterLen := U32(order, f.code) + payload + rest;
    assert EncodeFrame(order, f) + rest == U32(order, FrameLength(f)) + afterLen;
    ReadU32OfU32(order, FrameLength(f), afterLen);
    assert afterLen == U32(order, f.code) + (payload + rest);
    ReadU32OfU32(order, f.code, payload + rest);
    PayloadSlices(U32(order, f.code), payload, rest);
  }

  /** Round trip: a well-formed frame decodes to itself and leaves the stream after it untouched. */
  lemma DecodeEncodedFrame(order: ByteOrder, f: Frame, persistent: bool, rest: seq<byte>)
    requires WellFormed(f, persistent)
    ensures DecodeFrame(order, EncodeFrame(order, f) + rest, persistent) == Ok(Read(f, rest))
  {
    FrameHeaderOf(order, f, rest);
    DecodeFrameBodyOf(order, f, persistent);
    DecodeFrameSteps(order, EncodeFrame(order, f) + rest, persistent, FrameLength(f),
                     U32(order, f.code) + (QueryIdBytes(order, f.queryId) + f.data) + rest, f);
  }

  /** The length field counts every byte of the frame after itself. */
  lemma LengthFieldExcludesItself(order: ByteOrder, f: Frame)
    requires FrameLength(f) < U32Limit
    ensures ReadU32(order, EncodeFrame(order, f)).value.value == |EncodeFrame(order, f)| - 4
  {
    var tail := U32(order, f.code) + (QueryIdBytes(order, f.queryId) + f.data);
    ReadU32OfU32(order, FrameLength(f), tail);
  }

  /** A frame cut short anywhere never decodes: it is too short for a header or shorter than declared. */
  lemma {:induction false} TruncatedFrameRejected(order: ByteOrder, f: Frame, persistent: bool, k: nat)
    requires WellFormed(f, persistent)
    requires 1 <= k <= |EncodeFrame(order, f)|
    ensures var r := DecodeFrame(order, EncodeFrame(order, f)[..|EncodeFrame(order, f)| - k], persistent);
            r.Fail? && r.error in {BufferTooShort, LengthMismatch}
  {
    var e := EncodeFrame(order, f);
    var t := e[..|e| - k];
    if |t| >= 8 {
      var tail := U32(order, f.code) + (QueryIdBytes(order, f.queryId) + f.data);
      assert e == U32(order, FrameLength(f)) + tail;
      assert t == U32(order, FrameLength(f)) + tail[..|tail| - k];
      ReadU32OfU32(order, FrameLength(f), tail[..|tail| - k]);
      assert tail[..|tail| - k] == U32(order, f.code) + tail[4..|tail| - k];
      ReadU32OfU32(order, f.code, tail[4..|tail| - k]);
    }
  }

  /** A frame whose code is outside the enumeration is rejected, whatever follows the code. */
  lemma UnknownCodeRejected(order: ByteOrder, length: u32, code: u32, persistent: bool, tail: seq<byte>)
    requires !IsKnownCode(code)
    ensures DecodeFrame(order, U32(order, length) + U32(order, code) + tail, persistent) == Fail(UnknownCode)
  {
    var afterLen := U32(order, code) + tail;
    assert U32(order, length) + U32(order, code) + tail == U32(order, length) + afterLen;
    ReadU32OfU32(order, length, afterLen);
    ReadU32OfU32(order, code, tail);
  }
}
