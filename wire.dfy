/**
 * Primitive wire encodings of the fs4transport protocol: fixed-width unsigned
 * integers, raw byte runs and 32-bit length-prefixed byte strings.
 *
 * The protocol description never states the byte order of multi-byte fields,
 * so every encoder and decoder takes it as a parameter.
 */
module Wire {
  import opened Results

  type byte = x: int | 0 <= x < 0x100
  type u32 = x: int | 0 <= x < 0x1_0000_0000
  type u64 = x: int | 0 <= x < 0x1_0000_0000_0000_0000

  const U32Limit: nat := 0x1_0000_0000
  const U64Limit: nat := 0x1_0000_0000_0000_0000

  datatype ByteOrder = BigEndian | LittleEndian

  /** Every way a decode can fail. */
  datatype CodecError =
    | BufferTooShort
    | UnknownCode
    | UnsupportedFeatureFlag
    | LengthMismatch
    | TrailingBytes
    | StackCorrupt

  type Outcome<T> = Result<T, CodecError>

  /** A value decoded from the front of a buffer, together with the bytes after it. */
  datatype Read<T> = Read(value: T, rest: seq<byte>)

  function Pow256(n: nat): (r: nat)
    ensures r >= 1
  {
    if n == 0 then 1 else 256 * Pow256(n - 1)
  }

  lemma Pow256Widths()
    ensures Pow256(4) == U32Limit && Pow256(8) == U64Limit
  {
  }

  lemma ConcatAssoc<T>(a: seq<T>, b: seq<T>, c: seq<T>)
    ensures (a + b) + c == a + (b + c)
  {
  }

  /** A non-empty sequence is its first element followed by the others. */
  lemma HeadTail<T>(s: seq<T>)
    requires s != []
    ensures [s[0]] + s[1..] == s
  {
  }

  /** Taking and dropping past the first element. */
  lemma TakeDropTail<T>(s: seq<T>, n: nat)
    requires 1 <= n <= |s|
    ensures [s[0]] + s[1..][..n - 1] == s[..n] && s[1..][n - 1..] == s[n..]
  {
  }

  // ---------------------------------------------------------------------------
  // Unsigned integers as base-256 digits

  function LittleEndianDigits(x: nat, width: nat): (r: seq<byte>)
    requires x < Pow256(width)
    ensures |r| == width
    decreases width
  {
    if width == 0 then [] else [x % 256] + LittleEndianDigits(x / 256, width - 1)
  }

  function BigEndianDigits(x: nat, width: nat): (r: seq<byte>)
    requires x < Pow256(width)
    ensures |r| == width
    decreases width
  {
    if width == 0 then [] else BigEndianDigits(x / 256, width - 1) + [x % 256]
  }

  /** The value of little-endian digits; it always fits the width they occupy. */
  function FromLittleEndian(s: seq<byte>): (r: nat)
    ensures r < Pow256(|s|)
  {
    if s == [] then 0 else s[0] + 256 * FromLittleEndian(s[1..])
  }

  /** The value of big-endian digits; it always fits the width they occupy. */
  function FromBigEndian(s: seq<byte>): (r: nat)
    ensures r < Pow256(|s|)
  {
    if s == [] then 0 else 256 * FromBigEndian(s[..|s| - 1]) + s[|s| - 1]
  }

  function EncodeUInt(order: ByteOrder, x: nat, width: nat): (r: seq<byte>)
    requires x < Pow256(width)
    ensures |r| == width
  {
    match order
    case LittleEndian => LittleEndianDigits(x, width)
    case BigEndian => BigEndianDigits(x, width)
  }

  function DecodeUInt(order: ByteOrder, s: seq<byte>): (r: nat)
    ensures r < Pow256(|s|)
  {
    match order
    case LittleEndian => FromLittleEndian(s)
    case BigEndian => FromBigEndian(s)
  }

  lemma {:induction false} LittleEndianRoundTrip(x: nat, width: nat)
    requires x < Pow256(width)
    ensures FromLittleEndian(LittleEndianDigits(x, width)) == x
    decreases width
  {
    if width > 0 {
      var tail := LittleEndianDigits(x / 256, width - 1);
      LittleEndianRoundTrip(x / 256, width - 1);
      assert ([x % 256] + tail)[1..] == tail;
    }
  }

  lemma {:induction false} BigEndianRoundTrip(x: nat, width: nat)
    requires x < Pow256(width)
    ensures FromBigEndian(BigEndianDigits(x, width)) == x
    decreases width
  {
    if width > 0 {
      var init := BigEndianDigits(x / 256, width - 1);
      BigEndianRoundTrip(x / 256, width - 1);
      var s := init + [x % 256];
      assert s[..|s| - 1] == init;
    }
  }

  /** Decoding the digits of a value that fits the width gives the value back. */
  lemma UIntRoundTrip(order: ByteOrder, x: nat, width: nat)
    requires x < Pow256(width)
    ensures DecodeUInt(order, EncodeUInt(order, x, width)) == x
  {
    match order
    case LittleEndian => LittleEndianRoundTrip(x, width);
    case BigEndian => BigEndianRoundTrip(x, width);
  }

  lemma {:induction false} LittleEndianCanonical(s: seq<byte>)
    ensures LittleEndianDigits(FromLittleEndian(s), |s|) == s
  {
    if s != [] {
      var high := FromLittleEndian(s[1..]);
      LittleEndianCanonical(s[1..]);
      assert (s[0] + 256 * high) % 256 == s[0];
      assert (s[0] + 256 * high) / 256 == high;
      assert [s[0]] + s[1..] == s;
    }
  }

  lemma {:induction false} BigEndianCanonical(s: seq<byte>)
    ensures BigEndianDigits(FromBigEndian(s), |s|) == s
  {
    if s != [] {
      var init := s[..|s| - 1];
      var high := FromBigEndian(init);
      BigEndianCanonical(init);
      assert (256 * high + s[|s| - 1]) % 256 == s[|s| - 1];
      assert (256 * high + s[|s| - 1]) / 256 == high;
      assert init + [s[|s| - 1]] == s;
    }
  }

  /** Every run of digits is the encoding of the value it decodes to. */
  lemma UIntCanonical(order: ByteOrder, s: seq<byte>)
    ensures EncodeUInt(order, DecodeUInt(order, s), |s|) == s
  {
    match order
    case LittleEndian => LittleEndianCanonical(s);
    case BigEndian => BigEndianCanonical(s);
  }

  // ---------------------------------------------------------------------------
  // Fixed-width fields

  function U32(order: ByteOrder, x: u32): (r: seq<byte>)
    ensures |r| == 4
  {
    Pow256Widths();
    EncodeUInt(order, x, 4)
  }

  function U64(order: ByteOrder, x: u64): (r: seq<byte>)
    ensures |r| == 8
  {
    Pow256Widths();
    EncodeUInt(order, x, 8)
  }

  /** Takes exactly `n` bytes off the front of `s`. */
  function ReadBytes(s: seq<byte>, n: nat): (r: Outcome<Read<seq<byte>>>)
    ensures r.Ok? <==> n <= |s|
    ensures r.Ok? ==> r.value.value == s[..n] && r.value.rest == s[n..]
    ensures r.Fail? ==> r.error == BufferTooShort
  {
    if |s| < n then Fail(BufferTooShort) else Ok(Read(s[..n], s[n..]))
  }

  function ReadU32(order: ByteOrder, s: seq<byte>): (r: Outcome<Read<u32>>)
    ensures r.Ok? <==> 4 <= |s|
    ensures r.Ok? ==> r.value.rest == s[4..]
    ensures r.Fail? ==> r.error == BufferTooShort
  {
    if |s| < 4 then Fail(BufferTooShort)
    else
      Pow256Widths();
      var v: u32 := DecodeUInt(order, s[..4]);
      Ok(Read(v, s[4..]))
  }

  function ReadU64(order: ByteOrder, s: seq<byte>): (r: Outcome<Read<u64>>)
    ensures r.Ok? <==> 8 <= |s|
    ensures r.Ok? ==> r.value.rest == s[8..]
    ensures r.Fail? ==> r.error == BufferTooShort
  {
    if |s| < 8 then Fail(BufferTooShort)
    else
      Pow256Widths();
      var v: u64 := DecodeUInt(order, s[..8]);
      Ok(Read(v, s[8..]))
  }

  lemma ReadU32OfU32(order: ByteOrder, x: u32, rest: seq<byte>)
    ensures ReadU32(order, U32(order, x) + rest) == Ok(Read(x, rest))
  {
    var s := U32(order, x) + rest;
    assert s[..4] == U32(order, x);
    assert s[4..] == rest;
    Pow256Widths();
    UIntRoundTrip(order, x, 4);
  }

  /** The bytes a 32-bit field is read from are exactly the encoding of the value read. */
  lemma U32OfReadU32(order: ByteOrder, s: seq<byte>)
    requires 4 <= |s|
    ensures U32(order, ReadU32(order, s).value.value) + s[4..] == s
  {
    UIntCanonical(order, s[..4]);
    assert s[..4] + s[4..] == s;
  }

  lemma U64OfReadU64(order: ByteOrder, s: seq<byte>)
    requires 8 <= |s|
    ensures U64(order, ReadU64(order, s).value.value) + s[8..] == s
  {
    UIntCanonical(order, s[..8]);
    assert s[..8] + s[8..] == s;
  }

  lemma ReadU64OfU64(order: ByteOrder, x: u64, rest: seq<byte>)
    ensures ReadU64(order, U64(order, x) + rest) == Ok(Read(x, rest))
  {
    var s := U64(order, x) + rest;
    assert s[..8] == U64(order, x);
    assert s[8..] == rest;
    Pow256Widths();
    UIntRoundTrip(order, x, 8);
  }

  lemma ReadBytesOf(b: seq<byte>, rest: seq<byte>)
    ensures ReadBytes(b + rest, |b|) == Ok(Read(b, rest))
  {
    assert (b + rest)[..|b|] == b;
    assert (b + rest)[|b|..] == rest;
  }

  // ---------------------------------------------------------------------------
  // Length-prefixed byte strings: a 32-bit length, then that many raw bytes

  predicate FitsU32Length<T>(s: seq<T>) {
    |s| < U32Limit
  }

  function Blob(order: ByteOrder, b: seq<byte>): (r: seq<byte>)
    requires FitsU32Length(b)
    ensures |r| == 4 + |b|
  {
    U32(order, |b|) + b
  }

  function ReadBlob(order: ByteOrder, s: seq<byte>): (r: Outcome<Read<seq<byte>>>)
    ensures r.Ok? ==> FitsU32Length(r.value.value) && Blob(order, r.value.value) + r.value.rest == s
  {
    var len :- ReadU32(order, s);
    U32OfReadU32(order, s);
    var b :- ReadBytes(len.rest, len.value);
    assert len.rest == b.value + b.rest;
    Ok(b)
  }

  lemma ReadBlobOfBlob(order: ByteOrder, b: seq<byte>, rest: seq<byte>)
    requires FitsU32Length(b)
    ensures ReadBlob(order, Blob(order, b) + rest) == Ok(Read(b, rest))
  {
    assert Blob(order, b) + rest == U32(order, |b|) + (b + rest);
    ReadU32OfU32(order, |b|, b + rest);
    ReadBytesOf(b, rest);
  }

  // ---------------------------------------------------------------------------
  // Fields shared by several packets

  /**
   * A rank value (search::HitRank). Its arithmetic plays no part in the wire
   * format, so it is carried as a fixed-width run of bytes; the width is an
   * assumption of this model (the width of a double).
   */
  const HIT_RANK_WIDTH: nat := 8

  type HitRank = b: seq<byte> | |b| == HIT_RANK_WIDTH witness [0, 0, 0, 0, 0, 0, 0, 0]

  function ReadHitRank(s: seq<byte>): (r: Outcome<Read<HitRank>>)
    ensures r.Ok? <==> HIT_RANK_WIDTH <= |s|
    ensures r.Ok? ==> r.value.value + r.value.rest == s
    ensures r.Fail? ==> r.error == BufferTooShort
  {
    if |s| < HIT_RANK_WIDTH then Fail(BufferTooShort)
    else
      var x: HitRank := s[..HIT_RANK_WIDTH];
      Ok(Read(x, s[HIT_RANK_WIDTH..]))
  }

  lemma ReadHitRankOf(x: HitRank, rest: seq<byte>)
    ensures ReadHitRank(x + rest) == Ok(Read(x, rest))
  {
    assert (x + rest)[..HIT_RANK_WIDTH] == x;
    assert (x + rest)[HIT_RANK_WIDTH..] == rest;
  }

  /** Where a hit or document came from in a multi-level dispatch (MLD) setup. */
  datatype Origin = Origin(partid: u32, docstamp: u32)

  /** The partition id and docstamp of an MLD hit or document; nothing otherwise. */
  function OriginBytes(order: ByteOrder, o: Option<Origin>): (r: seq<byte>)
    ensures |r| == if o.Some? then 8 else 0
  {
    match o
    case None => []
    case Some(x) => U32(order, x.partid) + U32(order, x.docstamp)
  }

  function ReadOrigin(order: ByteOrder, present: bool, s: seq<byte>): (r: Outcome<Read<Option<Origin>>>)
    ensures r.Ok? ==> (r.value.value.Some? <==> present)
    ensures r.Ok? ==> OriginBytes(order, r.value.value) + r.value.rest == s
    ensures r.Fail? ==> r.error == BufferTooShort
  {
    if !present then Ok(Read(None, s))
    else
      var partid :- ReadU32(order, s);
      var docstamp :- ReadU32(order, partid.rest);
      U32OfReadU32(order, s);
      U32OfReadU32(order, partid.rest);
      ConcatAssoc(U32(order, partid.value), U32(order, docstamp.value), docstamp.rest);
      Ok(Read(Some(Origin(partid.value, docstamp.value)), docstamp.rest))
  }

  lemma ReadOriginOf(order: ByteOrder, o: Option<Origin>, rest: seq<byte>)
    ensures ReadOrigin(order, o.Some?, OriginBytes(order, o) + rest) == Ok(Read(o, rest))
  {
    if o.Some? {
      var x := o.value;
      ConcatAssoc(U32(order, x.partid), U32(order, x.docstamp), rest);
      ReadU32OfU32(order, x.partid, U32(order, x.docstamp) + rest);
      ReadU32OfU32(order, x.docstamp, rest);
    } else {
      assert OriginBytes(order, o) + rest == rest;
    }
  }

  /** A length-prefixed string that is present only when its feature bit is set. */
  function OptionalBlob(order: ByteOrder, o: Option<seq<byte>>): (r: seq<byte>)
    requires o.Some? ==> FitsU32Length(o.value)
    ensures |r| == if o.Some? then 4 + |o.value| else 0
  {
    match o
    case None => []
    case Some(b) => Blob(order, b)
  }

  function ReadOptionalBlob(order: ByteOrder, present: bool, s: seq<byte>): (r: Outcome<Read<Option<seq<byte>>>>)
    ensures r.Ok? ==> (r.value.value.Some? <==> present)
    ensures r.Ok? ==> (r.value.value.Some? ==> FitsU32Length(r.value.value.value)) &&
                      OptionalBlob(order, r.value.value) + r.value.rest == s
  {
    if !present then Ok(Read(None, s))
    else
      var b :- ReadBlob(order, s);
      Ok(Read(Some(b.value), b.rest))
  }

  lemma ReadOptionalBlobOf(order: ByteOrder, o: Option<seq<byte>>, rest: seq<byte>)
    requires o.Some? ==> FitsU32Length(o.value)
    ensures ReadOptionalBlob(order, o.Some?, OptionalBlob(order, o) + rest) == Ok(Read(o, rest))
  {
    if o.Some? {
      ReadBlobOfBlob(order, o.value, rest);
    } else {
      assert OptionalBlob(order, o) + rest == rest;
    }
  }

  // ---------------------------------------------------------------------------
  // Runs of values of one kind, written one after another

  function EncodeAll<T>(enc: T -> seq<byte>, xs: seq<T>): seq<byte> {
    if xs == [] then [] else enc(xs[0]) + EncodeAll(enc, xs[1..])
  }

  /** Reads exactly `n` values with `read`, each starting where the previous one ended. */
  function ReadAll<T>(read: seq<byte> -> Outcome<Read<T>>, n: nat, s: seq<byte>): (r: Outcome<Read<seq<T>>>)
    ensures r.Ok? ==> |r.value.value| == n
  {
    if n == 0 then Ok(Read([], s))
    else
      var first :- read(s);
      var others :- ReadAll(read, n - 1, first.rest);
      Ok(Read([first.value] + others.value, others.rest))
  }

  /** `read` gives `x` back from its encoding, whatever follows it. */
  ghost predicate ReadsBack<T>(read: seq<byte> -> Outcome<Read<T>>, enc: T -> seq<byte>, x: T) {
    forall rest :: read(enc(x) + rest) == Ok(Read(x, rest))
  }

  /** Whatever `read` accepts is the encoding of what it returns, followed by the rest. */
  ghost predicate Canonical<T>(read: seq<byte> -> Outcome<Read<T>>, enc: T -> seq<byte>) {
    forall s :: read(s).Ok? ==> enc(read(s).value.value) + read(s).value.rest == s
  }

  lemma {:induction false} ReadAllOf<T>(read: seq<byte> -> Outcome<Read<T>>, enc: T -> seq<byte>, xs: seq<T>, rest: seq<byte>)
    requires forall i :: 0 <= i < |xs| ==> ReadsBack(read, enc, xs[i])
    ensures ReadAll(read, |xs|, EncodeAll(enc, xs) + rest) == Ok(Read(xs, rest))
    decreases |xs|
  {
    if xs == [] {
      assert EncodeAll(enc, xs) + rest == rest;
    } else {
      var tail := EncodeAll(enc, xs[1..]) + rest;
      ConcatAssoc(enc(xs[0]), EncodeAll(enc, xs[1..]), rest);
      assert ReadsBack(read, enc, xs[0]);
      assert read(enc(xs[0]) + tail) == Ok(Read(xs[0], tail));
      assert forall i :: 0 <= i < |xs[1..]| ==> xs[1..][i] == xs[i + 1];
      ReadAllOf(read, enc, xs[1..], rest);
      HeadTail(xs);
    }
  }

  lemma {:induction false} ReadAllCanonical<T>(read: seq<byte> -> Outcome<Read<T>>, enc: T -> seq<byte>, n: nat, s: seq<byte>)
    requires Canonical(read, enc)
    ensures ReadAll(read, n, s).Ok? ==> EncodeAll(enc, ReadAll(read, n, s).value.value) + ReadAll(read, n, s).value.rest == s
    decreases n
  {
    if n > 0 && ReadAll(read, n, s).Ok? {
      var first := read(s).value;
      var others := ReadAll(read, n - 1, first.rest).value;
      ReadAllCanonical(read, enc, n - 1, first.rest);
      var xs := [first.value] + others.value;
      assert xs[0] == first.value && xs[1..] == others.value;
      ConcatAssoc(enc(first.value), EncodeAll(enc, others.value), others.rest);
    }
  }

  /**
   * Reading more values than were written reads the written ones and then
   * goes on into the bytes after them; a failure there is the failure of the whole.
   */
  lemma {:induction false} ReadAllAppend<T>(read: seq<byte> -> Outcome<Read<T>>, enc: T -> seq<byte>, xs: seq<T>, n: nat, rest: seq<byte>)
    requires |xs| <= n
    requires forall i :: 0 <= i < |xs| ==> ReadsBack(read, enc, xs[i])
    ensures ReadAll(read, n, EncodeAll(enc, xs) + rest) ==
            match ReadAll(read, n - |xs|, rest)
            case Fail(e) => Fail(e)
            case Ok(after) => Ok(Read(xs + after.value, after.rest))
    decreases |xs|
  {
    if xs == [] {
      assert EncodeAll(enc, xs) + rest == rest;
      match ReadAll(read, n, rest)
      case Fail(_) =>
      case Ok(after) =>
        assert xs + after.value == after.value;
    } else {
      var tail := EncodeAll(enc, xs[1..]) + rest;
      ConcatAssoc(enc(xs[0]), EncodeAll(enc, xs[1..]), rest);
      assert ReadsBack(read, enc, xs[0]);
      assert read(enc(xs[0]) + tail) == Ok(Read(xs[0], tail));
      assert forall i :: 0 <= i < |xs[1..]| ==> xs[1..][i] == xs[i + 1];
      ReadAllAppend(read, enc, xs[1..], n - 1, rest);
      match ReadAll(read, n - |xs|, rest)
      case Fail(_) =>
      case Ok(after) =>
        ConcatAssoc([xs[0]], xs[1..], after.value);
        HeadTail(xs);
    }
  }

  /** Reading fewer values than were written gives the first of them. */
  lemma {:induction false} ReadAllPrefix<T>(read: seq<byte> -> Outcome<Read<T>>, enc: T -> seq<byte>, xs: seq<T>, n: nat, rest: seq<byte>)
    requires n <= |xs|
    requires forall i :: 0 <= i < |xs| ==> ReadsBack(read, enc, xs[i])
    ensures ReadAll(read, n, EncodeAll(enc, xs) + rest) == Ok(Read(xs[..n], EncodeAll(enc, xs[n..]) + rest))
    decreases n
  {
    if n == 0 {
      assert xs[n..] == xs;
    } else {
      var tail := EncodeAll(enc, xs[1..]) + rest;
      ConcatAssoc(enc(xs[0]), EncodeAll(enc, xs[1..]), rest);
      assert ReadsBack(read, enc, xs[0]);
      assert read(enc(xs[0]) + tail) == Ok(Read(xs[0], tail));
      assert forall i :: 0 <= i < |xs[1..]| ==> xs[1..][i] == xs[i + 1];
      ReadAllPrefix(read, enc, xs[1..], n - 1, rest);
      TakeDropTail(xs, n);
    }
  }

  /** A property every value `read` returns holds of every value of the run. */
  lemma {:induction false} ReadAllEach<T>(read: seq<byte> -> Outcome<Read<T>>, p: T -> bool, n: nat, s: seq<byte>)
    requires forall t :: read(t).Ok? ==> p(read(t).value.value)
    ensures ReadAll(read, n, s).Ok? ==> forall i :: 0 <= i < n ==> p(ReadAll(read, n, s).value.value[i])
    decreases n
  {
    if n > 0 && ReadAll(read, n, s).Ok? {
      var first := read(s).value;
      ReadAllEach(read, p, n - 1, first.rest);
    }
  }

  /** A run of values of one size is that size times the number of values. */
  lemma {:induction false} EncodeAllLength<T>(enc: T -> seq<byte>, xs: seq<T>, k: nat)
    requires forall i :: 0 <= i < |xs| ==> |enc(xs[i])| == k
    ensures |EncodeAll(enc, xs)| == |xs| * k
    decreases |xs|
  {
    if xs != [] {
      assert forall i :: 0 <= i < |xs[1..]| ==> xs[1..][i] == xs[i + 1];
      EncodeAllLength(enc, xs[1..], k);
      assert k + (|xs| - 1) * k == |xs| * k;
    }
  }

  // ---------------------------------------------------------------------------
  // Arrays of 32-bit integers whose element count is known from elsewhere

  function U32Writer(order: ByteOrder): u32 -> seq<byte> {
    x => U32(order, x)
  }

  function U32Reader(order: ByteOrder): seq<byte> -> Outcome<Read<u32>> {
    s => ReadU32(order, s)
  }

  function U32Array(order: ByteOrder, xs: seq<u32>): (r: seq<byte>)
    ensures |r| == 4 * |xs|
  {
    EncodeAllLength(U32Writer(order), xs, 4);
    EncodeAll(U32Writer(order), xs)
  }

  function ReadU32Array(order: ByteOrder, n: nat, s: seq<byte>): (r: Outcome<Read<seq<u32>>>)
    ensures r.Ok? ==> |r.value.value| == n && U32Array(order, r.value.value) + r.value.rest == s
  {
    forall t | ReadU32(order, t).Ok? {
      U32OfReadU32(order, t);
    }
    ReadAllCanonical(U32Reader(order), U32Writer(order), n, s);
    ReadAll(U32Reader(order), n, s)
  }

  lemma ReadU32ArrayOf(order: ByteOrder, xs: seq<u32>, rest: seq<byte>)
    ensures ReadU32Array(order, |xs|, U32Array(order, xs) + rest) == Ok(Read(xs, rest))
  {
    forall i | 0 <= i < |xs|
      ensures ReadsBack(U32Reader(order), U32Writer(order), xs[i])
    {
      forall rest' {
        ReadU32OfU32(order, xs[i], rest');
      }
    }
    ReadAllOf(U32Reader(order), U32Writer(order), xs, rest);
  }
}
