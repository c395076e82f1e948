/**
 * The monitor packets: the extended PCODE_MONITORQUERYX and
 * PCODE_MONITORRESULTX bodies, and the legacy PCODE_MONITORQUERY,
 * PCODE_MONITORRESULT and PCODE_MLD_MONITORRESULT bodies they are compatible
 * with.
 */
module Monitor {
  import opened Results
  import opened Wire
  import opened Features

  // ---------------------------------------------------------------------------
  // PCODE_MONITORQUERYX: the featureflags and nothing else

  /** A monitor query body is its featureflags; no feature is supported, so they must be zero. */
  function EncodeMonitorQueryX(order: ByteOrder, flags: u32): seq<byte>
    requires FlagsSupported(flags, MQF_SUPPORTED_MASK)
  {
    U32(order, flags)
  }

  function DecodeMonitorQueryX(order: ByteOrder, s: seq<byte>): (r: Outcome<Read<u32>>)
    ensures r.Ok? ==> r.value.value == 0 && EncodeMonitorQueryX(order, r.value.value) + r.value.rest == s
    ensures r.Fail? ==> r.error == if |s| < 4 then BufferTooShort else UnsupportedFeatureFlag
  {
    ReadFeatureFlags(order, s, MQF_SUPPORTED_MASK)
  }

  lemma DecodeEncodedMonitorQueryX(order: ByteOrder, rest: seq<byte>)
    ensures DecodeMonitorQueryX(order, EncodeMonitorQueryX(order, 0) + rest) == Ok(Read(0, rest))
  {
    ReadFeatureFlagsOf(order, 0, MQF_SUPPORTED_MASK, rest);
  }

  /** Binary compatibility: removing the (zero) flags leaves the empty legacy PCODE_MONITORQUERY body. */
  lemma LegacyMonitorQueryCompatible(order: ByteOrder)
    ensures FlagsSupported(MQF_MONITORQUERY_MASK as u32, MQF_SUPPORTED_MASK)
    ensures EncodeMonitorQueryX(order, MQF_MONITORQUERY_MASK as u32) == U32(order, MQF_MONITORQUERY_MASK as u32) + []
  {
  }

  // ---------------------------------------------------------------------------
  // PCODE_MONITORRESULTX

  /** The node and partition counts a multi-level dispatcher reports. */
  datatype NodeCounts = NodeCounts(totalNodes: u32, activeNodes: u32, totalParts: u32, activeParts: u32)

  datatype MonitorResultX = MonitorResultX(flags: u32, partitionId: u32, timestamp: u32, counts: Option<NodeCounts>)

  predicate WellFormed(m: MonitorResultX) {
    FlagsSupported(m.flags, MRF_SUPPORTED_MASK) && (m.counts.Some? <==> HasFeature(m.flags, MRF_MLD))
  }

  function CountsList(c: NodeCounts): seq<u32> {
    [c.totalNodes, c.activeNodes, c.totalParts, c.activeParts]
  }

  /** The four counts, each a 32-bit integer, when present. */
  function CountsBytes(order: ByteOrder, o: Option<NodeCounts>): (r: seq<byte>)
    ensures |r| == if o.Some? then 16 else 0
  {
    match o
    case None => []
    case Some(c) => U32Array(order, CountsList(c))
  }

  function ReadCounts(order: ByteOrder, present: bool, s: seq<byte>): (r: Outcome<Read<Option<NodeCounts>>>)
    ensures r.Ok? ==> (r.value.value.Some? <==> present) && CountsBytes(order, r.value.value) + r.value.rest == s
  {
    if !present then Ok(Read(None, s))
    else
      var xs :- ReadU32Array(order, 4, s);
      var c := NodeCounts(xs.value[0], xs.value[1], xs.value[2], xs.value[3]);
      assert CountsList(c) == xs.value;
      Ok(Read(Some(c), xs.rest))
  }

  lemma ReadCountsOf(order: ByteOrder, o: Option<NodeCounts>, rest: seq<byte>)
    ensures ReadCounts(order, o.Some?, CountsBytes(order, o) + rest) == Ok(Read(o, rest))
  {
    if o.Some? {
      ReadU32ArrayOf(order, CountsList(o.value), rest);
    } else {
      assert CountsBytes(order, o) + rest == rest;
    }
  }

  /** featureflags, partitionId, timestamp, then the four counts when MRF_MLD is set. */
  function EncodeMonitorResultX(order: ByteOrder, m: MonitorResultX): seq<byte>
    requires WellFormed(m)
  {
    U32(order, m.flags) + (U32(order, m.partitionId) + (U32(order, m.timestamp) + CountsBytes(order, m.counts)))
  }

  function DecodeMonitorResultX(order: ByteOrder, s: seq<byte>): (r: Outcome<Read<MonitorResultX>>)
    ensures r.Ok? ==> WellFormed(r.value.value) && EncodeMonitorResultX(order, r.value.value) + r.value.rest == s
  {
    var flags :- ReadFeatureFlags(order, s, MRF_SUPPORTED_MASK);
    var partitionId :- ReadU32(order, flags.rest);
    var timestamp :- ReadU32(order, partitionId.rest);
    var counts :- ReadCounts(order, HasFeature(flags.value, MRF_MLD), timestamp.rest);
    U32OfReadU32(order, flags.rest);
    U32OfReadU32(order, partitionId.rest);
    var cb := CountsBytes(order, counts.value);
    ConcatAssoc(U32(order, timestamp.value), cb, counts.rest);
    ConcatAssoc(U32(order, partitionId.value), U32(order, timestamp.value) + cb, counts.rest);
    ConcatAssoc(U32(order, flags.value), U32(order, partitionId.value) + (U32(order, timestamp.value) + cb), counts.rest);
    Ok(Read(MonitorResultX(flags.value, partitionId.value, timestamp.value, counts.value), counts.rest))
  }

  /** How DecodeMonitorResultX puts together the results of its four stages. */
  lemma DecodeMonitorResultXSteps(order: ByteOrder, s: seq<byte>, flags: Read<u32>, partitionId: Read<u32>,
                                  timestamp: Read<u32>, counts: Read<Option<NodeCounts>>)
    requires ReadFeatureFlags(order, s, MRF_SUPPORTED_MASK) == Ok(flags)
    requires ReadU32(order, flags.rest) == Ok(partitionId)
    requires ReadU32(order, partitionId.rest) == Ok(timestamp)
    requires ReadCounts(order, HasFeature(flags.value, MRF_MLD), timestamp.rest) == Ok(counts)
    ensures DecodeMonitorResultX(order, s) ==
            Ok(Read(MonitorResultX(flags.value, partitionId.value, timestamp.value, counts.value), counts.rest))
  {
  }

  lemma DecodeEncodedMonitorResultX(order: ByteOrder, m: MonitorResultX, rest: seq<byte>)
    requires WellFormed(m)
    ensures DecodeMonitorResultX(order, EncodeMonitorResultX(order, m) + rest) == Ok(Read(m, rest))
  {
    var cb := CountsBytes(order, m.counts);
    var t := U32(order, m.timestamp);
    var p := U32(order, m.partitionId);
    ConcatAssoc(t, cb, rest);
    ConcatAssoc(p, t + cb, rest);
    ConcatAssoc(U32(order, m.flags), p + (t + cb), rest);
    ReadFeatureFlagsOf(order, m.flags, MRF_SUPPORTED_MASK, p + (t + (cb + rest)));
    ReadU32OfU32(order, m.partitionId, t + (cb + rest));
    ReadU32OfU32(order, m.timestamp, cb + rest);
    ReadCountsOf(order, m.counts, rest);
    DecodeMonitorResultXSteps(order, EncodeMonitorResultX(order, m) + rest, Read(m.flags, p + (t + (cb + rest))),
                              Read(m.partitionId, t + (cb + rest)), Read(m.timestamp, cb + rest), Read(m.counts, rest));
  }

  /** A result whose flags name a feature outside the supported mask is discarded. */
  lemma UnsupportedMonitorResultRejected(order: ByteOrder, flags: u32, rest: seq<byte>)
    requires !FlagsSupported(flags, MRF_SUPPORTED_MASK)
    ensures DecodeMonitorResultX(order, U32(order, flags) + rest) == Fail(UnsupportedFeatureFlag)
  {
    UnsupportedFlagsRejected(order, flags, MRF_SUPPORTED_MASK, rest);
  }

  /** The body is 12 bytes, and 16 more when MRF_MLD is set. */
  lemma MonitorResultXSize(order: ByteOrder, m: MonitorResultX)
    requires WellFormed(m)
    ensures |EncodeMonitorResultX(order, m)| == 12 + if HasFeature(m.flags, MRF_MLD) then 16 else 0
  {
  }

  /** Switching MRF_MLD on and adding the counts keeps the result well formed and adds exactly 16 bytes. */
  lemma MldAddsSixteenBytes(order: ByteOrder, m: MonitorResultX, c: NodeCounts)
    requires WellFormed(m) && !HasFeature(m.flags, MRF_MLD)
    ensures var w := m.(flags := WithFeature(m.flags, MRF_MLD), counts := Some(c));
            WellFormed(w) && |EncodeMonitorResultX(order, w)| == |EncodeMonitorResultX(order, m)| + 16
  {
    var w := m.(flags := WithFeature(m.flags, MRF_MLD), counts := Some(c));
    assert HasFeature(w.flags, MRF_MLD);
    MonitorResultXSize(order, m);
    MonitorResultXSize(order, w);
  }

  // ---------------------------------------------------------------------------
  // The legacy PCODE_MONITORRESULT and PCODE_MLD_MONITORRESULT bodies

  /** A legacy result: partition id and timestamp, and in the MLD variant the four counts. */
  datatype LegacyMonitorResult = LegacyMonitorResult(partitionId: u32, timestamp: u32, counts: Option<NodeCounts>)

  function EncodeLegacyMonitorResult(order: ByteOrder, r: LegacyMonitorResult): seq<byte> {
    U32(order, r.partitionId) + (U32(order, r.timestamp) + CountsBytes(order, r.counts))
  }

  function DecodeLegacyMonitorResult(order: ByteOrder, mld: bool, s: seq<byte>): (r: Outcome<Read<LegacyMonitorResult>>)
    ensures r.Ok? ==> (r.value.value.counts.Some? <==> mld) && EncodeLegacyMonitorResult(order, r.value.value) + r.value.rest == s
  {
    var partitionId :- ReadU32(order, s);
    var timestamp :- ReadU32(order, partitionId.rest);
    var counts :- ReadCounts(order, mld, timestamp.rest);
    U32OfReadU32(order, s);
    U32OfReadU32(order, partitionId.rest);
    var cb := CountsBytes(order, counts.value);
    ConcatAssoc(U32(order, timestamp.value), cb, counts.rest);
    ConcatAssoc(U32(order, partitionId.value), U32(order, timestamp.value) + cb, counts.rest);
    Ok(Read(LegacyMonitorResult(partitionId.value, timestamp.value, counts.value), counts.rest))
  }

  lemma DecodeEncodedLegacyMonitorResult(order: ByteOrder, r: LegacyMonitorResult, rest: seq<byte>)
    ensures DecodeLegacyMonitorResult(order, r.counts.Some?, EncodeLegacyMonitorResult(order, r) + rest) == Ok(Read(r, rest))
  {
    var cb := CountsBytes(order, r.counts);
    var t := U32(order, r.timestamp);
    ConcatAssoc(t, cb, rest);
    ConcatAssoc(U32(order, r.partitionId), t + cb, rest);
    ReadU32OfU32(order, r.partitionId, t + (cb + rest));
    ReadU32OfU32(order, r.timestamp, cb + rest);
    ReadCountsOf(order, r.counts, rest);
  }

  /** The featureflags value that makes an extended result byte-compatible with a legacy one. */
  function LegacyFlags(mld: bool): (f: u32)
    ensures FlagsSupported(f, MRF_SUPPORTED_MASK) && (HasFeature(f, MRF_MLD) <==> mld)
  {
    if mld then MRF_MLD_MONITORRESULT_MASK as u32 else MRF_MONITORRESULT_MASK as u32
  }

  function FromLegacy(r: LegacyMonitorResult): MonitorResultX {
    MonitorResultX(LegacyFlags(r.counts.Some?), r.partitionId, r.timestamp, r.counts)
  }

  /** Binary compatibility, encoding side: the legacy body is the extended one minus the flags field. */
  lemma LegacyMonitorResultCompatible(order: ByteOrder, r: LegacyMonitorResult)
    ensures WellFormed(FromLegacy(r))
    ensures EncodeMonitorResultX(order, FromLegacy(r)) == U32(order, LegacyFlags(r.counts.Some?)) + EncodeLegacyMonitorResult(order, r)
  {
  }

  function AsExtended(d: Outcome<Read<LegacyMonitorResult>>): Outcome<Read<MonitorResultX>> {
    match d
    case Ok(x) => Ok(Read(FromLegacy(x.value), x.rest))
    case Fail(e) => Fail(e)
  }

  /**
   * Binary compatibility, decoding side: behind the legacy flags the extended
   * decoder accepts exactly what the legacy decoder accepts, with the same
   * result and the same error.
   */
  lemma LegacyMonitorResultDecodes(order: ByteOrder, mld: bool, s: seq<byte>)
    ensures DecodeMonitorResultX(order, U32(order, LegacyFlags(mld)) + s) == AsExtended(DecodeLegacyMonitorResult(order, mld, s))
  {
    ReadFeatureFlagsOf(order, LegacyFlags(mld), MRF_SUPPORTED_MASK, s);
    DecodeMonitorResultXAfterFlags(order, U32(order, LegacyFlags(mld)) + s, Read(LegacyFlags(mld), s));
  }

  /** DecodeMonitorResultX once its flags have been read and accepted. */
  lemma DecodeMonitorResultXAfterFlags(order: ByteOrder, s: seq<byte>, flags: Read<u32>)
    requires ReadFeatureFlags(order, s, MRF_SUPPORTED_MASK) == Ok(flags)
    ensures DecodeMonitorResultX(order, s) ==
            match ReadU32(order, flags.rest)
            case Fail(e) => Fail(e)
            case Ok(partitionId) =>
              match ReadU32(order, partitionId.rest)
              case Fail(e) => Fail(e)
              case Ok(timestamp) =>
                match ReadCounts(order, HasFeature(flags.value, MRF_MLD), timestamp.rest)
                case Fail(e) => Fail(e)
                case Ok(counts) =>
                  Ok(Read(MonitorResultX(flags.value, partitionId.value, timestamp.value, counts.value), counts.rest))
  {
  }
}
