/**
 * The feature-flag registry: per packet family, the 32-bit feature bits,
 * the fixed flag values that make an extended packet byte-identical to a
 * legacy one, and the mask of bits this codec can decode.
 */
module Features {
  import opened Results
  import opened Wire

  // Query result features (QUERYRESULTX)
  const QRF_MLD: bv32 := 0x0000_0001
  const QRF_SORTDATA: bv32 := 0x0000_0010
  const QRF_AGGRDATA: bv32 := 0x0000_0020
  const QRF_COVERAGE: bv32 := 0x0000_0040
  const QRF_GROUPDATA: bv32 := 0x0000_0200
  const QRF_PROPERTIES: bv32 := 0x0000_0400
  const QRF_QUERYRESULT_MASK: bv32 := 0
  const QRF_MLD_QUERYRESULT_MASK: bv32 := QRF_MLD

  // Query features (QUERYX)
  const QF_PARSEDQUERY: bv32 := 0x0000_0002
  const QF_RANKP: bv32 := 0x0000_0004
  const QF_SORTSPEC: bv32 := 0x0000_0080
  const QF_AGGRSPEC: bv32 := 0x0000_0100
  const QF_LOCATION: bv32 := 0x0000_0800
  const QF_PROPERTIES: bv32 := 0x0010_0000
  const QF_WARMUP: bv32 := 0x0020_0000
  const QF_GROUPSPEC: bv32 := 0x0040_0000
  const QF_SESSIONID: bv32 := 0x0080_0000
  const QF_PARSEDQUERY2_MASK: bv32 := QF_PARSEDQUERY | QF_RANKP

  // GetDocsums features (GETDOCSUMSX)
  const GDF_MLD: bv32 := 0x0000_0001
  const GDF_QUERYSTACK: bv32 := 0x0000_0004
  const GDF_RANKP_QFLAGS: bv32 := 0x0000_0010
  const GDF_LOCATION: bv32 := 0x0000_0080
  const GDF_RESCLASSNAME: bv32 := 0x0000_0800
  const GDF_PROPERTIES: bv32 := 0x0000_1000
  const GDF_FLAGS: bv32 := 0x0000_2000
  const GDF_GETDOCSUMS_MASK: bv32 := 0
  const GDF_MLD_GETDOCSUMS_MASK: bv32 := GDF_MLD

  // Monitor query features (MONITORQUERYX)
  const MQF_QFLAGS: bv32 := 0x0000_0002
  const MQF_MONITORQUERY_MASK: bv32 := 0

  // Monitor result features (MONITORRESULTX)
  const MRF_MLD: bv32 := 0x0000_0001
  const MRF_RFLAGS: bv32 := 0x0000_0008
  const MRF_ACTIVEDOCS: bv32 := 0x0000_0010
  const MRF_MONITORRESULT_MASK: bv32 := 0
  const MRF_MLD_MONITORRESULT_MASK: bv32 := MRF_MLD

  /**
   * The supported masks: exactly the bits whose sections have a documented
   * position in the packet layout. QRF_PROPERTIES, GDF_QUERYSTACK, GDF_FLAGS,
   * MQF_QFLAGS, MRF_RFLAGS and MRF_ACTIVEDOCS have none, so a packet that sets
   * one of them is discarded.
   */
  const QRF_SUPPORTED_MASK: bv32 := QRF_MLD | QRF_SORTDATA | QRF_AGGRDATA | QRF_COVERAGE | QRF_GROUPDATA
  const GDF_SUPPORTED_MASK: bv32 := GDF_MLD | GDF_RANKP_QFLAGS | GDF_RESCLASSNAME | GDF_PROPERTIES | GDF_LOCATION
  const MQF_SUPPORTED_MASK: bv32 := 0
  const MRF_SUPPORTED_MASK: bv32 := MRF_MLD

  predicate IsSingleBit(b: bv32) {
    b != 0 && b & (b - 1) == 0
  }

  /** Every entry is one bit, and no two entries share it. */
  predicate DistinctSingleBits(bits: seq<bv32>) {
    (forall i :: 0 <= i < |bits| ==> IsSingleBit(bits[i])) &&
    (forall i, j :: 0 <= i < |bits| && 0 <= j < |bits| && i != j ==> bits[i] & bits[j] == 0)
  }

  /** The validity test on received flags: no bit outside the supported mask. */
  predicate Supported(flags: bv32, mask: bv32) {
    flags & !mask == 0
  }

  predicate Has(flags: bv32, bit: bv32) {
    flags & bit != 0
  }

  function QueryResultFeatureBits(): (bits: seq<bv32>)
    ensures DistinctSingleBits(bits)
  {
    [QRF_MLD, QRF_SORTDATA, QRF_AGGRDATA, QRF_COVERAGE, QRF_GROUPDATA, QRF_PROPERTIES]
  }

  function QueryFeatureBits(): (bits: seq<bv32>)
    ensures DistinctSingleBits(bits)
  {
    [QF_PARSEDQUERY, QF_RANKP, QF_SORTSPEC, QF_AGGRSPEC, QF_LOCATION, QF_PROPERTIES,
     QF_WARMUP, QF_GROUPSPEC, QF_SESSIONID]
  }

  function GetDocsumsFeatureBits(): (bits: seq<bv32>)
    ensures DistinctSingleBits(bits)
  {
    [GDF_MLD, GDF_QUERYSTACK, GDF_RANKP_QFLAGS, GDF_LOCATION, GDF_RESCLASSNAME,
     GDF_PROPERTIES, GDF_FLAGS]
  }

  function MonitorResultFeatureBits(): (bits: seq<bv32>)
    ensures DistinctSingleBits(bits)
  {
    [MRF_MLD, MRF_RFLAGS, MRF_ACTIVEDOCS]
  }

  /** The legacy masks are exactly the documented values. */
  lemma LegacyMasks()
    ensures QRF_QUERYRESULT_MASK == 0 && QRF_MLD_QUERYRESULT_MASK == QRF_MLD
    ensures QF_PARSEDQUERY2_MASK == QF_PARSEDQUERY | QF_RANKP
    ensures GDF_GETDOCSUMS_MASK == 0 && GDF_MLD_GETDOCSUMS_MASK == GDF_MLD
    ensures MQF_MONITORQUERY_MASK == 0
    ensures MRF_MONITORRESULT_MASK == 0 && MRF_MLD_MONITORRESULT_MASK == MRF_MLD
  {
  }

  /** The flag values of the legacy packets are accepted by the extended decoders. */
  lemma LegacyMasksSupported()
    ensures Supported(QRF_QUERYRESULT_MASK, QRF_SUPPORTED_MASK)
    ensures Supported(QRF_MLD_QUERYRESULT_MASK, QRF_SUPPORTED_MASK)
    ensures Supported(GDF_GETDOCSUMS_MASK, GDF_SUPPORTED_MASK)
    ensures Supported(GDF_MLD_GETDOCSUMS_MASK, GDF_SUPPORTED_MASK)
    ensures Supported(MQF_MONITORQUERY_MASK, MQF_SUPPORTED_MASK)
    ensures Supported(MRF_MONITORRESULT_MASK, MRF_SUPPORTED_MASK)
    ensures Supported(MRF_MLD_MONITORRESULT_MASK, MRF_SUPPORTED_MASK)
  {
  }

  // ---------------------------------------------------------------------------
  // The featureflags field on the wire

  /** The field as sent: a 32-bit unsigned integer whose bits are the features. */
  predicate FlagsSupported(flags: u32, supported: bv32) {
    Supported(flags as bv32, supported)
  }

  predicate HasFeature(flags: u32, bit: bv32) {
    Has(flags as bv32, bit)
  }

  /**
   * Reads the featureflags field and applies the validity test: a packet that
   * uses a feature outside the supported mask is discarded before anything
   * after the field is looked at.
   */
  function ReadFeatureFlags(order: ByteOrder, s: seq<byte>, supported: bv32): (r: Outcome<Read<u32>>)
    ensures r.Ok? ==> FlagsSupported(r.value.value, supported) && U32(order, r.value.value) + r.value.rest == s
    ensures r.Fail? ==> r.error == if |s| < 4 then BufferTooShort else UnsupportedFeatureFlag
  {
    var flags :- ReadU32(order, s);
    if !FlagsSupported(flags.value, supported) then Fail(UnsupportedFeatureFlag)
    else
      U32OfReadU32(order, s);
      Ok(flags)
  }

  lemma ReadFeatureFlagsOf(order: ByteOrder, flags: u32, supported: bv32, rest: seq<byte>)
    requires FlagsSupported(flags, supported)
    ensures ReadFeatureFlags(order, U32(order, flags) + rest, supported) == Ok(Read(flags, rest))
  {
    ReadU32OfU32(order, flags, rest);
  }

  /** Flags with an unsupported bit are rejected whatever follows them. */
  lemma UnsupportedFlagsRejected(order: ByteOrder, flags: u32, supported: bv32, rest: seq<byte>)
    requires !FlagsSupported(flags, supported)
    ensures ReadFeatureFlags(order, U32(order, flags) + rest, supported) == Fail(UnsupportedFeatureFlag)
  {
    ReadU32OfU32(order, flags, rest);
  }

  /** The features that grow a packet by a fixed amount are all supported. */
  lemma GrowingFeaturesSupported()
    ensures QRF_COVERAGE & !QRF_SUPPORTED_MASK == 0
    ensures GDF_MLD & !GDF_SUPPORTED_MASK == 0
    ensures MRF_MLD & !MRF_SUPPORTED_MASK == 0
  {
  }

  /** Switching a bit on leaves every bit disjoint from it as it was. */
  lemma SetBitKeepsOthers(x: bv32, bit: bv32, other: bv32)
    requires bit & other == 0
    ensures Has(x | bit, other) == Has(x, other)
  {
    assert (x | bit) & other == x & other;
  }

  /** Switching on a supported bit neither makes nor mends an unsupported flag word. */
  lemma SetBitKeepsSupport(x: bv32, y: bv32, bit: bv32, mask: bv32)
    requires y == x | bit && bit & !mask == 0
    ensures Supported(y, mask) == Supported(x, mask)
  {
    assert y & !mask == x & !mask;
  }

  /** The flags with one more feature switched on. */
  function WithFeature(flags: u32, bit: bv32): (r: u32)
    ensures r as bv32 == (flags as bv32) | bit
  {
    ((flags as bv32) | bit) as int
  }
}
