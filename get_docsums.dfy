/**
 * The docsum request packets: the extended PCODE_GETDOCSUMSX body, whose
 * optional fields are governed by its featureflags, and the legacy
 * PCODE_GETDOCSUMS and PCODE_MLD_GETDOCSUMS bodies it is compatible with.
 * The number of documents is not written anywhere: the document records run
 * to the end of the packet.
 */
module GetDocsums {
  import opened Results
  import opened Wire
  import opened Features
  import opened Properties

  /** One requested document, with its origin in the MLD variant. */
  datatype DocRef = DocRef(docid: u32, origin: Option<Origin>)

  datatype RankAndFlags = RankAndFlags(rankprofile: u32, qflags: u32)

  /** The optional fields between the docstamp and the documents. */
  datatype DocsumOptions = DocsumOptions(
    rankp: Option<RankAndFlags>,
    resClassName: Option<seq<byte>>,
    properties: Option<seq<PropertySet>>,
    location: Option<seq<byte>>)

  datatype GetDocsumsX = GetDocsumsX(flags: u32, docstamp: u32, options: DocsumOptions, docs: seq<DocRef>)

  /** Which optional parts a featureflags value selects. */
  datatype Layout = Layout(rankp: bool, resClassName: bool, properties: bool, location: bool, mld: bool)

  function LayoutOf(flags: u32): Layout {
    Layout(HasFeature(flags, GDF_RANKP_QFLAGS), HasFeature(flags, GDF_RESCLASSNAME), HasFeature(flags, GDF_PROPERTIES),
           HasFeature(flags, GDF_LOCATION), HasFeature(flags, GDF_MLD))
  }

  /** The strings and the property count fit their 32-bit fields. */
  predicate OptionsFit(o: DocsumOptions) {
    (o.resClassName.Some? ==> FitsU32Length(o.resClassName.value)) &&
    (o.properties.Some? ==> |o.properties.value| < U32Limit) &&
    (o.location.Some? ==> FitsU32Length(o.location.value))
  }

  predicate OptionsMatch(o: DocsumOptions, l: Layout) {
    OptionsFit(o) &&
    (o.rankp.Some? <==> l.rankp) && (o.resClassName.Some? <==> l.resClassName) &&
    (o.properties.Some? <==> l.properties) && (o.location.Some? <==> l.location)
  }

  /** Every document carries an origin exactly when the MLD feature is on. */
  predicate DocsMatch(docs: seq<DocRef>, mld: bool) {
    forall i :: 0 <= i < |docs| ==> (docs[i].origin.Some? <==> mld)
  }

  predicate WellFormed(g: GetDocsumsX) {
    FlagsSupported(g.flags, GDF_SUPPORTED_MASK) &&
    OptionsMatch(g.options, LayoutOf(g.flags)) &&
    DocsMatch(g.docs, LayoutOf(g.flags).mld)
  }

  // ---------------------------------------------------------------------------
  // The optional fields

  function RankBytes(order: ByteOrder, o: Option<RankAndFlags>): (r: seq<byte>)
    ensures |r| == if o.Some? then 8 else 0
  {
    match o
    case None => []
    case Some(x) => U32(order, x.rankprofile) + U32(order, x.qflags)
  }

  function ReadRank(order: ByteOrder, present: bool, s: seq<byte>): (r: Outcome<Read<Option<RankAndFlags>>>)
    ensures r.Ok? ==> (r.value.value.Some? <==> present) && RankBytes(order, r.value.value) + r.value.rest == s
  {
    if !present then Ok(Read(None, s))
    else
      var rankprofile :- ReadU32(order, s);
      var qflags :- ReadU32(order, rankprofile.rest);
      U32OfReadU32(order, s);
      U32OfReadU32(order, rankprofile.rest);
      ConcatAssoc(U32(order, rankprofile.value), U32(order, qflags.value), qflags.rest);
      Ok(Read(Some(RankAndFlags(rankprofile.value, qflags.value)), qflags.rest))
  }

  lemma ReadRankOf(order: ByteOrder, o: Option<RankAndFlags>, rest: seq<byte>)
    ensures ReadRank(order, o.Some?, RankBytes(order, o) + rest) == Ok(Read(o, rest))
  {
    if o.Some? {
      var x := o.value;
      ConcatAssoc(U32(order, x.rankprofile), U32(order, x.qflags), rest);
      ReadU32OfU32(order, x.rankprofile, U32(order, x.qflags) + rest);
      ReadU32OfU32(order, x.qflags, rest);
    } else {
      assert RankBytes(order, o) + rest == rest;
    }
  }

  function OptionalProperties(order: ByteOrder, o: Option<seq<PropertySet>>): seq<byte>
    requires o.Some? ==> |o.value| < U32Limit
  {
    match o
    case None => []
    case Some(ps) => PropertiesBytes(order, ps)
  }

  function ReadOptionalProperties(order: ByteOrder, present: bool, s: seq<byte>): (r: Outcome<Read<Option<seq<PropertySet>>>>)
    ensures r.Ok? ==> (r.value.value.Some? <==> present)
    ensures r.Ok? ==> (r.value.value.Some? ==> |r.value.value.value| < U32Limit) &&
                      OptionalProperties(order, r.value.value) + r.value.rest == s
  {
    if !present then Ok(Read(None, s))
    else
      var ps :- ReadProperties(order, s);
      Ok(Read(Some(ps.value), ps.rest))
  }

  lemma ReadOptionalPropertiesOf(order: ByteOrder, o: Option<seq<PropertySet>>, rest: seq<byte>)
    requires o.Some? ==> |o.value| < U32Limit
    ensures ReadOptionalProperties(order, o.Some?, OptionalProperties(order, o) + rest) == Ok(Read(o, rest))
  {
    if o.Some? {
      ReadPropertiesOf(order, o.value, rest);
    } else {
      assert OptionalProperties(order, o) + rest == rest;
    }
  }

  /** rankprofile and qflags, resClassName, the properties and the location, each when selected. */
  function OptionsBytes(order: ByteOrder, o: DocsumOptions): seq<byte>
    requires OptionsFit(o)
  {
    RankBytes(order, o.rankp) + (OptionalBlob(order, o.resClassName) +
    (OptionalProperties(order, o.properties) + OptionalBlob(order, o.location)))
  }

  function ReadOptions(order: ByteOrder, l: Layout, s: seq<byte>): (r: Outcome<Read<DocsumOptions>>)
    ensures r.Ok? ==> OptionsMatch(r.value.value, l) && OptionsBytes(order, r.value.value) + r.value.rest == s
  {
    var rankp :- ReadRank(order, l.rankp, s);
    var resClassName :- ReadOptionalBlob(order, l.resClassName, rankp.rest);
    var properties :- ReadOptionalProperties(order, l.properties, resClassName.rest);
    var location :- ReadOptionalBlob(order, l.location, properties.rest);
    var pb := OptionalProperties(order, properties.value);
    var lb := OptionalBlob(order, location.value);
    var cb := OptionalBlob(order, resClassName.value);
    ConcatAssoc(pb, lb, location.rest);
    ConcatAssoc(cb, pb + lb, location.rest);
    ConcatAssoc(RankBytes(order, rankp.value), cb + (pb + lb), location.rest);
    Ok(Read(DocsumOptions(rankp.value, resClassName.value, properties.value, location.value), location.rest))
  }

  /** How ReadOptions puts together the results of its four stages. */
  lemma ReadOptionsSteps(order: ByteOrder, l: Layout, s: seq<byte>, rankp: Read<Option<RankAndFlags>>,
                         resClassName: Read<Option<seq<byte>>>, properties: Read<Option<seq<PropertySet>>>,
                         location: Read<Option<seq<byte>>>)
    requires ReadRank(order, l.rankp, s) == Ok(rankp)
    requires ReadOptionalBlob(order, l.resClassName, rankp.rest) == Ok(resClassName)
    requires ReadOptionalProperties(order, l.properties, resClassName.rest) == Ok(properties)
    requires ReadOptionalBlob(order, l.location, properties.rest) == Ok(location)
    ensures ReadOptions(order, l, s) ==
            Ok(Read(DocsumOptions(rankp.value, resClassName.value, properties.value, location.value), location.rest))
  {
  }

  lemma ReadOptionsOf(order: ByteOrder, o: DocsumOptions, l: Layout, rest: seq<byte>)
    requires OptionsMatch(o, l)
    ensures ReadOptions(order, l, OptionsBytes(order, o) + rest) == Ok(Read(o, rest))
  {
    var pb := OptionalProperties(order, o.properties);
    var lb := OptionalBlob(order, o.location);
    var cb := OptionalBlob(order, o.resClassName);
    ConcatAssoc(pb, lb, rest);
    ConcatAssoc(cb, pb + lb, rest);
    ConcatAssoc(RankBytes(order, o.rankp), cb + (pb + lb), rest);
    ReadRankOf(order, o.rankp, cb + (pb + (lb + rest)));
    ReadOptionalBlobOf(order, o.resClassName, pb + (lb + rest));
    ReadOptionalPropertiesOf(order, o.properties, lb + rest);
    ReadOptionalBlobOf(order, o.location, rest);
    ReadOptionsSteps(order, l, OptionsBytes(order, o) + rest, Read(o.rankp, cb + (pb + (lb + rest))),
                     Read(o.resClassName, pb + (lb + rest)), Read(o.properties, lb + rest), Read(o.location, rest));
  }

  // ---------------------------------------------------------------------------
  // The documents, up to the end of the packet

  function DocBytes(order: ByteOrder, d: DocRef): (r: seq<byte>)
    ensures |r| == 4 + if d.origin.Some? then 8 else 0
  {
    U32(order, d.docid) + OriginBytes(order, d.origin)
  }

  function ReadDoc(order: ByteOrder, mld: bool, s: seq<byte>): (r: Outcome<Read<DocRef>>)
    ensures r.Ok? ==> (r.value.value.origin.Some? <==> mld) && DocBytes(order, r.value.value) + r.value.rest == s
    ensures r.Fail? ==> r.error == BufferTooShort
  {
    var docid :- ReadU32(order, s);
    var origin :- ReadOrigin(order, mld, docid.rest);
    U32OfReadU32(order, s);
    ConcatAssoc(U32(order, docid.value), OriginBytes(order, origin.value), origin.rest);
    Ok(Read(DocRef(docid.value, origin.value), origin.rest))
  }

  lemma ReadDocOf(order: ByteOrder, d: DocRef, rest: seq<byte>)
    ensures ReadDoc(order, d.origin.Some?, DocBytes(order, d) + rest) == Ok(Read(d, rest))
  {
    ConcatAssoc(U32(order, d.docid), OriginBytes(order, d.origin), rest);
    ReadU32OfU32(order, d.docid, OriginBytes(order, d.origin) + rest);
    ReadOriginOf(order, d.origin, rest);
  }

  function DocWriter(order: ByteOrder): DocRef -> seq<byte> {
    d => DocBytes(order, d)
  }

  function EncodeDocs(order: ByteOrder, docs: seq<DocRef>): seq<byte> {
    EncodeAll(DocWriter(order), docs)
  }

  /**
   * Reads document records until the bytes run out. A record cut short by
   * the end of the packet is an error.
   */
  function ReadDocsToEnd(order: ByteOrder, mld: bool, s: seq<byte>): (r: Outcome<seq<DocRef>>)
    ensures r.Ok? ==> DocsMatch(r.value, mld) && EncodeDocs(order, r.value) == s
    ensures r.Fail? ==> r.error == BufferTooShort
    decreases |s|
  {
    if s == [] then Ok([])
    else
      var first :- ReadDoc(order, mld, s);
      var others :- ReadDocsToEnd(order, mld, first.rest);
      var docs := [first.value] + others;
      assert docs[0] == first.value && docs[1..] == others;
      Ok(docs)
  }

  lemma {:induction false} ReadDocsToEndOf(order: ByteOrder, docs: seq<DocRef>, mld: bool)
    requires DocsMatch(docs, mld)
    ensures ReadDocsToEnd(order, mld, EncodeDocs(order, docs)) == Ok(docs)
    decreases |docs|
  {
    if docs != [] {
      var tail := EncodeDocs(order, docs[1..]);
      ReadDocOf(order, docs[0], tail);
      assert DocsMatch(docs[1..], mld) by {
        assert forall i :: 0 <= i < |docs[1..]| ==> docs[1..][i] == docs[i + 1];
      }
      ReadDocsToEndOf(order, docs[1..], mld);
      HeadTail(docs);
    }
  }

  /** Every document record has the same size: the docid, and the origin when MLD is on. */
  function DocSize(mld: bool): nat {
    4 + if mld then 8 else 0
  }

  lemma EncodeDocsLength(order: ByteOrder, docs: seq<DocRef>, mld: bool)
    requires DocsMatch(docs, mld)
    ensures |EncodeDocs(order, docs)| == |docs| * DocSize(mld)
  {
    EncodeAllLength(DocWriter(order), docs, DocSize(mld));
  }

  // ---------------------------------------------------------------------------
  // PCODE_GETDOCSUMSX

  /** featureflags, docstamp, the optional fields the flags select, then the documents. */
  function EncodeGetDocsumsX(order: ByteOrder, g: GetDocsumsX): seq<byte>
    requires WellFormed(g)
  {
    U32(order, g.flags) + (U32(order, g.docstamp) + (OptionsBytes(order, g.options) + EncodeDocs(order, g.docs)))
  }

  /**
   * Decodes a whole PCODE_GETDOCSUMSX body. Flags with an unsupported feature
   * discard the packet; otherwise the flags select the optional fields, and
   * every byte after them belongs to a document record.
   */
  function DecodeGetDocsumsX(order: ByteOrder, s: seq<byte>): (r: Outcome<GetDocsumsX>)
    ensures r.Ok? ==> WellFormed(r.value) && EncodeGetDocsumsX(order, r.value) == s
  {
    var flags :- ReadFeatureFlags(order, s, GDF_SUPPORTED_MASK);
    var docstamp :- ReadU32(order, flags.rest);
    var options :- ReadOptions(order, LayoutOf(flags.value), docstamp.rest);
    var docs :- ReadDocsToEnd(order, LayoutOf(flags.value).mld, options.rest);
    U32OfReadU32(order, flags.rest);
    Ok(GetDocsumsX(flags.value, docstamp.value, options.value, docs))
  }

  lemma DecodeEncodedGetDocsumsX(order: ByteOrder, g: GetDocsumsX)
    requires WellFormed(g)
    ensures DecodeGetDocsumsX(order, EncodeGetDocsumsX(order, g)) == Ok(g)
  {
    var ob := OptionsBytes(order, g.options);
    var db := EncodeDocs(order, g.docs);
    ReadFeatureFlagsOf(order, g.flags, GDF_SUPPORTED_MASK, U32(order, g.docstamp) + (ob + db));
    ReadU32OfU32(order, g.docstamp, ob + db);
    ReadOptionsOf(order, g.options, LayoutOf(g.flags), db);
    ReadDocsToEndOf(order, g.docs, LayoutOf(g.flags).mld);
  }

  /** A request whose flags name a feature outside the supported mask is discarded. */
  lemma UnsupportedGetDocsumsRejected(order: ByteOrder, flags: u32, rest: seq<byte>)
    requires !FlagsSupported(flags, GDF_SUPPORTED_MASK)
    ensures DecodeGetDocsumsX(order, U32(order, flags) + rest) == Fail(UnsupportedFeatureFlag)
  {
    UnsupportedFlagsRejected(order, flags, GDF_SUPPORTED_MASK, rest);
  }

  /** The size of the body: flags, docstamp, the optional fields, and one fixed-size record per document. */
  lemma GetDocsumsXSize(order: ByteOrder, g: GetDocsumsX)
    requires WellFormed(g)
    ensures |EncodeGetDocsumsX(order, g)| == 8 + |OptionsBytes(order, g.options)| + |g.docs| * DocSize(LayoutOf(g.flags).mld)
  {
    EncodeDocsLength(order, g.docs, LayoutOf(g.flags).mld);
  }

  /** Attaches an origin to each document. */
  function WithOrigins(docs: seq<DocRef>, origins: seq<Origin>): (r: seq<DocRef>)
    requires |origins| == |docs|
    ensures |r| == |docs| && DocsMatch(r, true)
    ensures forall i :: 0 <= i < |r| ==> r[i].docid == docs[i].docid && r[i].origin == Some(origins[i])
  {
    seq(|docs|, i requires 0 <= i < |docs| => DocRef(docs[i].docid, Some(origins[i])))
  }

  /** The MLD feature is supported, so switching it on keeps a request's flags acceptable. */
  lemma MldKeepsSupport(flags: u32)
    ensures FlagsSupported(WithFeature(flags, GDF_MLD), GDF_SUPPORTED_MASK) == FlagsSupported(flags, GDF_SUPPORTED_MASK)
  {
    GrowingFeaturesSupported();
    SetBitKeepsSupport(flags as bv32, WithFeature(flags, GDF_MLD) as bv32, GDF_MLD, GDF_SUPPORTED_MASK);
  }

  /** Switching the MLD feature on selects the same optional fields as before. */
  lemma MldKeepsLayout(flags: u32)
    ensures LayoutOf(WithFeature(flags, GDF_MLD)) == LayoutOf(flags).(mld := true)
  {
    var x := flags as bv32;
    SetBitKeepsOthers(x, GDF_MLD, GDF_RANKP_QFLAGS);
    SetBitKeepsOthers(x, GDF_MLD, GDF_RESCLASSNAME);
    SetBitKeepsOthers(x, GDF_MLD, GDF_PROPERTIES);
    SetBitKeepsOthers(x, GDF_MLD, GDF_LOCATION);
  }

  /** Switching the MLD feature on and giving every document its origin keeps a request well formed. */
  lemma MldKeepsWellFormed(g: GetDocsumsX, origins: seq<Origin>)
    requires WellFormed(g) && |origins| == |g.docs|
    ensures WellFormed(g.(flags := WithFeature(g.flags, GDF_MLD), docs := WithOrigins(g.docs, origins)))
  {
    MldKeepsSupport(g.flags);
    MldKeepsLayout(g.flags);
  }

  /**
   * Switching the MLD feature on, and giving every document its origin, keeps
   * the request well formed and makes it exactly 8 bytes per document longer.
   */
  lemma MldAddsEightBytesPerDoc(order: ByteOrder, g: GetDocsumsX, origins: seq<Origin>)
    requires WellFormed(g) && !HasFeature(g.flags, GDF_MLD) && |origins| == |g.docs|
    ensures var m := g.(flags := WithFeature(g.flags, GDF_MLD), docs := WithOrigins(g.docs, origins));
            WellFormed(m) && |EncodeGetDocsumsX(order, m)| == |EncodeGetDocsumsX(order, g)| + 8 * |g.docs|
  {
    var m := g.(flags := WithFeature(g.flags, GDF_MLD), docs := WithOrigins(g.docs, origins));
    MldKeepsWellFormed(g, origins);
    MldKeepsLayout(g.flags);
    GetDocsumsXSize(order, g);
    GetDocsumsXSize(order, m);
  }

  // ---------------------------------------------------------------------------
  // The legacy PCODE_GETDOCSUMS and PCODE_MLD_GETDOCSUMS bodies

  /** A legacy request: the docstamp header and the documents, with origins in the MLD variant. */
  datatype LegacyGetDocsums = LegacyGetDocsums(docstamp: u32, docs: seq<DocRef>)

  function EncodeLegacyGetDocsums(order: ByteOrder, r: LegacyGetDocsums): seq<byte> {
    U32(order, r.docstamp) + EncodeDocs(order, r.docs)
  }

  function DecodeLegacyGetDocsums(order: ByteOrder, mld: bool, s: seq<byte>): (r: Outcome<LegacyGetDocsums>)
    ensures r.Ok? ==> DocsMatch(r.value.docs, mld) && EncodeLegacyGetDocsums(order, r.value) == s
  {
    var docstamp :- ReadU32(order, s);
    var docs :- ReadDocsToEnd(order, mld, docstamp.rest);
    U32OfReadU32(order, s);
    Ok(LegacyGetDocsums(docstamp.value, docs))
  }

  lemma DecodeEncodedLegacyGetDocsums(order: ByteOrder, r: LegacyGetDocsums, mld: bool)
    requires DocsMatch(r.docs, mld)
    ensures DecodeLegacyGetDocsums(order, mld, EncodeLegacyGetDocsums(order, r)) == Ok(r)
  {
    ReadU32OfU32(order, r.docstamp, EncodeDocs(order, r.docs));
    ReadDocsToEndOf(order, r.docs, mld);
  }

  /** The featureflags value that makes an extended request byte-compatible with a legacy one. */
  function LegacyFlags(mld: bool): (f: u32)
    ensures FlagsSupported(f, GDF_SUPPORTED_MASK)
    ensures LayoutOf(f) == Layout(false, false, false, false, mld)
  {
    if mld then GDF_MLD_GETDOCSUMS_MASK as u32 else GDF_GETDOCSUMS_MASK as u32
  }

  function FromLegacy(r: LegacyGetDocsums, mld: bool): GetDocsumsX {
    GetDocsumsX(LegacyFlags(mld), r.docstamp, DocsumOptions(None, None, None, None), r.docs)
  }

  /** Binary compatibility, encoding side: the legacy body is the extended one minus the flags field. */
  lemma LegacyGetDocsumsCompatible(order: ByteOrder, r: LegacyGetDocsums, mld: bool)
    requires DocsMatch(r.docs, mld)
    ensures WellFormed(FromLegacy(r, mld))
    ensures EncodeGetDocsumsX(order, FromLegacy(r, mld)) == U32(order, LegacyFlags(mld)) + EncodeLegacyGetDocsums(order, r)
  {
    assert OptionsBytes(order, FromLegacy(r, mld).options) == [];
  }

  function AsExtended(d: Outcome<LegacyGetDocsums>, mld: bool): Outcome<GetDocsumsX> {
    match d
    case Ok(x) => Ok(FromLegacy(x, mld))
    case Fail(e) => Fail(e)
  }

  /**
   * Binary compatibility, decoding side: behind the legacy flags the extended
   * decoder accepts exactly what the legacy decoder accepts, with the same
   * result and the same error.
   */
  lemma LegacyGetDocsumsDecodes(order: ByteOrder, mld: bool, s: seq<byte>)
    ensures DecodeGetDocsumsX(order, U32(order, LegacyFlags(mld)) + s) == AsExtended(DecodeLegacyGetDocsums(order, mld, s), mld)
  {
    ReadFeatureFlagsOf(order, LegacyFlags(mld), GDF_SUPPORTED_MASK, s);
    if ReadU32(order, s).Ok? {
      LegacyOptionsAreEmpty(order, mld, ReadU32(order, s).value.rest);
    }
    DecodeGetDocsumsXAfterFlags(order, U32(order, LegacyFlags(mld)) + s, Read(LegacyFlags(mld), s));
  }

  /** DecodeGetDocsumsX once its flags have been read and accepted. */
  lemma DecodeGetDocsumsXAfterFlags(order: ByteOrder, s: seq<byte>, flags: Read<u32>)
    requires ReadFeatureFlags(order, s, GDF_SUPPORTED_MASK) == Ok(flags)
    ensures DecodeGetDocsumsX(order, s) ==
            var stamp := ReadU32(order, flags.rest);
            if stamp.Fail? then Fail(stamp.error) else
            var opts := ReadOptions(order, LayoutOf(flags.value), stamp.value.rest);
            if opts.Fail? then Fail(opts.error) else
            var ds := ReadDocsToEnd(order, LayoutOf(flags.value).mld, opts.value.rest);
            if ds.Fail? then Fail(ds.error) else
            Ok(GetDocsumsX(flags.value, stamp.value.value, opts.value.value, ds.value))
  {
  }

  /** With only the MLD feature possibly on, there are no optional fields to read. */
  lemma LegacyOptionsAreEmpty(order: ByteOrder, mld: bool, s: seq<byte>)
    ensures ReadOptions(order, Layout(false, false, false, false, mld), s) == Ok(Read(DocsumOptions(None, None, None, None), s))
  {
    ReadOptionsSteps(order, Layout(false, false, false, false, mld), s, Read(None, s), Read(None, s), Read(None, s), Read(None, s));
  }
}
