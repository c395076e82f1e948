/**
 * The query result packets: the extended PCODE_QUERYRESULTX body, whose
 * optional sections are governed by its featureflags, and the two legacy
 * bodies (PCODE_QUERYRESULT and PCODE_MLD_QUERYRESULT) it is compatible with.
 * A body here is the packet data after the optional query id.
 */
module QueryResult {
  import opened Results
  import opened Wire
  import opened Features

  /** One hit: a document id, its rank, and for MLD results where it came from. */
  datatype Hit = Hit(docid: u32, metric: HitRank, origin: Option<Origin>)

  /** Sort data: one offset per hit into a byte run whose length is the last offset. */
  datatype SortData = SortData(sortIndex: seq<u32>, sortData: seq<byte>)

  datatype Coverage = Coverage(docs: u64, nodes: u32, full: u32)

  datatype QueryResultX = QueryResultX(
    flags: u32,
    offset: u32,
    totNumDocs: u32,
    maxRank: HitRank,
    docstamp: u32,
    sort: Option<SortData>,
    aggrData: Option<seq<byte>>,
    groupData: Option<seq<byte>>,
    coverage: Option<Coverage>,
    hits: seq<Hit>)

  /** The length of the sort data: the last sort index entry, or nothing when there are no hits. */
  function SortDataLength(sortIndex: seq<u32>): nat {
    if sortIndex == [] then 0 else sortIndex[|sortIndex| - 1]
  }

  /** Every hit carries an origin exactly when the MLD feature is on. */
  predicate HitsMatch(hits: seq<Hit>, mld: bool) {
    forall i :: 0 <= i < |hits| ==> (hits[i].origin.Some? <==> mld)
  }

  /** Which optional parts a featureflags value selects. */
  datatype Layout = Layout(sortData: bool, aggrData: bool, groupData: bool, coverage: bool, mld: bool)

  function LayoutOf(flags: u32): Layout {
    Layout(HasFeature(flags, QRF_SORTDATA), HasFeature(flags, QRF_AGGRDATA), HasFeature(flags, QRF_GROUPDATA),
           HasFeature(flags, QRF_COVERAGE), HasFeature(flags, QRF_MLD))
  }

  /** The aggregation and grouping data fit their 32-bit length fields. */
  predicate BlobsFit(q: QueryResultX) {
    (q.aggrData.Some? ==> FitsU32Length(q.aggrData.value)) &&
    (q.groupData.Some? ==> FitsU32Length(q.groupData.value))
  }

  /**
   * Each optional section is present exactly when the layout selects it, the
   * sort index has one entry per hit and the sort data is as long as its last
   * entry says, and every count and length fits its 32-bit field.
   */
  predicate SectionsMatch(q: QueryResultX, l: Layout) {
    |q.hits| < U32Limit &&
    BlobsFit(q) &&
    (q.sort.Some? <==> l.sortData) &&
    (q.sort.Some? ==> |q.sort.value.sortIndex| == |q.hits| &&
                      |q.sort.value.sortData| == SortDataLength(q.sort.value.sortIndex)) &&
    (q.aggrData.Some? <==> l.aggrData) &&
    (q.groupData.Some? <==> l.groupData) &&
    (q.coverage.Some? <==> l.coverage) &&
    HitsMatch(q.hits, l.mld)
  }

  /** A result that can be sent: only supported features, and the sections they select. */
  predicate WellFormed(q: QueryResultX) {
    FlagsSupported(q.flags, QRF_SUPPORTED_MASK) && SectionsMatch(q, LayoutOf(q.flags))
  }

  // ---------------------------------------------------------------------------
  // Hits

  function EncodeHit(order: ByteOrder, h: Hit): (r: seq<byte>)
    ensures |r| == 4 + HIT_RANK_WIDTH + if h.origin.Some? then 8 else 0
  {
    U32(order, h.docid) + (h.metric + OriginBytes(order, h.origin))
  }

  function ReadHit(order: ByteOrder, mld: bool, s: seq<byte>): (r: Outcome<Read<Hit>>)
    ensures r.Ok? ==> (r.value.value.origin.Some? <==> mld)
    ensures r.Ok? ==> EncodeHit(order, r.value.value) + r.value.rest == s
  {
    var docid :- ReadU32(order, s);
    var metric :- ReadHitRank(docid.rest);
    var origin :- ReadOrigin(order, mld, metric.rest);
    U32OfReadU32(order, s);
    ConcatAssoc(metric.value, OriginBytes(order, origin.value), origin.rest);
    ConcatAssoc(U32(order, docid.value), metric.value + OriginBytes(order, origin.value), origin.rest);
    Ok(Read(Hit(docid.value, metric.value, origin.value), origin.rest))
  }

  lemma ReadHitOf(order: ByteOrder, h: Hit, rest: seq<byte>)
    ensures ReadHit(order, h.origin.Some?, EncodeHit(order, h) + rest) == Ok(Read(h, rest))
  {
    var o := OriginBytes(order, h.origin);
    ConcatAssoc(h.metric, o, rest);
    ConcatAssoc(U32(order, h.docid), h.metric + o, rest);
    ReadU32OfU32(order, h.docid, h.metric + (o + rest));
    ReadHitRankOf(h.metric, o + rest);
    ReadOriginOf(order, h.origin, rest);
  }

  function HitWriter(order: ByteOrder): Hit -> seq<byte> {
    h => EncodeHit(order, h)
  }

  function HitReader(order: ByteOrder, mld: bool): seq<byte> -> Outcome<Read<Hit>> {
    s => ReadHit(order, mld, s)
  }

  function EncodeHits(order: ByteOrder, hits: seq<Hit>): seq<byte> {
    EncodeAll(HitWriter(order), hits)
  }

  /** Reads exactly `n` hits, all with or all without an origin. */
  function ReadHits(order: ByteOrder, n: nat, mld: bool, s: seq<byte>): (r: Outcome<Read<seq<Hit>>>)
    ensures r.Ok? ==> |r.value.value| == n && HitsMatch(r.value.value, mld)
    ensures r.Ok? ==> EncodeHits(order, r.value.value) + r.value.rest == s
  {
    ReadAllCanonical(HitReader(order, mld), HitWriter(order), n, s);
    ReadAllEach(HitReader(order, mld), (h: Hit) => h.origin.Some? <==> mld, n, s);
    ReadAll(HitReader(order, mld), n, s)
  }

  lemma ReadHitsOf(order: ByteOrder, hits: seq<Hit>, mld: bool, rest: seq<byte>)
    requires HitsMatch(hits, mld)
    ensures ReadHits(order, |hits|, mld, EncodeHits(order, hits) + rest) == Ok(Read(hits, rest))
  {
    forall i | 0 <= i < |hits|
      ensures ReadsBack(HitReader(order, mld), HitWriter(order), hits[i])
    {
      forall rest' {
        ReadHitOf(order, hits[i], rest');
      }
    }
    ReadAllOf(HitReader(order, mld), HitWriter(order), hits, rest);
  }

  /** Every hit has the same size: docid, rank, and the origin when MLD is on. */
  function HitSize(mld: bool): nat {
    4 + HIT_RANK_WIDTH + if mld then 8 else 0
  }

  lemma EncodeHitsLength(order: ByteOrder, hits: seq<Hit>, mld: bool)
    requires HitsMatch(hits, mld)
    ensures |EncodeHits(order, hits)| == |hits| * HitSize(mld)
  {
    EncodeAllLength(HitWriter(order), hits, HitSize(mld));
  }

  // ---------------------------------------------------------------------------
  // Optional sections

  function SortBytes(order: ByteOrder, o: Option<SortData>): (r: seq<byte>)
    ensures |r| == if o.Some? then 4 * |o.value.sortIndex| + |o.value.sortData| else 0
  {
    match o
    case None => []
    case Some(sd) => U32Array(order, sd.sortIndex) + sd.sortData
  }

  /** The sort section: `n` index entries, then as many data bytes as the last entry says. */
  function ReadSort(order: ByteOrder, present: bool, n: nat, s: seq<byte>): (r: Outcome<Read<Option<SortData>>>)
    ensures r.Ok? ==> (r.value.value.Some? <==> present)
    ensures r.Ok? && present ==>
              |r.value.value.value.sortIndex| == n &&
              |r.value.value.value.sortData| == SortDataLength(r.value.value.value.sortIndex)
    ensures r.Ok? ==> SortBytes(order, r.value.value) + r.value.rest == s
  {
    if !present then Ok(Read(None, s))
    else
      var index :- ReadU32Array(order, n, s);
      var data :- ReadBytes(index.rest, SortDataLength(index.value));
      ConcatAssoc(U32Array(order, index.value), data.value, data.rest);
      Ok(Read(Some(SortData(index.value, data.value)), data.rest))
  }

  lemma ReadSortOf(order: ByteOrder, o: Option<SortData>, n: nat, rest: seq<byte>)
    requires o.Some? ==> |o.value.sortIndex| == n && |o.value.sortData| == SortDataLength(o.value.sortIndex)
    ensures ReadSort(order, o.Some?, n, SortBytes(order, o) + rest) == Ok(Read(o, rest))
  {
    if o.Some? {
      var sd := o.value;
      ConcatAssoc(U32Array(order, sd.sortIndex), sd.sortData, rest);
      ReadU32ArrayOf(order, sd.sortIndex, sd.sortData + rest);
      ReadBytesOf(sd.sortData, rest);
    } else {
      assert SortBytes(order, o) + rest == rest;
    }
  }

  function CoverageBytes(order: ByteOrder, o: Option<Coverage>): (r: seq<byte>)
    ensures |r| == if o.Some? then 16 else 0
  {
    match o
    case None => []
    case Some(c) => U64(order, c.docs) + (U32(order, c.nodes) + U32(order, c.full))
  }

  function ReadCoverage(order: ByteOrder, present: bool, s: seq<byte>): (r: Outcome<Read<Option<Coverage>>>)
    ensures r.Ok? ==> (r.value.value.Some? <==> present)
    ensures r.Ok? ==> CoverageBytes(order, r.value.value) + r.value.rest == s
  {
    if !present then Ok(Read(None, s))
    else
      var docs :- ReadU64(order, s);
      var nodes :- ReadU32(order, docs.rest);
      var full :- ReadU32(order, nodes.rest);
      U64OfReadU64(order, s);
      U32OfReadU32(order, docs.rest);
      U32OfReadU32(order, nodes.rest);
      ConcatAssoc(U32(order, nodes.value), U32(order, full.value), full.rest);
      ConcatAssoc(U64(order, docs.value), U32(order, nodes.value) + U32(order, full.value), full.rest);
      Ok(Read(Some(Coverage(docs.value, nodes.value, full.value)), full.rest))
  }

  lemma ReadCoverageOf(order: ByteOrder, o: Option<Coverage>, rest: seq<byte>)
    ensures ReadCoverage(order, o.Some?, CoverageBytes(order, o) + rest) == Ok(Read(o, rest))
  {
    if o.Some? {
      var c := o.value;
      ConcatAssoc(U32(order, c.nodes), U32(order, c.full), rest);
      ConcatAssoc(U64(order, c.docs), U32(order, c.nodes) + U32(order, c.full), rest);
      ReadU64OfU64(order, c.docs, U32(order, c.nodes) + (U32(order, c.full) + rest));
      ReadU32OfU32(order, c.nodes, U32(order, c.full) + rest);
      ReadU32OfU32(order, c.full, rest);
    } else {
      assert CoverageBytes(order, o) + rest == rest;
    }
  }

  // ---------------------------------------------------------------------------
  // The whole body

  /** The sections after the sort data, read as one unit. */
  datatype Trailer = Trailer(aggrData: Option<seq<byte>>, groupData: Option<seq<byte>>,
                             coverage: Option<Coverage>, hits: seq<Hit>)

  predicate TrailerFits(t: Trailer) {
    (t.aggrData.Some? ==> FitsU32Length(t.aggrData.value)) &&
    (t.groupData.Some? ==> FitsU32Length(t.groupData.value))
  }

  predicate TrailerMatch(t: Trailer, l: Layout, numDocs: nat) {
    TrailerFits(t) &&
    (t.aggrData.Some? <==> l.aggrData) && (t.groupData.Some? <==> l.groupData) &&
    (t.coverage.Some? <==> l.coverage) && |t.hits| == numDocs && HitsMatch(t.hits, l.mld)
  }

  function TrailerBytes(order: ByteOrder, t: Trailer): seq<byte>
    requires TrailerFits(t)
  {
    OptionalBlob(order, t.aggrData) + (OptionalBlob(order, t.groupData) +
    (CoverageBytes(order, t.coverage) + EncodeHits(order, t.hits)))
  }

  function ReadTrailer(order: ByteOrder, l: Layout, numDocs: u32, s: seq<byte>): (r: Outcome<Read<Trailer>>)
    ensures r.Ok? ==> TrailerMatch(r.value.value, l, numDocs) && TrailerBytes(order, r.value.value) + r.value.rest == s
  {
    var aggr :- ReadOptionalBlob(order, l.aggrData, s);
    var group :- ReadOptionalBlob(order, l.groupData, aggr.rest);
    var coverage :- ReadCoverage(order, l.coverage, group.rest);
    var hits :- ReadHits(order, numDocs, l.mld, coverage.rest);
    var cb := CoverageBytes(order, coverage.value);
    var gb := OptionalBlob(order, group.value);
    var hb := EncodeHits(order, hits.value);
    ConcatAssoc(cb, hb, hits.rest);
    ConcatAssoc(gb, cb + hb, hits.rest);
    ConcatAssoc(OptionalBlob(order, aggr.value), gb + (cb + hb), hits.rest);
    Ok(Read(Trailer(aggr.value, group.value, coverage.value, hits.value), hits.rest))
  }

  /** How ReadTrailer puts together the results of its four stages. */
  lemma ReadTrailerSteps(order: ByteOrder, l: Layout, numDocs: u32, s: seq<byte>, aggr: Read<Option<seq<byte>>>,
                         group: Read<Option<seq<byte>>>, coverage: Read<Option<Coverage>>, hits: Read<seq<Hit>>)
    requires ReadOptionalBlob(order, l.aggrData, s) == Ok(aggr)
    requires ReadOptionalBlob(order, l.groupData, aggr.rest) == Ok(group)
    requires ReadCoverage(order, l.coverage, group.rest) == Ok(coverage)
    requires ReadHits(order, numDocs, l.mld, coverage.rest) == Ok(hits)
    ensures ReadTrailer(order, l, numDocs, s) == Ok(Read(Trailer(aggr.value, group.value, coverage.value, hits.value), hits.rest))
  {
  }

  lemma ReadTrailerOf(order: ByteOrder, t: Trailer, l: Layout, rest: seq<byte>)
    requires |t.hits| < U32Limit && TrailerMatch(t, l, |t.hits|)
    ensures ReadTrailer(order, l, |t.hits|, TrailerBytes(order, t) + rest) == Ok(Read(t, rest))
  {
    var cb := CoverageBytes(order, t.coverage);
    var gb := OptionalBlob(order, t.groupData);
    var hb := EncodeHits(order, t.hits);
    ConcatAssoc(cb, hb, rest);
    ConcatAssoc(gb, cb + hb, rest);
    ConcatAssoc(OptionalBlob(order, t.aggrData), gb + (cb + hb), rest);
    ReadOptionalBlobOf(order, t.aggrData, gb + (cb + (hb + rest)));
    ReadOptionalBlobOf(order, t.groupData, cb + (hb + rest));
    ReadCoverageOf(order, t.coverage, hb + rest);
    ReadHitsOf(order, t.hits, l.mld, rest);
    ReadTrailerSteps(order, l, |t.hits|, TrailerBytes(order, t) + rest, Read(t.aggrData, gb + (cb + (hb + rest))),
                     Read(t.groupData, cb + (hb + rest)), Read(t.coverage, hb + rest), Read(t.hits, rest));
  }

  function TrailerOf(q: QueryResultX): Trailer {
    Trailer(q.aggrData, q.groupData, q.coverage, q.hits)
  }

  /** Everything after the fixed fields: the optional sections, then the hits. */
  function Sections(order: ByteOrder, q: QueryResultX): seq<byte>
    requires BlobsFit(q)
  {
    SortBytes(order, q.sort) + TrailerBytes(order, TrailerOf(q))
  }

  /** A result holding only these sections; its fixed fields are cleared for the caller to fill in. */
  function FromSections(sort: Option<SortData>, t: Trailer): QueryResultX {
    QueryResultX(0, 0, 0, [0, 0, 0, 0, 0, 0, 0, 0], 0, sort, t.aggrData, t.groupData, t.coverage, t.hits)
  }

  /** A sort section and a trailer that match the layout make a result whose sections match it. */
  lemma FromSectionsMatch(order: ByteOrder, l: Layout, numDocs: u32, sort: Option<SortData>, t: Trailer)
    requires sort.Some? <==> l.sortData
    requires sort.Some? ==> |sort.value.sortIndex| == numDocs && |sort.value.sortData| == SortDataLength(sort.value.sortIndex)
    requires TrailerMatch(t, l, numDocs)
    ensures SectionsMatch(FromSections(sort, t), l) && |t.hits| == numDocs
    ensures Sections(order, FromSections(sort, t)) == SortBytes(order, sort) + TrailerBytes(order, t)
  {
    assert TrailerOf(FromSections(sort, t)) == t;
  }

  /**
   * Reads the sections the layout selects and the `numDocs` hits after them;
   * the fixed fields of the result are filled in by the caller.
   */
  function ReadSections(order: ByteOrder, l: Layout, numDocs: u32, s: seq<byte>): (r: Outcome<Read<QueryResultX>>)
    ensures r.Ok? ==> var q := r.value.value;
              SectionsMatch(q, l) && |q.hits| == numDocs && Sections(order, q) + r.value.rest == s
  {
    var sort :- ReadSort(order, l.sortData, numDocs, s);
    var trailer :- ReadTrailer(order, l, numDocs, sort.rest);
    FromSectionsMatch(order, l, numDocs, sort.value, trailer.value);
    ConcatAssoc(SortBytes(order, sort.value), TrailerBytes(order, trailer.value), trailer.rest);
    Ok(Read(FromSections(sort.value, trailer.value), trailer.rest))
  }

  /** The result with its fixed fields cleared, as ReadSections returns it. */
  function SectionsOnly(q: QueryResultX): QueryResultX {
    q.(flags := 0, offset := 0, totNumDocs := 0, maxRank := [0, 0, 0, 0, 0, 0, 0, 0], docstamp := 0)
  }

  /** How ReadSections puts together the sort section and the trailer. */
  lemma ReadSectionsSteps(order: ByteOrder, l: Layout, numDocs: u32, s: seq<byte>, sort: Read<Option<SortData>>,
                          trailer: Read<Trailer>)
    requires ReadSort(order, l.sortData, numDocs, s) == Ok(sort)
    requires ReadTrailer(order, l, numDocs, sort.rest) == Ok(trailer)
    ensures ReadSections(order, l, numDocs, s) == Ok(Read(FromSections(sort.value, trailer.value), trailer.rest))
  {
  }

  lemma ReadSectionsOf(order: ByteOrder, q: QueryResultX, l: Layout, rest: seq<byte>)
    requires SectionsMatch(q, l)
    ensures ReadSections(order, l, |q.hits|, Sections(order, q) + rest) == Ok(Read(SectionsOnly(q), rest))
  {
    var tb := TrailerBytes(order, TrailerOf(q));
    ConcatAssoc(SortBytes(order, q.sort), tb, rest);
    ReadSortOf(order, q.sort, |q.hits|, tb + rest);
    ReadTrailerOf(order, TrailerOf(q), l, rest);
    ReadSectionsSteps(order, l, |q.hits|, Sections(order, q) + rest, Read(q.sort, tb + rest), Read(TrailerOf(q), rest));
  }

  // ---------------------------------------------------------------------------
  // The fixed fields

  /**
   * The fields every query result starts with, in the legacy packets right
   * after the query id and in the extended packet right after the flags.
   */
  datatype ResultHeader = ResultHeader(offset: u32, numDocs: u32, totNumDocs: u32, maxRank: HitRank, docstamp: u32)

  function HeaderBytes(order: ByteOrder, h: ResultHeader): (r: seq<byte>)
    ensures |r| == 16 + HIT_RANK_WIDTH
  {
    U32(order, h.offset) + (U32(order, h.numDocs) + (U32(order, h.totNumDocs) + (h.maxRank + U32(order, h.docstamp))))
  }

  function ReadHeader(order: ByteOrder, s: seq<byte>): (r: Outcome<Read<ResultHeader>>)
    ensures r.Ok? ==> HeaderBytes(order, r.value.value) + r.value.rest == s
  {
    var offset :- ReadU32(order, s);
    var numDocs :- ReadU32(order, offset.rest);
    var totNumDocs :- ReadU32(order, numDocs.rest);
    var maxRank :- ReadHitRank(totNumDocs.rest);
    var docstamp :- ReadU32(order, maxRank.rest);
    U32OfReadU32(order, s);
    U32OfReadU32(order, offset.rest);
    U32OfReadU32(order, numDocs.rest);
    U32OfReadU32(order, maxRank.rest);
    var h := ResultHeader(offset.value, numDocs.value, totNumDocs.value, maxRank.value, docstamp.value);
    var d := U32(order, h.docstamp);
    ConcatAssoc(h.maxRank, d, docstamp.rest);
    ConcatAssoc(U32(order, h.totNumDocs), h.maxRank + d, docstamp.rest);
    ConcatAssoc(U32(order, h.numDocs), U32(order, h.totNumDocs) + (h.maxRank + d), docstamp.rest);
    ConcatAssoc(U32(order, h.offset), U32(order, h.numDocs) + (U32(order, h.totNumDocs) + (h.maxRank + d)), docstamp.rest);
    Ok(Read(h, docstamp.rest))
  }

  lemma ReadHeaderOf(order: ByteOrder, h: ResultHeader, rest: seq<byte>)
    ensures ReadHeader(order, HeaderBytes(order, h) + rest) == Ok(Read(h, rest))
  {
    var d := U32(order, h.docstamp);
    ConcatAssoc(h.maxRank, d, rest);
    ConcatAssoc(U32(order, h.totNumDocs), h.maxRank + d, rest);
    ConcatAssoc(U32(order, h.numDocs), U32(order, h.totNumDocs) + (h.maxRank + d), rest);
    ConcatAssoc(U32(order, h.offset), U32(order, h.numDocs) + (U32(order, h.totNumDocs) + (h.maxRank + d)), rest);
    ReadU32OfU32(order, h.offset, U32(order, h.numDocs) + (U32(order, h.totNumDocs) + (h.maxRank + (d + rest))));
    ReadU32OfU32(order, h.numDocs, U32(order, h.totNumDocs) + (h.maxRank + (d + rest)));
    ReadU32OfU32(order, h.totNumDocs, h.maxRank + (d + rest));
    ReadHitRankOf(h.maxRank, d + rest);
    ReadU32OfU32(order, h.docstamp, rest);
  }

  // ---------------------------------------------------------------------------
  // PCODE_QUERYRESULTX

  /** The fixed fields of a result, with numDocs the number of hits it carries. */
  function HeaderOf(q: QueryResultX): ResultHeader
    requires |q.hits| < U32Limit
  {
    ResultHeader(q.offset, |q.hits|, q.totNumDocs, q.maxRank, q.docstamp)
  }

  /**
   * The PCODE_QUERYRESULTX body: featureflags, offset, numDocs, totNumDocs,
   * maxRank and docstamp, then the sections the flags select, then the hits.
   */
  function EncodeQueryResultX(order: ByteOrder, q: QueryResultX): seq<byte>
    requires WellFormed(q)
  {
    U32(order, q.flags) + (HeaderBytes(order, HeaderOf(q)) + Sections(order, q))
  }

  /**
   * Decodes a PCODE_QUERYRESULTX body from the front of `s`. Flags with an
   * unsupported feature discard the packet; otherwise the flags select the
   * sections that are read. What is decoded is well formed and encodes back
   * to exactly the bytes it was read from.
   */
  function DecodeQueryResultX(order: ByteOrder, s: seq<byte>): (r: Outcome<Read<QueryResultX>>)
    ensures r.Ok? ==> WellFormed(r.value.value) && EncodeQueryResultX(order, r.value.value) + r.value.rest == s
  {
    var flags :- ReadFeatureFlags(order, s, QRF_SUPPORTED_MASK);
    var header :- ReadHeader(order, flags.rest);
    var sections :- ReadSections(order, LayoutOf(flags.value), header.value.numDocs, header.rest);
    var h := header.value;
    var q := sections.value.(flags := flags.value, offset := h.offset, totNumDocs := h.totNumDocs,
                             maxRank := h.maxRank, docstamp := h.docstamp);
    assert HeaderOf(q) == h;
    assert Sections(order, q) == Sections(order, sections.value);
    ConcatAssoc(HeaderBytes(order, h), Sections(order, q), sections.rest);
    ConcatAssoc(U32(order, q.flags), HeaderBytes(order, h) + Sections(order, q), sections.rest);
    Ok(Read(q, sections.rest))
  }

  /** Round trip: a well-formed result decodes to itself and leaves what follows untouched. */
  lemma DecodeEncodedQueryResultX(order: ByteOrder, q: QueryResultX, rest: seq<byte>)
    requires WellFormed(q)
    ensures DecodeQueryResultX(order, EncodeQueryResultX(order, q) + rest) == Ok(Read(q, rest))
  {
    var hb := HeaderBytes(order, HeaderOf(q));
    var sb := Sections(order, q);
    ConcatAssoc(hb, sb, rest);
    ConcatAssoc(U32(order, q.flags), hb + sb, rest);
    ReadFeatureFlagsOf(order, q.flags, QRF_SUPPORTED_MASK, hb + (sb + rest));
    ReadHeaderOf(order, HeaderOf(q), sb + rest);
    ReadSectionsOf(order, q, LayoutOf(q.flags), rest);
  }

  /** A result whose flags name a feature outside the supported mask is discarded. */
  lemma UnsupportedQueryResultRejected(order: ByteOrder, flags: u32, rest: seq<byte>)
    requires !FlagsSupported(flags, QRF_SUPPORTED_MASK)
    ensures DecodeQueryResultX(order, U32(order, flags) + rest) == Fail(UnsupportedFeatureFlag)
  {
    UnsupportedFlagsRejected(order, flags, QRF_SUPPORTED_MASK, rest);
  }

  /**
   * The size of the body: flags and fixed fields, each section the flags
   * select, and one fixed-size record per hit.
   */
  lemma QueryResultXSize(order: ByteOrder, q: QueryResultX)
    requires WellFormed(q)
    ensures |EncodeQueryResultX(order, q)| ==
            4 + 16 + HIT_RANK_WIDTH +
            (if q.sort.Some? then 4 * |q.hits| + |q.sort.value.sortData| else 0) +
            (if q.aggrData.Some? then 4 + |q.aggrData.value| else 0) +
            (if q.groupData.Some? then 4 + |q.groupData.value| else 0) +
            (if q.coverage.Some? then 16 else 0) +
            |q.hits| * HitSize(HasFeature(q.flags, QRF_MLD))
  {
    EncodeHitsLength(order, q.hits, HasFeature(q.flags, QRF_MLD));
  }

  /** QRF_COVERAGE is supported, so switching it on keeps a result's flags acceptable. */
  lemma CoverageKeepsSupport(flags: u32)
    ensures FlagsSupported(WithFeature(flags, QRF_COVERAGE), QRF_SUPPORTED_MASK) == FlagsSupported(flags, QRF_SUPPORTED_MASK)
  {
    GrowingFeaturesSupported();
    SetBitKeepsSupport(flags as bv32, WithFeature(flags, QRF_COVERAGE) as bv32, QRF_COVERAGE, QRF_SUPPORTED_MASK);
  }

  /** Switching QRF_COVERAGE on selects the same other sections as before. */
  lemma CoverageKeepsLayout(flags: u32)
    ensures LayoutOf(WithFeature(flags, QRF_COVERAGE)) == LayoutOf(flags).(coverage := true)
  {
    var x := flags as bv32;
    SetBitKeepsOthers(x, QRF_COVERAGE, QRF_SORTDATA);
    SetBitKeepsOthers(x, QRF_COVERAGE, QRF_AGGRDATA);
    SetBitKeepsOthers(x, QRF_COVERAGE, QRF_GROUPDATA);
    SetBitKeepsOthers(x, QRF_COVERAGE, QRF_MLD);
  }

  /** Switching QRF_COVERAGE on and adding the coverage figures keeps a result well formed. */
  lemma CoverageKeepsWellFormed(q: QueryResultX, c: Coverage)
    requires WellFormed(q)
    ensures WellFormed(q.(flags := WithFeature(q.flags, QRF_COVERAGE), coverage := Some(c)))
  {
    CoverageKeepsSupport(q.flags);
    CoverageKeepsLayout(q.flags);
  }

  /**
   * Switching QRF_COVERAGE on, and adding the coverage figures, keeps the
   * result well formed and makes it exactly 8 + 4 + 4 bytes longer.
   */
  lemma CoverageAddsSixteenBytes(order: ByteOrder, q: QueryResultX, c: Coverage)
    requires WellFormed(q) && !HasFeature(q.flags, QRF_COVERAGE)
    ensures var w := q.(flags := WithFeature(q.flags, QRF_COVERAGE), coverage := Some(c));
            WellFormed(w) && |EncodeQueryResultX(order, w)| == |EncodeQueryResultX(order, q)| + 16
  {
    var w := q.(flags := WithFeature(q.flags, QRF_COVERAGE), coverage := Some(c));
    CoverageKeepsWellFormed(q, c);
    CoverageKeepsLayout(q.flags);
    QueryResultXSize(order, q);
    QueryResultXSize(order, w);
  }

  // ---------------------------------------------------------------------------
  // The legacy PCODE_QUERYRESULT and PCODE_MLD_QUERYRESULT bodies

  /**
   * A legacy result: the fixed fields and the hits, with a partition id and
   * docstamp on each hit in the MLD variant and nothing else.
   */
  datatype LegacyQueryResult = LegacyQueryResult(offset: u32, totNumDocs: u32, maxRank: HitRank, docstamp: u32, hits: seq<Hit>)

  predicate LegacyWellFormed(r: LegacyQueryResult, mld: bool) {
    |r.hits| < U32Limit && HitsMatch(r.hits, mld)
  }

  function EncodeLegacyQueryResult(order: ByteOrder, r: LegacyQueryResult): seq<byte>
    requires |r.hits| < U32Limit
  {
    HeaderBytes(order, ResultHeader(r.offset, |r.hits|, r.totNumDocs, r.maxRank, r.docstamp)) + EncodeHits(order, r.hits)
  }

  function DecodeLegacyQueryResult(order: ByteOrder, mld: bool, s: seq<byte>): (r: Outcome<Read<LegacyQueryResult>>)
    ensures r.Ok? ==> LegacyWellFormed(r.value.value, mld) && EncodeLegacyQueryResult(order, r.value.value) + r.value.rest == s
  {
    var header :- ReadHeader(order, s);
    var hits :- ReadHits(order, header.value.numDocs, mld, header.rest);
    var h := header.value;
    ConcatAssoc(HeaderBytes(order, h), EncodeHits(order, hits.value), hits.rest);
    Ok(Read(LegacyQueryResult(h.offset, h.totNumDocs, h.maxRank, h.docstamp, hits.value), hits.rest))
  }

  lemma DecodeEncodedLegacyQueryResult(order: ByteOrder, r: LegacyQueryResult, mld: bool, rest: seq<byte>)
    requires LegacyWellFormed(r, mld)
    ensures DecodeLegacyQueryResult(order, mld, EncodeLegacyQueryResult(order, r) + rest) == Ok(Read(r, rest))
  {
    var h := ResultHeader(r.offset, |r.hits|, r.totNumDocs, r.maxRank, r.docstamp);
    ConcatAssoc(HeaderBytes(order, h), EncodeHits(order, r.hits), rest);
    ReadHeaderOf(order, h, EncodeHits(order, r.hits) + rest);
    ReadHitsOf(order, r.hits, mld, rest);
  }

  /** The featureflags value that makes an extended result byte-compatible with a legacy one. */
  function LegacyFlags(mld: bool): (f: u32)
    ensures FlagsSupported(f, QRF_SUPPORTED_MASK)
    ensures LayoutOf(f) == Layout(false, false, false, false, mld)
  {
    if mld then QRF_MLD_QUERYRESULT_MASK as u32 else QRF_QUERYRESULT_MASK as u32
  }

  function FromLegacy(r: LegacyQueryResult, mld: bool): QueryResultX {
    QueryResultX(LegacyFlags(mld), r.offset, r.totNumDocs, r.maxRank, r.docstamp, None, None, None, None, r.hits)
  }

  /**
   * Binary compatibility, encoding side: a legacy result is the extended
   * result with the legacy flags, minus the flags field.
   */
  lemma LegacyQueryResultCompatible(order: ByteOrder, r: LegacyQueryResult, mld: bool)
    requires LegacyWellFormed(r, mld)
    ensures WellFormed(FromLegacy(r, mld))
    ensures EncodeQueryResultX(order, FromLegacy(r, mld)) == U32(order, LegacyFlags(mld)) + EncodeLegacyQueryResult(order, r)
  {
    var q := FromLegacy(r, mld);
    assert Sections(order, q) == EncodeHits(order, r.hits);
  }

  /** What the extended decoder makes of a legacy decoding outcome. */
  function AsExtended(d: Outcome<Read<LegacyQueryResult>>, mld: bool): Outcome<Read<QueryResultX>> {
    match d
    case Ok(x) => Ok(Read(FromLegacy(x.value, mld), x.rest))
    case Fail(e) => Fail(e)
  }

  /**
   * Binary compatibility, decoding side: behind the legacy flags, the
   * extended decoder accepts exactly what the legacy decoder accepts, with
   * the same result and the same error.
   */
  lemma LegacyQueryResultDecodes(order: ByteOrder, mld: bool, s: seq<byte>)
    ensures DecodeQueryResultX(order, U32(order, LegacyFlags(mld)) + s) == AsExtended(DecodeLegacyQueryResult(order, mld, s), mld)
  {
    ReadFeatureFlagsOf(order, LegacyFlags(mld), QRF_SUPPORTED_MASK, s);
    var header := ReadHeader(order, s);
    if header.Ok? {
      LegacySectionsAreHits(order, mld, header.value.value.numDocs, header.value.rest);
    }
  }

  /** With only the MLD feature possibly on, the sections are just the hits. */
  lemma LegacySectionsAreHits(order: ByteOrder, mld: bool, n: u32, s: seq<byte>)
    ensures var r := ReadSections(order, Layout(false, false, false, false, mld), n, s);
            var hits := ReadHits(order, n, mld, s);
            (r.Ok? <==> hits.Ok?) &&
            (r.Ok? ==> r.value.value == QueryResultX(0, 0, 0, [0, 0, 0, 0, 0, 0, 0, 0], 0, None, None, None, None, hits.value.value) &&
                       r.value.rest == hits.value.rest) &&
            (r.Fail? ==> r.error == hits.error)
  {
    LegacyTrailerIsHits(order, mld, n, s);
  }

  lemma LegacyTrailerIsHits(order: ByteOrder, mld: bool, n: u32, s: seq<byte>)
    ensures var r := ReadTrailer(order, Layout(false, false, false, false, mld), n, s);
            var hits := ReadHits(order, n, mld, s);
            (r.Ok? <==> hits.Ok?) &&
            (r.Ok? ==> r.value.value == Trailer(None, None, None, hits.value.value) && r.value.rest == hits.value.rest) &&
            (r.Fail? ==> r.error == hits.error)
  {
  }
}
