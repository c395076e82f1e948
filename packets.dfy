/**
 * Whole packets: a frame whose code selects the body codec. A body must fill
 * its frame's data exactly; bytes left over after a body are TrailingBytes.
 * Codes without a body codec here carry their data as opaque bytes.
 */
module Packets {
  import opened Results
  import opened Wire
  import opened PacketCodes
  import Framing
  import ParsedQuery
  import QueryResult
  import GetDocsums
  import Monitor

  /** The body of a packet, one variant per body codec, and the opaque rest. */
  datatype Body =
    | QueryResultBody(mld: bool, result: QueryResult.LegacyQueryResult)
    | GetDocsumsBody(mld: bool, request: GetDocsums.LegacyGetDocsums)
    | MonitorQueryBody
    | MonitorResultBody(monitor: Monitor.LegacyMonitorResult)
    | ParsedQuery2Body(query: ParsedQuery.ParsedQuery2)
    | QueryResultXBody(resultX: QueryResult.QueryResultX)
    | GetDocsumsXBody(requestX: GetDocsums.GetDocsumsX)
    | MonitorQueryXBody
    | MonitorResultXBody(monitorX: Monitor.MonitorResultX)
    | Opaque(code: u32, data: seq<byte>)

  /** The codes whose body is decoded field by field. */
  predicate HasBodyCodec(code: u32) {
    || code == PCODE_QUERYRESULT || code == PCODE_MLD_QUERYRESULT
    || code == PCODE_GETDOCSUMS || code == PCODE_MLD_GETDOCSUMS
    || code == PCODE_MONITORQUERY
    || code == PCODE_MONITORRESULT || code == PCODE_MLD_MONITORRESULT
    || code == PCODE_PARSEDQUERY2 || code == PCODE_QUERYRESULTX || code == PCODE_GETDOCSUMSX
    || code == PCODE_MONITORQUERYX || code == PCODE_MONITORRESULTX
  }

  /** The packet code a body travels under. */
  function CodeOf(b: Body): u32 {
    match b
    case QueryResultBody(mld, _) => if mld then PCODE_MLD_QUERYRESULT else PCODE_QUERYRESULT
    case GetDocsumsBody(mld, _) => if mld then PCODE_MLD_GETDOCSUMS else PCODE_GETDOCSUMS
    case MonitorQueryBody => PCODE_MONITORQUERY
    case MonitorResultBody(m) => if m.counts.Some? then PCODE_MLD_MONITORRESULT else PCODE_MONITORRESULT
    case ParsedQuery2Body(_) => PCODE_PARSEDQUERY2
    case QueryResultXBody(_) => PCODE_QUERYRESULTX
    case GetDocsumsXBody(_) => PCODE_GETDOCSUMSX
    case MonitorQueryXBody => PCODE_MONITORQUERYX
    case MonitorResultXBody(_) => PCODE_MONITORRESULTX
    case Opaque(code, _) => code
  }

  predicate BodyWellFormed(b: Body) {
    match b
    case QueryResultBody(mld, r) => QueryResult.LegacyWellFormed(r, mld)
    case GetDocsumsBody(mld, r) => GetDocsums.DocsMatch(r.docs, mld)
    case MonitorQueryBody => true
    case MonitorResultBody(_) => true
    case ParsedQuery2Body(q) => ParsedQuery.WellFormed(q)
    case QueryResultXBody(q) => QueryResult.WellFormed(q)
    case GetDocsumsXBody(g) => GetDocsums.WellFormed(g)
    case MonitorQueryXBody => true
    case MonitorResultXBody(m) => Monitor.WellFormed(m)
    case Opaque(code, _) => IsKnownCode(code) && !HasBodyCodec(code)
  }

  function EncodeBody(order: ByteOrder, b: Body): seq<byte>
    requires BodyWellFormed(b)
  {
    match b
    case QueryResultBody(_, r) => QueryResult.EncodeLegacyQueryResult(order, r)
    case GetDocsumsBody(_, r) => GetDocsums.EncodeLegacyGetDocsums(order, r)
    case MonitorQueryBody => []
    case MonitorResultBody(m) => Monitor.EncodeLegacyMonitorResult(order, m)
    case ParsedQuery2Body(q) => ParsedQuery.EncodeParsedQuery2(order, q)
    case QueryResultXBody(q) => QueryResult.EncodeQueryResultX(order, q)
    case GetDocsumsXBody(g) => GetDocsums.EncodeGetDocsumsX(order, g)
    case MonitorQueryXBody => Monitor.EncodeMonitorQueryX(order, 0)
    case MonitorResultXBody(m) => Monitor.EncodeMonitorResultX(order, m)
    case Opaque(_, data) => data
  }

  /** A body read from the front of the data must be all of it. */
  function Whole<T>(d: Read<T>): (r: Outcome<T>)
    ensures r.Ok? <==> d.rest == []
    ensures r.Ok? ==> r.value == d.value
    ensures r.Fail? ==> r.error == TrailingBytes
  {
    if d.rest != [] then Fail(TrailingBytes) else Ok(d.value)
  }

  /** The outcome a body codec must give for a body followed by `extra` bytes. */
  function Expected(b: Body, extra: seq<byte>): Outcome<Body> {
    if extra == [] then Ok(b) else Fail(TrailingBytes)
  }

  // One decoder per family; each must use up the data.

  function QueryResultBodyOf(order: ByteOrder, mld: bool, data: seq<byte>): (r: Outcome<Body>)
    ensures r.Ok? ==> r.value.QueryResultBody? && r.value.mld == mld &&
                      QueryResult.LegacyWellFormed(r.value.result, mld) &&
                      QueryResult.EncodeLegacyQueryResult(order, r.value.result) == data
  {
    var d :- QueryResult.DecodeLegacyQueryResult(order, mld, data);
    var x :- Whole(d);
    Ok(QueryResultBody(mld, x))
  }

  lemma QueryResultBodyRoundTrip(order: ByteOrder, mld: bool, x: QueryResult.LegacyQueryResult, extra: seq<byte>)
    requires QueryResult.LegacyWellFormed(x, mld)
    ensures QueryResultBodyOf(order, mld, QueryResult.EncodeLegacyQueryResult(order, x) + extra) ==
            Expected(QueryResultBody(mld, x), extra)
  {
    QueryResult.DecodeEncodedLegacyQueryResult(order, x, mld, extra);
  }

  function GetDocsumsBodyOf(order: ByteOrder, mld: bool, data: seq<byte>): (r: Outcome<Body>)
    ensures r.Ok? ==> r.value.GetDocsumsBody? && r.value.mld == mld &&
                      GetDocsums.DocsMatch(r.value.request.docs, mld) &&
                      GetDocsums.EncodeLegacyGetDocsums(order, r.value.request) == data
  {
    var x :- GetDocsums.DecodeLegacyGetDocsums(order, mld, data);
    Ok(GetDocsumsBody(mld, x))
  }

  lemma GetDocsumsBodyRoundTrip(order: ByteOrder, mld: bool, x: GetDocsums.LegacyGetDocsums)
    requires GetDocsums.DocsMatch(x.docs, mld)
    ensures GetDocsumsBodyOf(order, mld, GetDocsums.EncodeLegacyGetDocsums(order, x)) == Ok(GetDocsumsBody(mld, x))
  {
    GetDocsums.DecodeEncodedLegacyGetDocsums(order, x, mld);
  }

  function MonitorResultBodyOf(order: ByteOrder, mld: bool, data: seq<byte>): (r: Outcome<Body>)
    ensures r.Ok? ==> r.value.MonitorResultBody? && (r.value.monitor.counts.Some? <==> mld) &&
                      Monitor.EncodeLegacyMonitorResult(order, r.value.monitor) == data
  {
    var d :- Monitor.DecodeLegacyMonitorResult(order, mld, data);
    var x :- Whole(d);
    Ok(MonitorResultBody(x))
  }

  lemma MonitorResultBodyRoundTrip(order: ByteOrder, x: Monitor.LegacyMonitorResult, extra: seq<byte>)
    ensures MonitorResultBodyOf(order, x.counts.Some?, Monitor.EncodeLegacyMonitorResult(order, x) + extra) ==
            Expected(MonitorResultBody(x), extra)
  {
    Monitor.DecodeEncodedLegacyMonitorResult(order, x, extra);
  }

  function ParsedQuery2BodyOf(order: ByteOrder, data: seq<byte>): (r: Outcome<Body>)
    ensures r.Ok? ==> r.value.ParsedQuery2Body? && ParsedQuery.WellFormed(r.value.query) &&
                      ParsedQuery.EncodeParsedQuery2(order, r.value.query) == data
  {
    var d :- ParsedQuery.DecodeParsedQuery2(order, data);
    var x :- Whole(d);
    Ok(ParsedQuery2Body(x))
  }

  lemma ParsedQuery2BodyRoundTrip(order: ByteOrder, x: ParsedQuery.ParsedQuery2, extra: seq<byte>)
    requires ParsedQuery.WellFormed(x)
    ensures ParsedQuery2BodyOf(order, ParsedQuery.EncodeParsedQuery2(order, x) + extra) ==
            Expected(ParsedQuery2Body(x), extra)
  {
    ParsedQuery.DecodeEncodedParsedQuery2(order, x, extra);
  }

  function QueryResultXBodyOf(order: ByteOrder, data: seq<byte>): (r: Outcome<Body>)
    ensures r.Ok? ==> r.value.QueryResultXBody? && QueryResult.WellFormed(r.value.resultX) &&
                      QueryResult.EncodeQueryResultX(order, r.value.resultX) == data
  {
    var d :- QueryResult.DecodeQueryResultX(order, data);
    var x :- Whole(d);
    Ok(QueryResultXBody(x))
  }

  lemma QueryResultXBodyRoundTrip(order: ByteOrder, x: QueryResult.QueryResultX, extra: seq<byte>)
    requires QueryResult.WellFormed(x)
    ensures QueryResultXBodyOf(order, QueryResult.EncodeQueryResultX(order, x) + extra) ==
            Expected(QueryResultXBody(x), extra)
  {
    QueryResult.DecodeEncodedQueryResultX(order, x, extra);
  }

  function GetDocsumsXBodyOf(order: ByteOrder, data: seq<byte>): (r: Outcome<Body>)
    ensures r.Ok? ==> r.value.GetDocsumsXBody? && GetDocsums.WellFormed(r.value.requestX) &&
                      GetDocsums.EncodeGetDocsumsX(order, r.value.requestX) == data
  {
    var x :- GetDocsums.DecodeGetDocsumsX(order, data);
    Ok(GetDocsumsXBody(x))
  }

  lemma GetDocsumsXBodyRoundTrip(order: ByteOrder, x: GetDocsums.GetDocsumsX)
    requires GetDocsums.WellFormed(x)
    ensures GetDocsumsXBodyOf(order, GetDocsums.EncodeGetDocsumsX(order, x)) == Ok(GetDocsumsXBody(x))
  {
    GetDocsums.DecodeEncodedGetDocsumsX(order, x);
  }

  function MonitorQueryXBodyOf(order: ByteOrder, data: seq<byte>): (r: Outcome<Body>)
    ensures r.Ok? ==> r.value == MonitorQueryXBody && Monitor.EncodeMonitorQueryX(order, 0) == data
  {
    var d :- Monitor.DecodeMonitorQueryX(order, data);
    var _ :- Whole(d);
    Ok(MonitorQueryXBody)
  }

  lemma MonitorQueryXBodyRoundTrip(order: ByteOrder, extra: seq<byte>)
    ensures MonitorQueryXBodyOf(order, Monitor.EncodeMonitorQueryX(order, 0) + extra) == Expected(MonitorQueryXBody, extra)
  {
    Monitor.DecodeEncodedMonitorQueryX(order, extra);
  }

  function MonitorResultXBodyOf(order: ByteOrder, data: seq<byte>): (r: Outcome<Body>)
    ensures r.Ok? ==> r.value.MonitorResultXBody? && Monitor.WellFormed(r.value.monitorX) &&
                      Monitor.EncodeMonitorResultX(order, r.value.monitorX) == data
  {
    var d :- Monitor.DecodeMonitorResultX(order, data);
    var x :- Whole(d);
    Ok(MonitorResultXBody(x))
  }

  lemma MonitorResultXBodyRoundTrip(order: ByteOrder, x: Monitor.MonitorResultX, extra: seq<byte>)
    requires Monitor.WellFormed(x)
    ensures MonitorResultXBodyOf(order, Monitor.EncodeMonitorResultX(order, x) + extra) ==
            Expected(MonitorResultXBody(x), extra)
  {
    Monitor.DecodeEncodedMonitorResultX(order, x, extra);
  }

  /**
   * Decodes the data of a frame with the body codec its code selects. The body
   * must use up the data; a code outside the enumeration is UnknownCode.
   */
  function DecodeBody(order: ByteOrder, code: u32, data: seq<byte>): (r: Outcome<Body>)
    ensures r.Ok? ==> BodyWellFormed(r.value) && CodeOf(r.value) == code && EncodeBody(order, r.value) == data
  {
    if !IsKnownCode(code) then Fail(UnknownCode)
    else if !HasBodyCodec(code) then Ok(Opaque(code, data))
    else if code < PCODE_PARSEDQUERY2 then DecodeLegacyBody(order, code, data)
    else DecodeExtendedBody(order, code, data)
  }

  /** The codes of the first protocol version. */
  function DecodeLegacyBody(order: ByteOrder, code: u32, data: seq<byte>): (r: Outcome<Body>)
    ensures r.Ok? ==> BodyWellFormed(r.value) && CodeOf(r.value) == code && EncodeBody(order, r.value) == data
  {
    if code == PCODE_MONITORRESULT || code == PCODE_MLD_MONITORRESULT then
      MonitorResultBodyOf(order, code == PCODE_MLD_MONITORRESULT, data)
    else if code == PCODE_QUERYRESULT || code == PCODE_MLD_QUERYRESULT then
      QueryResultBodyOf(order, code == PCODE_MLD_QUERYRESULT, data)
    else if code == PCODE_GETDOCSUMS || code == PCODE_MLD_GETDOCSUMS then
      GetDocsumsBodyOf(order, code == PCODE_MLD_GETDOCSUMS, data)
    else if code == PCODE_MONITORQUERY then
      if data != [] then Fail(TrailingBytes) else Ok(MonitorQueryBody)
    else
      Fail(UnknownCode)
  }

  /** The codes that carry feature flags, and the parsed query. */
  function DecodeExtendedBody(order: ByteOrder, code: u32, data: seq<byte>): (r: Outcome<Body>)
    ensures r.Ok? ==> BodyWellFormed(r.value) && CodeOf(r.value) == code && EncodeBody(order, r.value) == data
  {
    if code <= PCODE_QUERYRESULTX then
      if code == PCODE_PARSEDQUERY2 then ParsedQuery2BodyOf(order, data)
      else if code == PCODE_QUERYRESULTX then QueryResultXBodyOf(order, data)
      else Fail(UnknownCode)
    else
      if code == PCODE_MONITORRESULTX then MonitorResultXBodyOf(order, data)
      else if code == PCODE_GETDOCSUMSX then GetDocsumsXBodyOf(order, data)
      else if code == PCODE_MONITORQUERYX then MonitorQueryXBodyOf(order, data)
      else Fail(UnknownCode)
  }

  // ---------------------------------------------------------------------------
  // Packets

  /** A packet: the query id of its frame, and its body, which fixes its code. */
  datatype Packet = Packet(queryId: Option<u32>, body: Body)

  function FrameOf(order: ByteOrder, p: Packet): Framing.Frame
    requires BodyWellFormed(p.body)
  {
    Framing.Frame(CodeOf(p.body), p.queryId, EncodeBody(order, p.body))
  }

  /** A packet that can be sent on a connection of the given kind. */
  predicate WellFormed(order: ByteOrder, p: Packet, persistent: bool) {
    BodyWellFormed(p.body) && Framing.WellFormed(FrameOf(order, p), persistent)
  }

  function Encode(order: ByteOrder, p: Packet, persistent: bool): seq<byte>
    requires WellFormed(order, p, persistent)
  {
    Framing.EncodeFrame(order, FrameOf(order, p))
  }

  /**
   * Decodes one packet from the front of a stream: its frame, then its body
   * from exactly the frame's data. Returns the bytes after the frame.
   */
  function Decode(order: ByteOrder, s: seq<byte>, persistent: bool): (r: Outcome<Read<Packet>>)
    ensures r.Ok? ==> WellFormed(order, r.value.value, persistent) &&
                      Encode(order, r.value.value, persistent) + r.value.rest == s
  {
    var f :- Framing.DecodeFrame(order, s, persistent);
    var b :- DecodeBody(order, f.value.code, f.value.data);
    var p := Packet(f.value.queryId, b);
    assert FrameOf(order, p) == f.value;
    Ok(Read(p, f.rest))
  }

  // ---------------------------------------------------------------------------
  // Properties

  /** A code outside the enumeration has no body codec and no opaque body either. */
  lemma UnknownBodyRejected(order: ByteOrder, code: u32, data: seq<byte>)
    requires !IsKnownCode(code)
    ensures DecodeBody(order, code, data) == Fail(UnknownCode)
  {
  }

  /** A known code without a body codec keeps its data as it came. */
  lemma OpaqueBodyKept(order: ByteOrder, code: u32, data: seq<byte>)
    requires IsKnownCode(code) && !HasBodyCodec(code)
    ensures DecodeBody(order, code, data) == Ok(Opaque(code, data))
  {
  }

  // DecodeBody hands each code with a body codec to its family decoder.

  lemma LegacyDispatch(order: ByteOrder, code: u32, data: seq<byte>)
    requires HasBodyCodec(code) && code < PCODE_PARSEDQUERY2
    ensures DecodeBody(order, code, data) == DecodeLegacyBody(order, code, data)
  {
  }

  lemma ExtendedDispatch(order: ByteOrder, code: u32, data: seq<byte>)
    requires HasBodyCodec(code) && code >= PCODE_PARSEDQUERY2
    ensures DecodeBody(order, code, data) == DecodeExtendedBody(order, code, data)
  {
  }

  lemma QueryResultDispatch(order: ByteOrder, mld: bool, data: seq<byte>)
    ensures DecodeBody(order, if mld then PCODE_MLD_QUERYRESULT else PCODE_QUERYRESULT, data) ==
            QueryResultBodyOf(order, mld, data)
  {
    var code := if mld then PCODE_MLD_QUERYRESULT else PCODE_QUERYRESULT;
    LegacyDispatch(order, code, data);
  }

  lemma GetDocsumsDispatch(order: ByteOrder, mld: bool, data: seq<byte>)
    ensures DecodeBody(order, if mld then PCODE_MLD_GETDOCSUMS else PCODE_GETDOCSUMS, data) ==
            GetDocsumsBodyOf(order, mld, data)
  {
    var code := if mld then PCODE_MLD_GETDOCSUMS else PCODE_GETDOCSUMS;
    LegacyDispatch(order, code, data);
  }

  lemma MonitorResultDispatch(order: ByteOrder, mld: bool, data: seq<byte>)
    ensures DecodeBody(order, if mld then PCODE_MLD_MONITORRESULT else PCODE_MONITORRESULT, data) ==
            MonitorResultBodyOf(order, mld, data)
  {
    var code := if mld then PCODE_MLD_MONITORRESULT else PCODE_MONITORRESULT;
    LegacyDispatch(order, code, data);
  }

  lemma ParsedQuery2Dispatch(order: ByteOrder, data: seq<byte>)
    ensures DecodeBody(order, PCODE_PARSEDQUERY2, data) == ParsedQuery2BodyOf(order, data)
  {
    ExtendedDispatch(order, PCODE_PARSEDQUERY2, data);
  }

  lemma QueryResultXDispatch(order: ByteOrder, data: seq<byte>)
    ensures DecodeBody(order, PCODE_QUERYRESULTX, data) == QueryResultXBodyOf(order, data)
  {
    ExtendedDispatch(order, PCODE_QUERYRESULTX, data);
  }

  lemma GetDocsumsXDispatch(order: ByteOrder, data: seq<byte>)
    ensures DecodeBody(order, PCODE_GETDOCSUMSX, data) == GetDocsumsXBodyOf(order, data)
  {
    ExtendedDispatch(order, PCODE_GETDOCSUMSX, data);
  }

  lemma MonitorQueryXDispatch(order: ByteOrder, data: seq<byte>)
    ensures DecodeBody(order, PCODE_MONITORQUERYX, data) == MonitorQueryXBodyOf(order, data)
  {
    ExtendedDispatch(order, PCODE_MONITORQUERYX, data);
  }

  lemma MonitorResultXDispatch(order: ByteOrder, data: seq<byte>)
    ensures DecodeBody(order, PCODE_MONITORRESULTX, data) == MonitorResultXBodyOf(order, data)
  {
    ExtendedDispatch(order, PCODE_MONITORRESULTX, data);
  }

  /**
   * Each body codec reads back the body it wrote. Bytes after a body that is
   * read from the front of the data are TrailingBytes.
   */
  lemma DecodeBodyWith(order: ByteOrder, b: Body, extra: seq<byte>)
    requires BodyWellFormed(b) && (ReadsPrefix(b) || extra == [])
    ensures DecodeBody(order, CodeOf(b), EncodeBody(order, b) + extra) == Expected(b, extra)
  {
    if b.QueryResultBody? || b.GetDocsumsBody? || b.MonitorQueryBody? || b.MonitorResultBody? {
      DecodeLegacyBodyWith(order, b, extra);
    } else if b.Opaque? {
      assert EncodeBody(order, b) + extra == EncodeBody(order, b);
    } else {
      DecodeExtendedBodyWith(order, b, extra);
    }
  }

  lemma DecodeLegacyBodyWith(order: ByteOrder, b: Body, extra: seq<byte>)
    requires b.QueryResultBody? || b.GetDocsumsBody? || b.MonitorQueryBody? || b.MonitorResultBody?
    requires BodyWellFormed(b) && (ReadsPrefix(b) || extra == [])
    ensures DecodeBody(order, CodeOf(b), EncodeBody(order, b) + extra) == Expected(b, extra)
  {
    var data := EncodeBody(order, b) + extra;
    match b
    case QueryResultBody(mld, x) =>
      QueryResultDispatch(order, mld, data);
      QueryResultBodyRoundTrip(order, mld, x, extra);
    case GetDocsumsBody(mld, x) =>
      assert data == EncodeBody(order, b);
      GetDocsumsDispatch(order, mld, data);
      GetDocsumsBodyRoundTrip(order, mld, x);
    case MonitorQueryBody => assert [] + extra == extra;
    case MonitorResultBody(x) =>
      MonitorResultDispatch(order, x.counts.Some?, data);
      MonitorResultBodyRoundTrip(order, x, extra);
  }

  lemma DecodeExtendedBodyWith(order: ByteOrder, b: Body, extra: seq<byte>)
    requires b.ParsedQuery2Body? || b.QueryResultXBody? || b.GetDocsumsXBody? || b.MonitorQueryXBody? ||
             b.MonitorResultXBody?
    requires BodyWellFormed(b) && (ReadsPrefix(b) || extra == [])
    ensures DecodeBody(order, CodeOf(b), EncodeBody(order, b) + extra) == Expected(b, extra)
  {
    if b.ParsedQuery2Body? || b.QueryResultXBody? {
      DecodeQueryBodyWith(order, b, extra);
    } else {
      DecodeDocsumMonitorBodyWith(order, b, extra);
    }
  }

  lemma DecodeQueryBodyWith(order: ByteOrder, b: Body, extra: seq<byte>)
    requires b.ParsedQuery2Body? || b.QueryResultXBody?
    requires BodyWellFormed(b)
    ensures DecodeBody(order, CodeOf(b), EncodeBody(order, b) + extra) == Expected(b, extra)
  {
    var data := EncodeBody(order, b) + extra;
    match b
    case ParsedQuery2Body(x) =>
      ParsedQuery2Dispatch(order, data);
      ParsedQuery2BodyRoundTrip(order, x, extra);
    case QueryResultXBody(x) =>
      QueryResultXDispatch(order, data);
      QueryResultXBodyRoundTrip(order, x, extra);
  }

  lemma DecodeDocsumMonitorBodyWith(order: ByteOrder, b: Body, extra: seq<byte>)
    requires b.GetDocsumsXBody? || b.MonitorQueryXBody? || b.MonitorResultXBody?
    requires BodyWellFormed(b) && (ReadsPrefix(b) || extra == [])
    ensures DecodeBody(order, CodeOf(b), EncodeBody(order, b) + extra) == Expected(b, extra)
  {
    var data := EncodeBody(order, b) + extra;
    match b
    case GetDocsumsXBody(x) =>
      assert data == EncodeBody(order, b);
      GetDocsumsXDispatch(order, data);
      GetDocsumsXBodyRoundTrip(order, x);
    case MonitorQueryXBody =>
      MonitorQueryXDispatch(order, data);
      MonitorQueryXBodyRoundTrip(order, extra);
    case MonitorResultXBody(x) =>
      MonitorResultXDispatch(order, data);
      MonitorResultXBodyRoundTrip(order, x, extra);
  }

  /** Each body codec reads back the body it wrote. */
  lemma DecodeBodyOf(order: ByteOrder, b: Body)
    requires BodyWellFormed(b)
    ensures DecodeBody(order, CodeOf(b), EncodeBody(order, b)) == Ok(b)
  {
    DecodeBodyWith(order, b, []);
    assert EncodeBody(order, b) + [] == EncodeBody(order, b);
  }

  /** Round trip: a well-formed packet decodes to itself and leaves the stream after it untouched. */
  lemma DecodeEncoded(order: ByteOrder, p: Packet, persistent: bool, rest: seq<byte>)
    requires WellFormed(order, p, persistent)
    ensures Decode(order, Encode(order, p, persistent) + rest, persistent) == Ok(Read(p, rest))
  {
    Framing.DecodeEncodedFrame(order, FrameOf(order, p), persistent, rest);
    DecodeBodyOf(order, p.body);
  }

  /** The bodies that are read from the front of the data, so that bytes can follow them. */
  predicate ReadsPrefix(b: Body) {
    !b.GetDocsumsBody? && !b.GetDocsumsXBody? && !b.Opaque?
  }

  /** Bytes after a complete body are TrailingBytes. */
  lemma TrailingBytesRejected(order: ByteOrder, b: Body, extra: seq<byte>)
    requires BodyWellFormed(b) && ReadsPrefix(b) && extra != []
    ensures DecodeBody(order, CodeOf(b), EncodeBody(order, b) + extra) == Fail(TrailingBytes)
  {
    DecodeBodyWith(order, b, extra);
  }

  /** A frame whose data runs past the end of its body is rejected as a whole. */
  lemma PacketTrailingBytesRejected(order: ByteOrder, queryId: Option<u32>, b: Body, extra: seq<byte>,
                                    persistent: bool, rest: seq<byte>)
    requires BodyWellFormed(b) && ReadsPrefix(b) && extra != []
    requires Framing.WellFormed(Framing.Frame(CodeOf(b), queryId, EncodeBody(order, b) + extra), persistent)
    ensures var f := Framing.Frame(CodeOf(b), queryId, EncodeBody(order, b) + extra);
            Decode(order, Framing.EncodeFrame(order, f) + rest, persistent) == Fail(TrailingBytes)
  {
    var f := Framing.Frame(CodeOf(b), queryId, EncodeBody(order, b) + extra);
    Framing.DecodeEncodedFrame(order, f, persistent, rest);
    TrailingBytesRejected(order, b, extra);
  }

  /** A packet whose code is outside the enumeration is UnknownCode, whatever follows. */
  lemma UnknownPacketRejected(order: ByteOrder, length: u32, code: u32, persistent: bool, tail: seq<byte>)
    requires !IsKnownCode(code)
    ensures Decode(order, U32(order, length) + U32(order, code) + tail, persistent) == Fail(UnknownCode)
  {
    Framing.UnknownCodeRejected(order, length, code, persistent, tail);
  }
}
