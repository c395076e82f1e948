/**
 * The packet codes exchanged between dispatch nodes and search nodes, and
 * which of them carry a query id when the connection is persistent.
 */
module PacketCodes {
  import opened Wire

  const PCODE_EOL: u32 := 200
  const PCODE_QUERY_NOTUSED: u32 := 201
  const PCODE_QUERYRESULT: u32 := 202
  const PCODE_ERROR: u32 := 203
  const PCODE_GETDOCSUMS: u32 := 204
  const PCODE_DOCSUM: u32 := 205
  const PCODE_MONITORQUERY: u32 := 206
  const PCODE_MONITORRESULT: u32 := 207
  const PCODE_MLD_QUERYRESULT: u32 := 208
  const PCODE_MLD_GETDOCSUMS: u32 := 209
  const PCODE_MLD_MONITORRESULT: u32 := 210
  const PCODE_CLEARCACHES: u32 := 211
  const PCODE_QUERY2_NOTUSED: u32 := 212
  const PCODE_PARSEDQUERY2: u32 := 213
  const PCODE_MLD_QUERYRESULT2_NOTUSED: u32 := 214
  const PCODE_MLD_GETDOCSUMS2_NOTUSED: u32 := 215
  const PCODE_QUEUELEN: u32 := 216
  const PCODE_QUERYRESULTX: u32 := 217
  const PCODE_QUERYX: u32 := 218
  const PCODE_GETDOCSUMSX: u32 := 219
  const PCODE_MONITORQUERYX: u32 := 220
  const PCODE_MONITORRESULTX: u32 := 221
  const PCODE_TRACEREPLY: u32 := 222
  /** One past the last code; used for consistency checking only. */
  const PCODE_LastCode: u32 := 223

  /** The enumeration is dense: a code is known iff it lies in [PCODE_EOL, PCODE_LastCode). */
  predicate IsKnownCode(code: int) {
    PCODE_EOL as int <= code < PCODE_LastCode as int
  }

  /** The codes whose layout starts with an optional query id ("only in new format"). */
  predicate CarriesQueryId(code: int) {
    code in {PCODE_EOL, PCODE_QUERYRESULT, PCODE_ERROR, PCODE_GETDOCSUMS, PCODE_DOCSUM,
             PCODE_MLD_QUERYRESULT, PCODE_MLD_GETDOCSUMS, PCODE_PARSEDQUERY2,
             PCODE_QUERYRESULTX, PCODE_QUERYX, PCODE_GETDOCSUMSX}
  }

  /** The codes as an enumeration: consecutive from 200, with the sentinel last. */
  function AllCodes(): (codes: seq<u32>)
    ensures |codes| == PCODE_LastCode as int - PCODE_EOL as int
    ensures forall i :: 0 <= i < |codes| ==> codes[i] as int == PCODE_EOL as int + i
    ensures forall c :: IsKnownCode(c) <==> c in codes
  {
    [PCODE_EOL, PCODE_QUERY_NOTUSED, PCODE_QUERYRESULT, PCODE_ERROR, PCODE_GETDOCSUMS,
     PCODE_DOCSUM, PCODE_MONITORQUERY, PCODE_MONITORRESULT, PCODE_MLD_QUERYRESULT,
     PCODE_MLD_GETDOCSUMS, PCODE_MLD_MONITORRESULT, PCODE_CLEARCACHES, PCODE_QUERY2_NOTUSED,
     PCODE_PARSEDQUERY2, PCODE_MLD_QUERYRESULT2_NOTUSED, PCODE_MLD_GETDOCSUMS2_NOTUSED,
     PCODE_QUEUELEN, PCODE_QUERYRESULTX, PCODE_QUERYX, PCODE_GETDOCSUMSX,
     PCODE_MONITORQUERYX, PCODE_MONITORRESULTX, PCODE_TRACEREPLY]
  }
}
