# fs4transport wire format and container networking helpers

This project models two parts of Vespa and proves properties about them.

**The fs4transport packet formats** (`searchlib/src/vespa/searchlib/common/transport.h`):

- the general frame: a 32-bit length that does not count itself, then the packet code, then the optional query id and the packet data;
- the dense packet code enumeration;
- the feature flag enumerations, and the rule that a packet with a feature the receiver does not support is discarded like one with an illegal code;
- the packet bodies of PCODE_QUERYRESULT(X), PCODE_GETDOCSUMS(X), PCODE_MONITORQUERY(X), PCODE_MONITORRESULT(X), their MLD variants, and PCODE_PARSEDQUERY2 with its query stack dump;
- the property sets shared by several packets;
- whole packets: a frame whose code selects the body codec, with a body that must fill the frame's data exactly.

Each body is a pair of functions. The encoder writes a value. The decoder reads bytes and returns the value and the unread rest, or a `CodecError`. The proofs cover:

- round trips both ways: decoding an encoding gives the value back, and whatever decodes re-encodes to the bytes it came from;
- size laws for the fields each feature flag adds;
- the rejection of unsupported flags, unknown codes, truncated frames, bytes left over after a body and mismatched stack item counts;
- the compatibility the header promises. A legacy packet, with the query id removed and the legacy feature mask in front, decodes as the extended packet.

**Four helpers of `node-admin/scripts/configure-container-networking.py`**:

- `get_attribute`: a netlink attribute lookup that wants exactly one match;
- `network`: the network of an interface address at its prefix length;
- `ip_with_most_specific_network_for_address`: picks the host address whose network holds a container address;
- `generate_mac_address`: after the hash, turns a digest into a locally administered unicast MAC address.

`GetAttribute`, `NetworkOf` and the candidate filter are functions. The selection loop and the bytearray updates are methods, each with a specification proved against it.

Module layout:

| module | file |
|---|---|
| `Results` | results.dfy |
| `Wire` | wire.dfy |
| `Features` | features.dfy |
| `PacketCodes` | packet_codes.dfy |
| `Framing` | frame.dfy |
| `StackDump` | stack_dump.dfy |
| `ParsedQuery` | parsed_query.dfy |
| `Properties` | properties.dfy |
| `QueryResult` | query_result.dfy |
| `GetDocsums` | get_docsums.dfy |
| `Monitor` | monitor.dfy |
| `Packets` | packets.dfy |
| `ContainerNetworking` | container_networking.dfy |

Every codec takes the byte order as a parameter, and every lemma holds for both orders.

## Model

| member | source | states |
|---|---|---|
| Wire.UIntRoundTrip | searchlib/src/vespa/searchlib/common/transport.h:180-182 | a fixed-width unsigned field decodes to the value it was written from, in either byte order |
| Wire.UIntCanonical | searchlib/src/vespa/searchlib/common/transport.h:180-182 | every byte string of the field's width is the encoding of the value it decodes to |
| Wire.LittleEndianRoundTrip | searchlib/src/vespa/searchlib/common/transport.h:180-182 | least-significant-first digits read back to the number, by induction on the width |
| Wire.BigEndianRoundTrip | searchlib/src/vespa/searchlib/common/transport.h:180-182 | most-significant-first digits read back to the number, by induction on the width |
| Wire.ReadU32 | searchlib/src/vespa/searchlib/common/transport.h:180-182 | a uint32_t field reads exactly when four bytes remain and consumes exactly four; otherwise BufferTooShort |
| Wire.ReadU32OfU32 | searchlib/src/vespa/searchlib/common/transport.h:180-182 | a written uint32_t reads back, leaving the following bytes untouched |
| Wire.U32OfReadU32 | searchlib/src/vespa/searchlib/common/transport.h:180-182 | the four bytes read are the encoding of the value read |
| Wire.ReadU64OfU64 | searchlib/src/vespa/searchlib/common/transport.h:279 | a written uint64_t (coverageDocs) reads back |
| Wire.ReadBlob | searchlib/src/vespa/searchlib/common/transport.h:275-278 | a length-prefixed byte string that reads is followed by the rest of the input, and its length fits 32 bits |
| Wire.ReadBlobOfBlob | searchlib/src/vespa/searchlib/common/transport.h:275-278 | a length-prefixed byte string reads back whole, whatever follows |
| Wire.ReadHitRankOf | searchlib/src/vespa/searchlib/common/transport.h:271 | the maxRank / metric field reads back as the bytes written |
| Wire.ReadOriginOf | searchlib/src/vespa/searchlib/common/transport.h:285-286 | the partid and docstamp pair reads back exactly when the MLD feature says it is present |
| Wire.ReadOptionalBlobOf | searchlib/src/vespa/searchlib/common/transport.h:275-278 | a flag-dependent length-prefixed field reads back exactly when its flag is set |
| Wire.ReadAllOf | searchlib/src/vespa/searchlib/common/transport.h:282-287 | a counted run of records reads back when each record does |
| Wire.ReadAllCanonical | searchlib/src/vespa/searchlib/common/transport.h:282-287 | a counted run that reads is the encoding of the records read followed by the rest |
| Wire.ReadAllAppend | searchlib/src/vespa/searchlib/common/transport.h:246-257 | reading more records than were written reads the written ones and then continues in what follows |
| Wire.ReadAllPrefix | searchlib/src/vespa/searchlib/common/transport.h:246-257 | reading fewer records than were written returns the first n and leaves the others unread |
| Wire.ReadU32ArrayOf | searchlib/src/vespa/searchlib/common/transport.h:273 | an array of uint32_t (sortIndex, fixed header fields) reads back |
| Features.QueryResultFeatureBits | searchlib/src/vespa/searchlib/common/transport.h:61-68 | the QRF feature values are distinct single bits |
| Features.QueryFeatureBits | searchlib/src/vespa/searchlib/common/transport.h:90-99 | the QF feature values are distinct single bits |
| Features.GetDocsumsFeatureBits | searchlib/src/vespa/searchlib/common/transport.h:122-129 | the GDF feature values are distinct single bits |
| Features.MonitorResultFeatureBits | searchlib/src/vespa/searchlib/common/transport.h:160-164 | the MRF feature values are distinct single bits |
| Features.LegacyMasksSupported | searchlib/src/vespa/searchlib/common/transport.h:45-60 | every legacy mask is within the supported mask of its packet, so legacy packets are never discarded |
| Features.ReadFeatureFlags | searchlib/src/vespa/searchlib/common/transport.h:56-59 | flags that read are supported; a flag outside the supported mask is UnsupportedFeatureFlag, a short input BufferTooShort |
| Features.ReadFeatureFlagsOf | searchlib/src/vespa/searchlib/common/transport.h:56-59 | supported flags read back |
| Features.UnsupportedFlagsRejected | searchlib/src/vespa/searchlib/common/transport.h:56-59 | a packet with an unknown feature bit is discarded with UnsupportedFeatureFlag |
| Features.SetBitKeepsOthers | searchlib/src/vespa/searchlib/common/transport.h:61-68 | setting one feature bit leaves the test of every disjoint bit unchanged |
| Features.SetBitKeepsSupport | searchlib/src/vespa/searchlib/common/transport.h:56-59 | setting a supported bit does not change whether the flags are supported |
| Features.GrowingFeaturesSupported | searchlib/src/vespa/searchlib/common/transport.h:62-65 | QRF_COVERAGE, GDF_MLD and MRF_MLD lie within their supported masks |
| PacketCodes.AllCodes | searchlib/src/vespa/searchlib/common/transport.h:184-389 | the codes run consecutively from PCODE_EOL = 200 up to the sentinel 223, and a code is known exactly when it is one of them |
| Framing.EncodeFrame | searchlib/src/vespa/searchlib/common/transport.h:177-183 | a frame is four bytes longer than its length field says |
| Framing.DecodeFrameBody | searchlib/src/vespa/searchlib/common/transport.h:185-186 | the query id is read exactly for a persistent connection and a code that carries one; a payload too short for it is LengthMismatch |
| Framing.DecodeFrameBodyOf | searchlib/src/vespa/searchlib/common/transport.h:185-186 | a payload with its query id reads back |
| Framing.DecodeFrame | searchlib/src/vespa/searchlib/common/transport.h:177-183 | a decoded frame is well formed and re-encodes to the bytes consumed |
| Framing.DecodeEncodedFrame | searchlib/src/vespa/searchlib/common/transport.h:177-183 | an encoded well-formed frame decodes to itself and leaves what follows unread |
| Framing.LengthFieldExcludesItself | searchlib/src/vespa/searchlib/common/transport.h:180 | the length field equals the frame size minus the four bytes of the field itself |
| Framing.TruncatedFrameRejected | searchlib/src/vespa/searchlib/common/transport.h:180 | an encoded frame missing any number of trailing bytes fails to decode |
| Framing.UnknownCodeRejected | searchlib/src/vespa/searchlib/common/transport.h:388 | a code outside the enumeration is UnknownCode, whatever the length says |
| StackDump.ConnectiveOf | searchlib/src/vespa/searchlib/common/transport.h:247-248 | an OR/AND/NOT/RANK opcode maps back to its connective |
| StackDump.ReadHeader | searchlib/src/vespa/searchlib/common/transport.h:246-257 | a stack item that reads is encodable |
| StackDump.ReadHeaderOf | searchlib/src/vespa/searchlib/common/transport.h:246-257 | every kind of stack item reads back from its encoding |
| StackDump.ReadHeaderCanonical | searchlib/src/vespa/searchlib/common/transport.h:246-257 | a stack item that reads is the encoding of what was read, followed by the rest |
| StackDump.ReadPhraseOf | searchlib/src/vespa/searchlib/common/transport.h:249-252 | a PHRASE item (opcode, arity, index name) reads back |
| StackDump.ReadTermOf | searchlib/src/vespa/searchlib/common/transport.h:253-257 | a TERM item (opcode, index name, term) reads back |
| StackDump.ReadHeaders | searchlib/src/vespa/searchlib/common/transport.h:245-246 | reading numStackItems items yields exactly that many encodable items |
| StackDump.ReadHeadersOf | searchlib/src/vespa/searchlib/common/transport.h:245-246 | a run of items reads back when the count is right |
| StackDump.ReadHeadersCanonical | searchlib/src/vespa/searchlib/common/transport.h:245-246 | a run that reads re-encodes to the bytes it consumed |
| StackDump.ReadHeadersAppend | searchlib/src/vespa/searchlib/common/transport.h:245-246 | a count larger than the run reads the run and then tries to read items from what follows |
| StackDump.ReadHeadersPrefix | searchlib/src/vespa/searchlib/common/transport.h:245-246 | a count smaller than the run reads only its first items |
| StackDump.Build | searchlib/src/vespa/searchlib/common/transport.h:246-257 | a node built from an item and its children has that item as its head and those children |
| StackDump.FlattenLength | searchlib/src/vespa/searchlib/common/transport.h:245 | the prefix-order dump of a tree has one item per node |
| StackDump.ParseFlatten | searchlib/src/vespa/searchlib/common/transport.h:246-257 | rebuilding a tree from its prefix-order dump gives the tree back and leaves the following items |
| StackDump.ParseFlattenAll | searchlib/src/vespa/searchlib/common/transport.h:246-257 | rebuilding a run of trees from their dumps gives the trees back |
| StackDump.ParseCanonical | searchlib/src/vespa/searchlib/common/transport.h:246-257 | the items a tree is rebuilt from are exactly that tree's dump |
| StackDump.TruncatedItemsDoNotParse | searchlib/src/vespa/searchlib/common/transport.h:245-257 | a strict prefix of a tree's dump is StackCorrupt |
| StackDump.DecodeStack | searchlib/src/vespa/searchlib/common/transport.h:245-257 | a decoded stack is encodable, has numStackItems nodes and re-encodes to the bytes consumed |
| StackDump.StackCountExact | searchlib/src/vespa/searchlib/common/transport.h:245-257 | a tree's dump with its own item count decodes to the tree |
| StackDump.StackCountTooSmall | searchlib/src/vespa/searchlib/common/transport.h:245 | a numStackItems below the tree's size is StackCorrupt |
| StackDump.StackCountTooLarge | searchlib/src/vespa/searchlib/common/transport.h:245 | a numStackItems above the tree's size fails to decode |
| StackDump.StackCountMustMatch | searchlib/src/vespa/searchlib/common/transport.h:245-257 | a tree's dump decodes exactly when numStackItems equals its item count |
| ParsedQuery.DecodeParsedQuery2 | searchlib/src/vespa/searchlib/common/transport.h:238-258 | a decoded PARSEDQUERY2 body is well formed and re-encodes to the bytes consumed |
| ParsedQuery.DecodeEncodedParsedQuery2 | searchlib/src/vespa/searchlib/common/transport.h:238-258 | an encoded PARSEDQUERY2 body decodes to itself |
| ParsedQuery.WrongItemCountRejected | searchlib/src/vespa/searchlib/common/transport.h:245 | a numStackItems field that disagrees with the tree after it makes the packet fail |
| Properties.ReadEntry | searchlib/src/vespa/searchlib/common/transport.h:343-348 | an entry that reads is the key and value blobs followed by the rest |
| Properties.ReadEntryOf | searchlib/src/vespa/searchlib/common/transport.h:343-348 | a key/value entry reads back |
| Properties.ReadPropertySet | searchlib/src/vespa/searchlib/common/transport.h:339-349 | a property set that reads re-encodes to the bytes consumed |
| Properties.ReadPropertySetOf | searchlib/src/vespa/searchlib/common/transport.h:339-349 | a property set (name, entry count, entries) reads back |
| Properties.ReadProperties | searchlib/src/vespa/searchlib/common/transport.h:338-349 | a properties section that reads has a 32-bit count and re-encodes to the bytes consumed |
| Properties.ReadPropertiesOf | searchlib/src/vespa/searchlib/common/transport.h:338-349 | a properties section (numProperties, then the sets) reads back |
| QueryResult.ReadHit | searchlib/src/vespa/searchlib/common/transport.h:282-287 | a hit has partid and docstamp exactly when QRF_MLD is set, and re-encodes to the bytes consumed |
| QueryResult.ReadHitOf | searchlib/src/vespa/searchlib/common/transport.h:282-287 | a hit reads back |
| QueryResult.ReadHits | searchlib/src/vespa/searchlib/common/transport.h:282 | numDocs hits are read, all of the same MLD shape |
| QueryResult.ReadHitsOf | searchlib/src/vespa/searchlib/common/transport.h:282-287 | a run of hits reads back |
| QueryResult.EncodeHitsLength | searchlib/src/vespa/searchlib/common/transport.h:282-287 | each hit takes 4 + rank width bytes, and 8 more under QRF_MLD |
| QueryResult.ReadSort | searchlib/src/vespa/searchlib/common/transport.h:273-274 | under QRF_SORTDATA, numDocs sort indexes are read and then as many sort bytes as the last index says |
| QueryResult.ReadSortOf | searchlib/src/vespa/searchlib/common/transport.h:273-274 | the sort section reads back |
| QueryResult.ReadCoverage | searchlib/src/vespa/searchlib/common/transport.h:279-281 | the coverage section is present exactly under QRF_COVERAGE and re-encodes to the bytes consumed |
| QueryResult.ReadCoverageOf | searchlib/src/vespa/searchlib/common/transport.h:279-281 | coverageDocs, coverageNodes and coverageFull read back |
| QueryResult.ReadTrailer | searchlib/src/vespa/searchlib/common/transport.h:275-287 | aggregation, grouping, coverage and hits follow the layout of the flags |
| QueryResult.ReadTrailerOf | searchlib/src/vespa/searchlib/common/transport.h:275-287 | the sections after the sort data read back |
| QueryResult.ReadSectionsOf | searchlib/src/vespa/searchlib/common/transport.h:273-287 | every flag-dependent section of a result reads back |
| QueryResult.ReadHeaderOf | searchlib/src/vespa/searchlib/common/transport.h:268-272 | the fixed fields (offset, numDocs, totNumDocs, maxRank, docstamp) read back |
| QueryResult.DecodeQueryResultX | searchlib/src/vespa/searchlib/common/transport.h:265-287 | a decoded QUERYRESULTX body has supported flags, sections that match them, and re-encodes to the bytes consumed |
| QueryResult.DecodeEncodedQueryResultX | searchlib/src/vespa/searchlib/common/transport.h:265-287 | an encoded well-formed QUERYRESULTX body decodes to itself |
| QueryResult.UnsupportedQueryResultRejected | searchlib/src/vespa/searchlib/common/transport.h:56-59 | a QUERYRESULTX with an unsupported feature bit is discarded |
| QueryResult.QueryResultXSize | searchlib/src/vespa/searchlib/common/transport.h:265-287 | the body size is the fixed fields plus each present section plus the hits |
| QueryResult.CoverageKeepsSupport | searchlib/src/vespa/searchlib/common/transport.h:62-65 | adding QRF_COVERAGE does not change whether the flags are supported |
| QueryResult.CoverageKeepsLayout | searchlib/src/vespa/searchlib/common/transport.h:273-287 | adding QRF_COVERAGE turns on the coverage section and no other |
| QueryResult.CoverageKeepsWellFormed | searchlib/src/vespa/searchlib/common/transport.h:279-281 | a well-formed result with coverage added is still well formed |
| QueryResult.CoverageAddsSixteenBytes | searchlib/src/vespa/searchlib/common/transport.h:279-281 | turning on QRF_COVERAGE adds exactly 16 bytes to the body |
| QueryResult.DecodeLegacyQueryResult | searchlib/src/vespa/searchlib/common/transport.h:188-198 | a decoded (MLD_)QUERYRESULT body re-encodes to the bytes consumed, with partid and docstamp per hit exactly in the MLD form |
| QueryResult.DecodeEncodedLegacyQueryResult | searchlib/src/vespa/searchlib/common/transport.h:218-222 | an encoded QUERYRESULT or MLD_QUERYRESULT body decodes to itself |
| QueryResult.LegacyFlags | searchlib/src/vespa/searchlib/common/transport.h:69-70 | the legacy mask is supported and selects no section except the MLD hit fields |
| QueryResult.LegacyQueryResultCompatible | searchlib/src/vespa/searchlib/common/transport.h:45-55 | a legacy result with the legacy mask in front is byte for byte the extended result |
| QueryResult.LegacyQueryResultDecodes | searchlib/src/vespa/searchlib/common/transport.h:45-55 | any bytes with the legacy mask in front decode as the extended packet exactly as the legacy decoder reads them, errors included |
| QueryResult.LegacySectionsAreHits | searchlib/src/vespa/searchlib/common/transport.h:188-198 | under the legacy layout the flag-dependent sections are just the hits |
| GetDocsums.ReadRank | searchlib/src/vespa/searchlib/common/transport.h:334-335 | rankprofile and qflags are present exactly under GDF_RANKP_QFLAGS |
| GetDocsums.ReadRankOf | searchlib/src/vespa/searchlib/common/transport.h:334-335 | rankprofile and qflags read back |
| GetDocsums.ReadOptionalProperties | searchlib/src/vespa/searchlib/common/transport.h:338-349 | the properties section is present exactly under GDF_PROPERTIES |
| GetDocsums.ReadOptionalPropertiesOf | searchlib/src/vespa/searchlib/common/transport.h:338-349 | the properties section reads back when its flag is set |
| GetDocsums.ReadOptions | searchlib/src/vespa/searchlib/common/transport.h:334-354 | the optional fields match the flags and re-encode to the bytes consumed |
| GetDocsums.ReadOptionsOf | searchlib/src/vespa/searchlib/common/transport.h:334-354 | rank, result class name, properties and location read back |
| GetDocsums.ReadDoc | searchlib/src/vespa/searchlib/common/transport.h:355-359 | a document reference has partid and docstamp exactly under GDF_MLD; a partial one is BufferTooShort |
| GetDocsums.ReadDocOf | searchlib/src/vespa/searchlib/common/transport.h:355-359 | a document reference reads back |
| GetDocsums.ReadDocsToEnd | searchlib/src/vespa/searchlib/common/transport.h:355 | the rest of the body is read as document references of one shape, and nothing is left over |
| GetDocsums.ReadDocsToEndOf | searchlib/src/vespa/searchlib/common/transport.h:355-359 | a run of document references reads back to the end |
| GetDocsums.EncodeDocsLength | searchlib/src/vespa/searchlib/common/transport.h:355-359 | each document takes 4 bytes, 12 under GDF_MLD |
| GetDocsums.DecodeGetDocsumsX | searchlib/src/vespa/searchlib/common/transport.h:330-360 | a decoded GETDOCSUMSX body is well formed and re-encodes to the whole body |
| GetDocsums.DecodeEncodedGetDocsumsX | searchlib/src/vespa/searchlib/common/transport.h:330-360 | an encoded well-formed GETDOCSUMSX body decodes to itself |
| GetDocsums.UnsupportedGetDocsumsRejected | searchlib/src/vespa/searchlib/common/transport.h:112-121 | a GETDOCSUMSX with an unsupported feature bit is discarded |
| GetDocsums.GetDocsumsXSize | searchlib/src/vespa/searchlib/common/transport.h:330-360 | the body is 8 bytes plus the optional fields plus a fixed size per document |
| GetDocsums.MldKeepsSupport | searchlib/src/vespa/searchlib/common/transport.h:122-129 | adding GDF_MLD does not change whether the flags are supported |
| GetDocsums.MldKeepsLayout | searchlib/src/vespa/searchlib/common/transport.h:334-359 | adding GDF_MLD changes the document shape and no other field |
| GetDocsums.MldKeepsWellFormed | searchlib/src/vespa/searchlib/common/transport.h:355-359 | a well-formed request with GDF_MLD and origins added is still well formed |
| GetDocsums.MldAddsEightBytesPerDoc | searchlib/src/vespa/searchlib/common/transport.h:357-358 | turning on GDF_MLD adds exactly 8 bytes per document |
| GetDocsums.DecodeLegacyGetDocsums | searchlib/src/vespa/searchlib/common/transport.h:204-207 | a decoded (MLD_)GETDOCSUMS body is docstamp and document references of one shape, and re-encodes to the body |
| GetDocsums.DecodeEncodedLegacyGetDocsums | searchlib/src/vespa/searchlib/common/transport.h:223-226 | an encoded GETDOCSUMS or MLD_GETDOCSUMS body decodes to itself |
| GetDocsums.LegacyFlags | searchlib/src/vespa/searchlib/common/transport.h:131-132 | the legacy mask is supported and selects no optional field, only the MLD document shape |
| GetDocsums.LegacyGetDocsumsCompatible | searchlib/src/vespa/searchlib/common/transport.h:105-121 | a legacy request with the legacy mask in front is byte for byte the extended request |
| GetDocsums.LegacyGetDocsumsDecodes | searchlib/src/vespa/searchlib/common/transport.h:105-121 | any bytes with the legacy mask in front decode as the extended packet exactly as the legacy decoder reads them, errors included |
| GetDocsums.LegacyOptionsAreEmpty | searchlib/src/vespa/searchlib/common/transport.h:204-207 | under the legacy layout no optional field is read |
| Monitor.DecodeMonitorQueryX | searchlib/src/vespa/searchlib/common/transport.h:361-364 | a MONITORQUERYX body is only its feature flags, which must be 0 as no feature is supported |
| Monitor.DecodeEncodedMonitorQueryX | searchlib/src/vespa/searchlib/common/transport.h:361-364 | the MONITORQUERYX body reads back |
| Monitor.ReadCounts | searchlib/src/vespa/searchlib/common/transport.h:370-373 | the node and partition counts are present exactly under MRF_MLD |
| Monitor.ReadCountsOf | searchlib/src/vespa/searchlib/common/transport.h:370-373 | the four counts read back |
| Monitor.DecodeMonitorResultX | searchlib/src/vespa/searchlib/common/transport.h:365-374 | a decoded MONITORRESULTX body is well formed and re-encodes to the bytes consumed |
| Monitor.DecodeEncodedMonitorResultX | searchlib/src/vespa/searchlib/common/transport.h:365-374 | an encoded MONITORRESULTX body decodes to itself |
| Monitor.UnsupportedMonitorResultRejected | searchlib/src/vespa/searchlib/common/transport.h:160-168 | a MONITORRESULTX with an unsupported feature bit is discarded |
| Monitor.MonitorResultXSize | searchlib/src/vespa/searchlib/common/transport.h:365-374 | the body is 12 bytes, 28 under MRF_MLD |
| Monitor.MldAddsSixteenBytes | searchlib/src/vespa/searchlib/common/transport.h:370-373 | turning on MRF_MLD adds exactly 16 bytes |
| Monitor.DecodeLegacyMonitorResult | searchlib/src/vespa/searchlib/common/transport.h:215-234 | a decoded MONITORRESULT or MLD_MONITORRESULT body has counts exactly in the MLD form and re-encodes to the bytes consumed |
| Monitor.DecodeEncodedLegacyMonitorResult | searchlib/src/vespa/searchlib/common/transport.h:215-234 | an encoded legacy monitor result decodes to itself |
| Monitor.LegacyFlags | searchlib/src/vespa/searchlib/common/transport.h:166-167 | the legacy mask is supported and has MRF_MLD exactly for the MLD form |
| Monitor.LegacyMonitorResultCompatible | searchlib/src/vespa/searchlib/common/transport.h:215-234 | a legacy monitor result with the legacy mask in front is byte for byte the extended one |
| Monitor.LegacyMonitorResultDecodes | searchlib/src/vespa/searchlib/common/transport.h:215-234 | any bytes with the legacy mask in front decode as the extended packet exactly as the legacy decoder reads them |
| Packets.DecodeBody | searchlib/src/vespa/searchlib/common/transport.h:184-389 | a decoded body is well formed, travels under the code it was read for, and re-encodes to exactly the frame's data |
| Packets.UnknownBodyRejected | searchlib/src/vespa/searchlib/common/transport.h:184-389 | a code outside the enumeration has no body, and is UnknownCode |
| Packets.OpaqueBodyKept | searchlib/src/vespa/searchlib/common/transport.h:184-389 | a known code without a body codec keeps its data as it came |
| Packets.DecodeBodyOf | searchlib/src/vespa/searchlib/common/transport.h:184-389 | every body codec reads back the body it wrote under its own code, with nothing left over |
| Packets.TrailingBytesRejected | searchlib/src/vespa/searchlib/common/transport.h:176-183 | bytes after a body that is read from the front of the data are TrailingBytes |
| Packets.Decode | searchlib/src/vespa/searchlib/common/transport.h:176-183 | a decoded packet is well formed, and it re-encodes to the bytes consumed, with the rest of the stream after it |
| Packets.DecodeEncoded | searchlib/src/vespa/searchlib/common/transport.h:176-183 | a well-formed packet decodes to itself and leaves the stream after it untouched |
| Packets.PacketTrailingBytesRejected | searchlib/src/vespa/searchlib/common/transport.h:176-183 | a frame whose data runs past the end of its body is rejected as TrailingBytes |
| Packets.UnknownPacketRejected | searchlib/src/vespa/searchlib/common/transport.h:176-183 | a packet whose code is outside the enumeration is UnknownCode, whatever follows |
| ContainerNetworking.ValuesNamed | node-admin/scripts/configure-container-networking.py:37 | every value collected comes from an attribute of that name |
| ContainerNetworking.NoValuesNamed | node-admin/scripts/configure-container-networking.py:37-39 | nothing is collected exactly when no attribute has the name |
| ContainerNetworking.OneValueNamed | node-admin/scripts/configure-container-networking.py:37-43 | exactly one value is collected exactly when exactly one attribute has the name |
| ContainerNetworking.UniqueInTail | node-admin/scripts/configure-container-networking.py:37 | past a differently named first attribute, a name is unique in the list exactly when it is unique in the rest |
| ContainerNetworking.GetAttribute | node-admin/scripts/configure-container-networking.py:35-45 | a value is returned exactly when the attribute list exists and holds the name once; every failure is a RuntimeError |
| ContainerNetworking.GetAttributeFinds | node-admin/scripts/configure-container-networking.py:35-43 | the value returned is that of the one attribute with the name, wherever it is |
| ContainerNetworking.MaskAgrees | node-admin/scripts/configure-container-networking.py:50 | two addresses agree under a netmask exactly when their top prefix bits agree |
| ContainerNetworking.NetworkOf | node-admin/scripts/configure-container-networking.py:47-50 | succeeds exactly when IFA_ADDRESS is found once and is an IPv4 address and the prefix length is in 0..32; the network then has that prefix length; a missing attribute is a RuntimeError, a non-address or a prefix outside 0..32 a ValueError |
| ContainerNetworking.NetworkContains | node-admin/scripts/configure-container-networking.py:47-50 | an interface's network holds an address exactly when its top prefixlen bits equal those of IFA_ADDRESS |
| ContainerNetworking.MatchingHostIps | node-admin/scripts/configure-container-networking.py:114 | on success the list holds exactly the candidates whose network holds the address; on failure the error is that of the first candidate whose network cannot be computed |
| ContainerNetworking.MatchingInOrder | node-admin/scripts/configure-container-networking.py:114 | the matches are the candidates at strictly increasing positions, so the filter keeps list order |
| ContainerNetworking.MatchingIndicesComplete | node-admin/scripts/configure-container-networking.py:114 | every candidate whose network holds the address is at one of the listed positions |
| ContainerNetworking.EarliestCandidate | node-admin/scripts/configure-container-networking.py:113-121 | the first match with the smallest prefix length is the earliest such candidate in the whole input: every matching candidate before it has a longer prefix |
| ContainerNetworking.IpWithMostSpecificNetworkForAddress | node-admin/scripts/configure-container-networking.py:113-125 | returns a matching candidate with the smallest prefix length; every matching candidate before it in the input has a longer prefix, so ties go to the earliest; RuntimeError exactly when no candidate matches; a network that cannot be computed is its error |
| ContainerNetworking.FormatMac | node-admin/scripts/configure-container-networking.py:70 | n octets format to 3n - 1 characters |
| ContainerNetworking.ParseHex2Of | node-admin/scripts/configure-container-networking.py:70 | a two-digit lower-case hex pair reads back to its octet |
| ContainerNetworking.ParseFormatMac | node-admin/scripts/configure-container-networking.py:70 | formatted octets read back to the same octets |
| ContainerNetworking.MacColons | node-admin/scripts/configure-container-networking.py:70 | the separators stand exactly at every third position |
| ContainerNetworking.GenerateMacAddress | node-admin/scripts/configure-container-networking.py:59-71 | the address is 17 characters of six hex pairs; the first octet has the multicast bit clear, the local bit set and its other bits from the digest; the other five octets are digest bytes 1..5 |

## Left out

- The bodies of PCODE_QUERYX (218) and PCODE_TRACEREPLY (222) are not decoded. QUERYX names a QF_MINHITS feature that has no value in the enumeration, and its rank profile field has no position. TRACEREPLY has no count field before its property sets. A packet carries both as `Opaque` data.
- The bodies of PCODE_EOL, PCODE_ERROR, PCODE_DOCSUM, PCODE_QUEUELEN and PCODE_CLEARCACHES are not decoded. A packet carries them as `Opaque` data, whatever their layout. The ERROR layout (`error_code`, `message_len`, a UTF-8 `message`) is at transport.h:199-203, and the meaning of its codes lives in `common/errorcodes.h`, which is not part of this model. The DOCSUM payload runs to the end of the frame.
- The GETDOCSUMSX stack dump section is not modelled. It is guarded by a GDF_STACKDUMP feature that the enumeration does not define (it defines GDF_QUERYSTACK), so the model treats GDF_QUERYSTACK as unsupported.
- Some features have no placement in any packet layout: QRF_PROPERTIES, GDF_FLAGS, MRF_RFLAGS, MRF_ACTIVEDOCS and MQF_QFLAGS. They are therefore outside the supported masks.
- The supported masks are model constants: the union of the features whose fields the layouts describe. The header only names `QRF_SUPPORTED_MASK` and similar masks, and their values are not in transport.h.
- The meaning of the flag values is not modelled: `queryflags`, `getdocsums_flags`, `monitorquery_flags`, the query type, the rank profile and `SLIME_MAGIC_ID`. The model carries them as 32-bit values.
- `search::HitRank` is modelled as an opaque field of 8 bytes. Its width is a constant; only the size lemmas depend on it.
- Byte order is a parameter. The header does not fix one, and every property is proved for both.
- The numeric stack item opcodes (OR, AND, NOT, RANK, TERM, PHRASE) are not given in transport.h. Assumed values are used, and only their distinctness matters.
- A PHRASE item is read in the order the header lists its fields: opcode, arity, index name.
- The sort data length is the last sort index, or 0 when numDocs is 0. The header leaves the empty case undefined.
- In GETDOCSUMSX the number of documents is not written. It is the rest of the body, and a trailing partial record is BufferTooShort.
- SHA-1 is not modelled. `ContainerNetworking.GenerateMacAddress` takes the 20-byte digest as input.
- Text parsing of IP addresses (the `ipaddress` module) is not modelled. An address is its 32 bits. The only caller passes the host's IPv4 addresses (`get_addr(family=AF_INET)`, configure-container-networking.py:273), so an IPv6 IFA_ADDRESS does not arise and is not modelled. An IFA_ADDRESS value that is not an address at all is a ValueError.
- Netlink, namespaces, the file system, argument handling and the rest of configure-container-networking.py are not modelled.
- Exception message text and the wrapped cause of a RuntimeError are not modelled; only the exception kind is.
- A missing 'prefixlen' key (a KeyError in Python) is not modelled: an interface address always has a prefix length.
- ContainerNetworking.GenerateMacAddress: requires a 20-byte digest, as SHA-1 always produces; the slice to six bytes is not modelled for shorter input.
