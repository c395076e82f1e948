/**
 * The PCODE_PARSEDQUERY2 body: search type, offset, maxhits, qflags,
 * rankprofile and numStackItems, each a 32-bit integer, then the query tree
 * as a run of stack items.
 */
module ParsedQuery {
  import opened Results
  import opened Wire
  import opened StackDump

  /** The query flags and the rank profile are carried as plain 32-bit values. */
  datatype ParsedQuery2 = ParsedQuery2(searchType: u32, offset: u32, maxhits: u32, qflags: u32, rankprofile: u32, stack: Item)

  /** The tree fits the packet: every field fits, and so does its item count. */
  predicate WellFormed(q: ParsedQuery2) {
    Encodable(q.stack) && ItemCount(q.stack) < U32Limit
  }

  function Fields(q: ParsedQuery2): seq<u32>
    requires ItemCount(q.stack) < U32Limit
  {
    [q.searchType, q.offset, q.maxhits, q.qflags, q.rankprofile, ItemCount(q.stack)]
  }

  function EncodeParsedQuery2(order: ByteOrder, q: ParsedQuery2): seq<byte>
    requires WellFormed(q)
  {
    U32Array(order, Fields(q)) + EncodeStack(order, q.stack)
  }

  /**
   * Decodes a PCODE_PARSEDQUERY2 body: the six fixed fields, then exactly
   * numStackItems stack items, which must form one tree.
   */
  function DecodeParsedQuery2(order: ByteOrder, s: seq<byte>): (r: Outcome<Read<ParsedQuery2>>)
    ensures r.Ok? ==> WellFormed(r.value.value) && EncodeParsedQuery2(order, r.value.value) + r.value.rest == s
  {
    var fields :- ReadU32Array(order, 6, s);
    var f := fields.value;
    var stack :- DecodeStack(order, f[5], fields.rest);
    var q := ParsedQuery2(f[0], f[1], f[2], f[3], f[4], stack.value);
    assert Fields(q) == f;
    ConcatAssoc(U32Array(order, f), EncodeStack(order, stack.value), stack.rest);
    Ok(Read(q, stack.rest))
  }

  lemma DecodeEncodedParsedQuery2(order: ByteOrder, q: ParsedQuery2, rest: seq<byte>)
    requires WellFormed(q)
    ensures DecodeParsedQuery2(order, EncodeParsedQuery2(order, q) + rest) == Ok(Read(q, rest))
  {
    var sb := EncodeStack(order, q.stack);
    ConcatAssoc(U32Array(order, Fields(q)), sb, rest);
    ReadU32ArrayOf(order, Fields(q), sb + rest);
    StackCountMustMatch(order, q.stack, ItemCount(q.stack), rest);
  }

  /**
   * A numStackItems field that disagrees with the tree that follows makes the
   * packet fail to decode.
   */
  lemma WrongItemCountRejected(order: ByteOrder, q: ParsedQuery2, numStackItems: u32, rest: seq<byte>)
    requires WellFormed(q) && numStackItems != ItemCount(q.stack)
    ensures var fields := [q.searchType, q.offset, q.maxhits, q.qflags, q.rankprofile, numStackItems];
            DecodeParsedQuery2(order, U32Array(order, fields) + EncodeStack(order, q.stack) + rest).Fail?
  {
    var fields := [q.searchType, q.offset, q.maxhits, q.qflags, q.rankprofile, numStackItems];
    var sb := EncodeStack(order, q.stack);
    ConcatAssoc(U32Array(order, fields), sb, rest);
    ReadU32ArrayOf(order, fields, sb + rest);
    StackCountMustMatch(order, q.stack, numStackItems, rest);
  }
}
