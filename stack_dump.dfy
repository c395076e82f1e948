/**
 * The query stack dump: a query term tree written in prefix order as a flat
 * run of stack items, one per node. A connective (OR, AND, NOT, RANK) item is
 * its opcode and arity; a PHRASE item is its opcode, arity and length-prefixed
 * index name; a TERM item is its opcode, length-prefixed index name and
 * length-prefixed term. The children of a node are the items that follow it.
 * The item count travels separately (numStackItems): decoding reads exactly
 * that many items and then rebuilds the tree from their arities.
 *
 * The numeric opcodes are not part of the packet description; the values below
 * are assumed, and only their distinctness matters to the proofs.
 */
module StackDump {
  import opened Results
  import opened Wire

  const ITEM_OR: u32 := 0
  const ITEM_AND: u32 := 1
  const ITEM_NOT: u32 := 2
  const ITEM_RANK: u32 := 3
  const ITEM_TERM: u32 := 4
  const ITEM_PHRASE: u32 := 6

  datatype Connective = Or | And | Not | Rank

  datatype Item =
    | Node(op: Connective, children: seq<Item>)
    | Phrase(indexName: seq<byte>, children: seq<Item>)
    | Term(indexName: seq<byte>, term: seq<byte>)

  function Opcode(op: Connective): (code: u32)
    ensures code != ITEM_TERM && code != ITEM_PHRASE
  {
    match op
    case Or => ITEM_OR
    case And => ITEM_AND
    case Not => ITEM_NOT
    case Rank => ITEM_RANK
  }

  predicate IsConnectiveCode(code: u32) {
    code == ITEM_OR || code == ITEM_AND || code == ITEM_NOT || code == ITEM_RANK
  }

  function ConnectiveOf(code: u32): (op: Connective)
    requires IsConnectiveCode(code)
    ensures Opcode(op) == code
  {
    if code == ITEM_OR then Or
    else if code == ITEM_AND then And
    else if code == ITEM_NOT then Not
    else Rank
  }

  // ---------------------------------------------------------------------------
  // One stack item

  /** The fields of one stack item: a node of the tree without its children. */
  datatype Header =
    | ConnectiveHeader(op: Connective, arity: nat)
    | PhraseHeader(arity: nat, indexName: seq<byte>)
    | TermHeader(indexName: seq<byte>, term: seq<byte>)

  /** How many subtrees follow an item with this header. */
  function Arity(h: Header): nat {
    if h.TermHeader? then 0 else h.arity
  }

  /** Every arity and every string of the item fits its 32-bit field. */
  predicate HeaderEncodable(h: Header) {
    match h
    case ConnectiveHeader(_, n) => n < U32Limit
    case PhraseHeader(n, ix) => n < U32Limit && FitsU32Length(ix)
    case TermHeader(ix, tm) => FitsU32Length(ix) && FitsU32Length(tm)
  }

  function EncodeHeader(order: ByteOrder, h: Header): seq<byte>
    requires HeaderEncodable(h)
  {
    match h
    case ConnectiveHeader(op, n) => U32(order, Opcode(op)) + U32(order, n)
    case PhraseHeader(n, ix) => U32(order, ITEM_PHRASE) + (U32(order, n) + Blob(order, ix))
    case TermHeader(ix, tm) => U32(order, ITEM_TERM) + (Blob(order, ix) + Blob(order, tm))
  }

  /**
   * Reads one item: the opcode, then the arity for a connective; the arity and
   * the index name for a phrase; the index name and the term for a term. Any
   * other opcode means the stack is corrupt.
   */
  function ReadHeader(order: ByteOrder, s: seq<byte>): (r: Outcome<Read<Header>>)
    ensures r.Ok? ==> HeaderEncodable(r.value.value)
  {
    var op :- ReadU32(order, s);
    if IsConnectiveCode(op.value) then
      var arity :- ReadU32(order, op.rest);
      Ok(Read(ConnectiveHeader(ConnectiveOf(op.value), arity.value), arity.rest))
    else if op.value == ITEM_PHRASE then
      var arity :- ReadU32(order, op.rest);
      var index :- ReadBlob(order, arity.rest);
      Ok(Read(PhraseHeader(arity.value, index.value), index.rest))
    else if op.value == ITEM_TERM then
      var index :- ReadBlob(order, op.rest);
      var term :- ReadBlob(order, index.rest);
      Ok(Read(TermHeader(index.value, term.value), term.rest))
    else
      Fail(StackCorrupt)
  }

  /** Whatever item is read is exactly the bytes it was read from. */
  lemma ReadHeaderCanonical(order: ByteOrder, s: seq<byte>)
    ensures ReadHeader(order, s).Ok? ==> EncodeHeader(order, ReadHeader(order, s).value.value) + ReadHeader(order, s).value.rest == s
  {
    if ReadHeader(order, s).Ok? {
      var op := ReadU32(order, s).value;
      U32OfReadU32(order, s);
      if IsConnectiveCode(op.value) {
        U32OfReadU32(order, op.rest);
        var arity := ReadU32(order, op.rest).value;
        ConcatAssoc(U32(order, op.value), U32(order, arity.value), arity.rest);
      } else if op.value == ITEM_PHRASE {
        U32OfReadU32(order, op.rest);
        var arity := ReadU32(order, op.rest).value;
        var index := ReadBlob(order, arity.rest).value;
        ConcatAssoc(U32(order, arity.value), Blob(order, index.value), index.rest);
        ConcatAssoc(U32(order, op.value), U32(order, arity.value) + Blob(order, index.value), index.rest);
      } else {
        var index := ReadBlob(order, op.rest).value;
        var term := ReadBlob(order, index.rest).value;
        ConcatAssoc(Blob(order, index.value), Blob(order, term.value), term.rest);
        ConcatAssoc(U32(order, op.value), Blob(order, index.value) + Blob(order, term.value), term.rest);
      }
    }
  }

  lemma ReadHeaderOf(order: ByteOrder, h: Header, rest: seq<byte>)
    requires HeaderEncodable(h)
    ensures ReadHeader(order, EncodeHeader(order, h) + rest) == Ok(Read(h, rest))
  {
    match h
    case ConnectiveHeader(op, n) => ReadConnectiveOf(order, op, n, rest);
    case PhraseHeader(n, ix) => ReadPhraseOf(order, n, ix, rest);
    case TermHeader(ix, tm) => ReadTermOf(order, ix, tm, rest);
  }

  lemma ReadConnectiveOf(order: ByteOrder, op: Connective, n: u32, rest: seq<byte>)
    ensures ReadHeader(order, EncodeHeader(order, ConnectiveHeader(op, n)) + rest) == Ok(Read(ConnectiveHeader(op, n), rest))
  {
    ConcatAssoc(U32(order, Opcode(op)), U32(order, n), rest);
    ReadU32OfU32(order, Opcode(op), U32(order, n) + rest);
    ReadU32OfU32(order, n, rest);
    assert IsConnectiveCode(Opcode(op)) && ConnectiveOf(Opcode(op)) == op;
  }

  lemma ReadPhraseOf(order: ByteOrder, n: u32, ix: seq<byte>, rest: seq<byte>)
    requires FitsU32Length(ix)
    ensures ReadHeader(order, EncodeHeader(order, PhraseHeader(n, ix)) + rest) == Ok(Read(PhraseHeader(n, ix), rest))
  {
    ConcatAssoc(U32(order, n), Blob(order, ix), rest);
    ConcatAssoc(U32(order, ITEM_PHRASE), U32(order, n) + Blob(order, ix), rest);
    ReadU32OfU32(order, ITEM_PHRASE, U32(order, n) + (Blob(order, ix) + rest));
    ReadU32OfU32(order, n, Blob(order, ix) + rest);
    ReadBlobOfBlob(order, ix, rest);
  }

  lemma ReadTermOf(order: ByteOrder, ix: seq<byte>, tm: seq<byte>, rest: seq<byte>)
    requires FitsU32Length(ix) && FitsU32Length(tm)
    ensures ReadHeader(order, EncodeHeader(order, TermHeader(ix, tm)) + rest) == Ok(Read(TermHeader(ix, tm), rest))
  {
    ConcatAssoc(Blob(order, ix), Blob(order, tm), rest);
    ConcatAssoc(U32(order, ITEM_TERM), Blob(order, ix) + Blob(order, tm), rest);
    ReadU32OfU32(order, ITEM_TERM, Blob(order, ix) + (Blob(order, tm) + rest));
    ReadBlobOfBlob(order, ix, Blob(order, tm) + rest);
    ReadBlobOfBlob(order, tm, rest);
  }

  // ---------------------------------------------------------------------------
  // A run of stack items

  predicate HeadersEncodable(hs: seq<Header>) {
    forall i :: 0 <= i < |hs| ==> HeaderEncodable(hs[i])
  }

  /** The item encoder as a total function; items that do not fit are never written. */
  function HeaderWriter(order: ByteOrder): Header -> seq<byte> {
    h => if HeaderEncodable(h) then EncodeHeader(order, h) else []
  }

  function HeaderReader(order: ByteOrder): seq<byte> -> Outcome<Read<Header>> {
    s => ReadHeader(order, s)
  }

  /** The items one after the other, with nothing between them. */
  function EncodeHeaders(order: ByteOrder, hs: seq<Header>): seq<byte>
    requires HeadersEncodable(hs)
  {
    EncodeAll(HeaderWriter(order), hs)
  }

  /** Reads exactly `n` items, one after the other. */
  function ReadHeaders(order: ByteOrder, n: nat, s: seq<byte>): (r: Outcome<Read<seq<Header>>>)
    ensures r.Ok? ==> |r.value.value| == n && HeadersEncodable(r.value.value)
  {
    ReadAllEach(HeaderReader(order), h => HeaderEncodable(h), n, s);
    ReadAll(HeaderReader(order), n, s)
  }

  /** Every encodable item is read back from its encoding. */
  lemma HeadersReadBack(order: ByteOrder, hs: seq<Header>)
    requires HeadersEncodable(hs)
    ensures forall i :: 0 <= i < |hs| ==> ReadsBack(HeaderReader(order), HeaderWriter(order), hs[i])
  {
    forall i | 0 <= i < |hs|
      ensures ReadsBack(HeaderReader(order), HeaderWriter(order), hs[i])
    {
      forall rest {
        ReadHeaderOf(order, hs[i], rest);
      }
    }
  }

  /**
   * Reading more items than were written reads the written ones and then goes
   * on into the bytes after them.
   */
  lemma ReadHeadersAppend(order: ByteOrder, hs: seq<Header>, n: nat, rest: seq<byte>)
    requires HeadersEncodable(hs) && |hs| <= n
    ensures ReadHeaders(order, n, EncodeHeaders(order, hs) + rest) ==
            match ReadHeaders(order, n - |hs|, rest)
            case Fail(e) => Fail(e)
            case Ok(after) => Ok(Read(hs + after.value, after.rest))
  {
    HeadersReadBack(order, hs);
    ReadAllAppend(HeaderReader(order), HeaderWriter(order), hs, n, rest);
  }

  /** Round trip for a run of items: reading as many as were written gives them back. */
  lemma ReadHeadersOf(order: ByteOrder, hs: seq<Header>, rest: seq<byte>)
    requires HeadersEncodable(hs)
    ensures ReadHeaders(order, |hs|, EncodeHeaders(order, hs) + rest) == Ok(Read(hs, rest))
  {
    HeadersReadBack(order, hs);
    ReadAllOf(HeaderReader(order), HeaderWriter(order), hs, rest);
  }

  /** Whatever run of items is read is exactly the bytes it was read from. */
  lemma ReadHeadersCanonical(order: ByteOrder, n: nat, s: seq<byte>)
    ensures ReadHeaders(order, n, s).Ok? ==>
              EncodeHeaders(order, ReadHeaders(order, n, s).value.value) + ReadHeaders(order, n, s).value.rest == s
  {
    forall t | ReadHeader(order, t).Ok? {
      ReadHeaderCanonical(order, t);
    }
    ReadAllCanonical(HeaderReader(order), HeaderWriter(order), n, s);
  }

  /** Reading fewer items than were written gives the first of them. */
  lemma ReadHeadersPrefix(order: ByteOrder, hs: seq<Header>, n: nat, rest: seq<byte>)
    requires HeadersEncodable(hs) && n <= |hs|
    ensures ReadHeaders(order, n, EncodeHeaders(order, hs) + rest) ==
            Ok(Read(hs[..n], EncodeHeaders(order, hs[n..]) + rest))
  {
    HeadersReadBack(order, hs);
    ReadAllPrefix(HeaderReader(order), HeaderWriter(order), hs, n, rest);
  }

  // ---------------------------------------------------------------------------
  // The tree and its items in prefix order

  function HeaderOf(t: Item): (h: Header)
    ensures Arity(h) == if t.Term? then 0 else |t.children|
  {
    match t
    case Node(op, cs) => ConnectiveHeader(op, |cs|)
    case Phrase(ix, cs) => PhraseHeader(|cs|, ix)
    case Term(ix, tm) => TermHeader(ix, tm)
  }

  /** The item with the given header and subtrees. */
  function Build(h: Header, cs: seq<Item>): (t: Item)
    requires |cs| == Arity(h)
    ensures HeaderOf(t) == h && (t.Term? || t.children == cs)
  {
    match h
    case ConnectiveHeader(op, _) => Node(op, cs)
    case PhraseHeader(_, ix) => Phrase(ix, cs)
    case TermHeader(ix, tm) => Term(ix, tm)
  }

  /** The number of stack items a tree occupies: one per node. */
  function ItemCount(t: Item): nat
    decreases t
  {
    if t.Term? then 1 else 1 + ItemsCount(t.children)
  }

  function ItemsCount(ts: seq<Item>): nat
    decreases ts
  {
    if ts == [] then 0 else ItemCount(ts[0]) + ItemsCount(ts[1..])
  }

  /** The items of a tree in prefix order: each node, then its subtrees left to right. */
  function Flatten(t: Item): seq<Header>
    decreases t
  {
    if t.Term? then [HeaderOf(t)] else [HeaderOf(t)] + FlattenAll(t.children)
  }

  function FlattenAll(ts: seq<Item>): seq<Header>
    decreases ts
  {
    if ts == [] then [] else Flatten(ts[0]) + FlattenAll(ts[1..])
  }

  /** The prefix form has exactly one item per node. */
  lemma {:induction false} FlattenLength(t: Item)
    ensures |Flatten(t)| == ItemCount(t)
    decreases t, 1
  {
    if !t.Term? {
      FlattenAllLength(t.children);
    }
  }

  lemma {:induction false} FlattenAllLength(ts: seq<Item>)
    ensures |FlattenAll(ts)| == ItemsCount(ts)
    decreases ts, 0
  {
    if ts != [] {
      FlattenLength(ts[0]);
      FlattenAllLength(ts[1..]);
    }
  }

  /** A tree parsed off the front of a run of items, and the items after it. */
  datatype Parsed<T> = Parsed(value: T, rest: seq<Header>)

  /** Rebuilds one tree from the front of a run of items, using the arities. */
  function ParseItem(hs: seq<Header>): (r: Outcome<Parsed<Item>>)
    ensures r.Ok? ==> |r.value.rest| < |hs|
    ensures r.Fail? ==> r.error == StackCorrupt
    decreases |hs|, 0, 0
  {
    if hs == [] then Fail(StackCorrupt)
    else
      var kids :- ParseChildren(Arity(hs[0]), hs[1..]);
      Ok(Parsed(Build(hs[0], kids.value), kids.rest))
  }

  /** Rebuilds `n` sibling trees, one after the other. */
  function ParseChildren(n: nat, hs: seq<Header>): (r: Outcome<Parsed<seq<Item>>>)
    ensures r.Ok? ==> |r.value.value| == n && |r.value.rest| <= |hs|
    ensures r.Fail? ==> r.error == StackCorrupt
    decreases |hs|, 1, n
  {
    if n == 0 then Ok(Parsed([], hs))
    else
      var first :- ParseItem(hs);
      var others :- ParseChildren(n - 1, first.rest);
      Ok(Parsed([first.value] + others.value, others.rest))
  }

  /** Parsing the prefix form of a tree gives the tree back and stops right after it. */
  lemma {:induction false} ParseFlatten(t: Item, more: seq<Header>)
    ensures ParseItem(Flatten(t) + more) == Ok(Parsed(t, more))
    decreases t, 1
  {
    var hs := Flatten(t) + more;
    var below := if t.Term? then [] else FlattenAll(t.children);
    assert Flatten(t) == [HeaderOf(t)] + below;
    assert hs[0] == HeaderOf(t) && hs[1..] == below + more;
    if t.Term? {
      assert below + more == more;
      assert Build(HeaderOf(t), []) == t;
    } else {
      ParseFlattenAll(t.children, more);
      assert Build(HeaderOf(t), t.children) == t;
    }
  }

  lemma {:induction false} ParseFlattenAll(ts: seq<Item>, more: seq<Header>)
    ensures ParseChildren(|ts|, FlattenAll(ts) + more) == Ok(Parsed(ts, more))
    decreases ts, 0
  {
    if ts == [] {
      assert FlattenAll(ts) + more == more;
    } else {
      var tail := FlattenAll(ts[1..]) + more;
      ConcatAssoc(Flatten(ts[0]), FlattenAll(ts[1..]), more);
      ParseFlatten(ts[0], tail);
      ParseFlattenAll(ts[1..], more);
      assert [ts[0]] + ts[1..] == ts;
    }
  }

  /** Whatever parses is the prefix form of the tree it parses to, followed by the rest. */
  lemma {:induction false} ParseCanonical(hs: seq<Header>)
    ensures ParseItem(hs).Ok? ==> hs == Flatten(ParseItem(hs).value.value) + ParseItem(hs).value.rest
    decreases |hs|, 0, 0
  {
    if hs != [] && ParseItem(hs).Ok? {
      var kids := ParseChildren(Arity(hs[0]), hs[1..]).value;
      var t := Build(hs[0], kids.value);
      ParseChildrenCanonical(Arity(hs[0]), hs[1..]);
      if t.Term? {
        assert Flatten(t) + kids.rest == [hs[0]] + hs[1..];
      } else {
        ConcatAssoc([hs[0]], FlattenAll(kids.value), kids.rest);
      }
    }
  }

  lemma {:induction false} ParseChildrenCanonical(n: nat, hs: seq<Header>)
    ensures ParseChildren(n, hs).Ok? ==>
              hs == FlattenAll(ParseChildren(n, hs).value.value) + ParseChildren(n, hs).value.rest
    decreases |hs|, 1, n
  {
    if n == 0 {
      assert FlattenAll([]) + hs == hs;
    } else if ParseChildren(n, hs).Ok? {
      var first := ParseItem(hs).value;
      var others := ParseChildren(n - 1, first.rest).value;
      ParseCanonical(hs);
      ParseChildrenCanonical(n - 1, first.rest);
      var ts := [first.value] + others.value;
      assert ts[0] == first.value && ts[1..] == others.value;
      ConcatAssoc(Flatten(first.value), FlattenAll(others.value), others.rest);
    }
  }

  /** No proper prefix of a tree's items parses: the prefix form is a prefix code. */
  lemma TruncatedItemsDoNotParse(t: Item, n: nat)
    requires n < |Flatten(t)|
    ensures ParseItem(Flatten(t)[..n]) == Fail(StackCorrupt)
  {
    var full := Flatten(t);
    var cut := full[..n];
    if ParseItem(cut).Ok? {
      var p := ParseItem(cut).value;
      ParseCanonical(cut);
      assert full + [] == full;
      ParseFlatten(t, []);
      assert full == Flatten(p.value) + (p.rest + full[n..]);
      ParseFlatten(p.value, p.rest + full[n..]);
      assert false;
    }
  }

  // ---------------------------------------------------------------------------
  // The stack dump

  /** Every arity and every string of the tree fits its 32-bit field. */
  predicate Encodable(t: Item) {
    HeadersEncodable(Flatten(t))
  }

  /** The stack items of a tree; their number is what numStackItems carries. */
  function EncodeStack(order: ByteOrder, t: Item): seq<byte>
    requires Encodable(t)
  {
    EncodeHeaders(order, Flatten(t))
  }

  /** Reads exactly `numStackItems` items; they must form exactly one tree. */
  function DecodeStack(order: ByteOrder, numStackItems: u32, s: seq<byte>): (r: Outcome<Read<Item>>)
    ensures r.Ok? ==> Encodable(r.value.value)
    ensures r.Ok? ==> ItemCount(r.value.value) == numStackItems
    ensures r.Ok? ==> EncodeStack(order, r.value.value) + r.value.rest == s
  {
    var items :- ReadHeaders(order, numStackItems, s);
    var root :- ParseItem(items.value);
    ReadHeadersCanonical(order, numStackItems, s);
    ParseCanonical(items.value);
    FlattenLength(root.value);
    if root.rest != [] then Fail(StackCorrupt)
    else
      assert items.value == Flatten(root.value);
      Ok(Read(root.value, items.rest))
  }

  /** A stack dump whose declared count is the tree's item count yields the tree. */
  lemma StackCountExact(order: ByteOrder, t: Item, rest: seq<byte>)
    requires Encodable(t)
    ensures ItemCount(t) < U32Limit ==>
              DecodeStack(order, ItemCount(t), EncodeStack(order, t) + rest) == Ok(Read(t, rest))
  {
    var hs := Flatten(t);
    FlattenLength(t);
    if ItemCount(t) < U32Limit {
      ReadHeadersOf(order, hs, rest);
      ParseFlatten(t, []);
      assert hs + [] == hs;
    }
  }

  /** A declared count below the tree's item count leaves the tree unfinished. */
  lemma StackCountTooSmall(order: ByteOrder, t: Item, numStackItems: u32, rest: seq<byte>)
    requires Encodable(t) && numStackItems < ItemCount(t)
    ensures DecodeStack(order, numStackItems, EncodeStack(order, t) + rest) == Fail(StackCorrupt)
  {
    FlattenLength(t);
    ReadHeadersPrefix(order, Flatten(t), numStackItems, rest);
    TruncatedItemsDoNotParse(t, numStackItems);
  }

  /** DecodeStack from the outcomes of its two stages. */
  lemma DecodeStackSteps(order: ByteOrder, numStackItems: u32, s: seq<byte>)
    ensures ReadHeaders(order, numStackItems, s).Fail? ==>
              DecodeStack(order, numStackItems, s) == Fail(ReadHeaders(order, numStackItems, s).error)
    ensures ReadHeaders(order, numStackItems, s).Ok? && ParseItem(ReadHeaders(order, numStackItems, s).value.value).Ok? &&
            ParseItem(ReadHeaders(order, numStackItems, s).value.value).value.rest != [] ==>
              DecodeStack(order, numStackItems, s) == Fail(StackCorrupt)
  {
  }

  /** A declared count above the tree's item count reads items past the tree's end. */
  lemma StackCountTooLarge(order: ByteOrder, t: Item, numStackItems: u32, rest: seq<byte>)
    requires Encodable(t) && numStackItems > ItemCount(t)
    ensures DecodeStack(order, numStackItems, EncodeStack(order, t) + rest).Fail?
  {
    var hs := Flatten(t);
    var s := EncodeStack(order, t) + rest;
    FlattenLength(t);
    ReadHeadersAppend(order, hs, numStackItems, rest);
    DecodeStackSteps(order, numStackItems, s);
    var after := ReadHeaders(order, numStackItems - |hs|, rest);
    if after.Ok? {
      var more := after.value;
      assert ReadHeaders(order, numStackItems, s) == Ok(Read(hs + more.value, more.rest));
      ParseFlatten(t, more.value);
      assert more.value != [];
    }
  }

  /**
   * A stack dump decodes iff its declared item count is the tree's item count;
   * it then yields the tree and stops right after its last item. A count that
   * is too small is a corrupt stack.
   */
  lemma StackCountMustMatch(order: ByteOrder, t: Item, numStackItems: u32, rest: seq<byte>)
    requires Encodable(t)
    ensures numStackItems == ItemCount(t) ==>
              DecodeStack(order, numStackItems, EncodeStack(order, t) + rest) == Ok(Read(t, rest))
    ensures numStackItems != ItemCount(t) ==>
              DecodeStack(order, numStackItems, EncodeStack(order, t) + rest).Fail?
    ensures numStackItems < ItemCount(t) ==>
              DecodeStack(order, numStackItems, EncodeStack(order, t) + rest) == Fail(StackCorrupt)
  {
    if numStackItems == ItemCount(t) {
      StackCountExact(order, t, rest);
    } else if numStackItems < ItemCount(t) {
      StackCountTooSmall(order, t, numStackItems, rest);
    } else {
      StackCountTooLarge(order, t, numStackItems, rest);
    }
  }
}
