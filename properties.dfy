/**
 * Property sets as they travel in the GETDOCSUMSX body: a count, then per set
 * a length-prefixed name, an entry count and the entries, each entry a
 * length-prefixed key and a length-prefixed value.
 */
module Properties {
  import opened Results
  import opened Wire

  /** A byte string short enough for its 32-bit length prefix. */
  type Bytes32 = b: seq<byte> | FitsU32Length(b) witness []

  datatype Entry = Entry(key: Bytes32, value: Bytes32)

  /** The entries of one set; their count is written as a 32-bit integer. */
  type Entries = es: seq<Entry> | |es| < U32Limit witness []

  datatype PropertySet = PropertySet(name: Bytes32, entries: Entries)

  // ---------------------------------------------------------------------------
  // Entries

  function EntryBytes(order: ByteOrder, e: Entry): (r: seq<byte>)
    ensures |r| == 8 + |e.key| + |e.value|
  {
    Blob(order, e.key) + Blob(order, e.value)
  }

  function ReadEntry(order: ByteOrder, s: seq<byte>): (r: Outcome<Read<Entry>>)
    ensures r.Ok? ==> EntryBytes(order, r.value.value) + r.value.rest == s
  {
    var key :- ReadBlob(order, s);
    var value :- ReadBlob(order, key.rest);
    ConcatAssoc(Blob(order, key.value), Blob(order, value.value), value.rest);
    Ok(Read(Entry(key.value, value.value), value.rest))
  }

  lemma ReadEntryOf(order: ByteOrder, e: Entry, rest: seq<byte>)
    ensures ReadEntry(order, EntryBytes(order, e) + rest) == Ok(Read(e, rest))
  {
    ConcatAssoc(Blob(order, e.key), Blob(order, e.value), rest);
    ReadBlobOfBlob(order, e.key, Blob(order, e.value) + rest);
    ReadBlobOfBlob(order, e.value, rest);
  }

  function EntryWriter(order: ByteOrder): Entry -> seq<byte> {
    e => EntryBytes(order, e)
  }

  function EntryReader(order: ByteOrder): seq<byte> -> Outcome<Read<Entry>> {
    s => ReadEntry(order, s)
  }

  // ---------------------------------------------------------------------------
  // One property set

  function PropertySetBytes(order: ByteOrder, p: PropertySet): seq<byte> {
    Blob(order, p.name) + (U32(order, |p.entries|) + EncodeAll(EntryWriter(order), p.entries))
  }

  function ReadPropertySet(order: ByteOrder, s: seq<byte>): (r: Outcome<Read<PropertySet>>)
    ensures r.Ok? ==> PropertySetBytes(order, r.value.value) + r.value.rest == s
  {
    var name :- ReadBlob(order, s);
    var count :- ReadU32(order, name.rest);
    ReadAllCanonical(EntryReader(order), EntryWriter(order), count.value, count.rest);
    var entries :- ReadAll(EntryReader(order), count.value, count.rest);
    U32OfReadU32(order, name.rest);
    var es: Entries := entries.value;
    var eb := EncodeAll(EntryWriter(order), es);
    ConcatAssoc(U32(order, |es|), eb, entries.rest);
    ConcatAssoc(Blob(order, name.value), U32(order, |es|) + eb, entries.rest);
    Ok(Read(PropertySet(name.value, es), entries.rest))
  }

  lemma ReadPropertySetOf(order: ByteOrder, p: PropertySet, rest: seq<byte>)
    ensures ReadPropertySet(order, PropertySetBytes(order, p) + rest) == Ok(Read(p, rest))
  {
    var eb := EncodeAll(EntryWriter(order), p.entries);
    ConcatAssoc(U32(order, |p.entries|), eb, rest);
    ConcatAssoc(Blob(order, p.name), U32(order, |p.entries|) + eb, rest);
    ReadBlobOfBlob(order, p.name, U32(order, |p.entries|) + (eb + rest));
    ReadU32OfU32(order, |p.entries|, eb + rest);
    forall i | 0 <= i < |p.entries|
      ensures ReadsBack(EntryReader(order), EntryWriter(order), p.entries[i])
    {
      forall rest' {
        ReadEntryOf(order, p.entries[i], rest');
      }
    }
    ReadAllOf(EntryReader(order), EntryWriter(order), p.entries, rest);
  }

  function SetWriter(order: ByteOrder): PropertySet -> seq<byte> {
    p => PropertySetBytes(order, p)
  }

  function SetReader(order: ByteOrder): seq<byte> -> Outcome<Read<PropertySet>> {
    s => ReadPropertySet(order, s)
  }

  // ---------------------------------------------------------------------------
  // The properties section: a count, then that many sets

  function PropertiesBytes(order: ByteOrder, ps: seq<PropertySet>): seq<byte>
    requires |ps| < U32Limit
  {
    U32(order, |ps|) + EncodeAll(SetWriter(order), ps)
  }

  function ReadProperties(order: ByteOrder, s: seq<byte>): (r: Outcome<Read<seq<PropertySet>>>)
    ensures r.Ok? ==> |r.value.value| < U32Limit && PropertiesBytes(order, r.value.value) + r.value.rest == s
  {
    var count :- ReadU32(order, s);
    ReadAllCanonical(SetReader(order), SetWriter(order), count.value, count.rest);
    var sets :- ReadAll(SetReader(order), count.value, count.rest);
    U32OfReadU32(order, s);
    ConcatAssoc(U32(order, count.value), EncodeAll(SetWriter(order), sets.value), sets.rest);
    Ok(sets)
  }

  lemma ReadPropertiesOf(order: ByteOrder, ps: seq<PropertySet>, rest: seq<byte>)
    requires |ps| < U32Limit
    ensures ReadProperties(order, PropertiesBytes(order, ps) + rest) == Ok(Read(ps, rest))
  {
    var sb := EncodeAll(SetWriter(order), ps);
    ConcatAssoc(U32(order, |ps|), sb, rest);
    ReadU32OfU32(order, |ps|, sb + rest);
    forall i | 0 <= i < |ps|
      ensures ReadsBack(SetReader(order), SetWriter(order), ps[i])
    {
      forall rest' {
        ReadPropertySetOf(order, ps[i], rest');
      }
    }
    ReadAllOf(SetReader(order), SetWriter(order), ps, rest);
  }
}
