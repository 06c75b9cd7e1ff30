/** What the dictionary reader (src/xpc_serialization.c, lines 210-230)
    does when a message binds a key twice, the second time to NULL: the
    reader hands every pair to xpc_dictionary_set_value, and set_value as
    written mishandles the delete of a chain head (Dict.SetAsWritten). */
module ReaderDefects {
  import opened Bytes
  import opened Values
  import opened Encoding
  import opened Decoding
  import opened RoundTrip
  import Dict

  /** The key "a". */
  const KeyA: seq<byte> := [0x61]

  /** The entries of a two-pair dictionary: "a" -> true, then "a" under
      tag 0, which the reader takes for NULL. */
  function DuplicateKeyEntries(): (rest: seq<byte>)
    ensures |rest| == 20
  {
    PadKey(KeyA) + EncodeLeaf(Bool(true)) + PadKey(KeyA) + Tag(0)
  }

  /** A dictionary container with count 2 and those entries. */
  function DuplicateKeyMessage(): (buf: seq<byte>)
    ensures |buf| == 32
  {
    var rest := DuplicateKeyEntries();
    Tag(DictionaryId) + Store32(4 + |rest|) + (Store32(2) + rest)
  }

  /** The pairs the message carries, in order. */
  const Keys: seq<seq<byte>> := [KeyA, KeyA]
  const Values2: seq<Object> := [Some(Bool(true)), None]

  /** The reader takes the two entries as "a" -> true and "a" -> NULL. */
  lemma DuplicateKeyEntriesRead(buf: seq<byte>)
    requires buf == DuplicateKeyMessage()
    ensures DecodeEntries(buf, 12, 32, 2) == Entries(Keys, Values2, 32)
  {
    var rest := DuplicateKeyEntries();
    var pk, leaf := PadKey(KeyA), EncodeLeaf(Bool(true));
    assert buf[0..32] == buf;
    ContainerHeader(buf, 0, 32, DictionaryId, 2, rest);
    assert buf[..32] == buf;
    SliceSplit(buf, 12, pk + leaf + pk, Tag(0));
    SliceSplit(buf, 12, pk + leaf, pk);
    SliceSplit(buf, 12, pk, leaf);
    assert NoNul(KeyA);
    LeafDecodes(Bool(true), buf, 16, 32);
    KeyThenValue(KeyA, buf, 12, 32, Some(Bool(true)), 24);
    assert Tag(0) == Store32(0);
    ReadOfStore32(buf, 28, 32, 0);
    UnknownTagYieldsNull(buf, 28, 32);
    KeyThenValue(KeyA, buf, 24, 32, None, 32);
    EntriesStep(buf, 12, 32, 1);
    assert DecodeEntries(buf, 12, 32, 1) == Entries([KeyA], [Some(Bool(true))], 24);
    EntriesStep(buf, 12, 32, 2);
  }

  /** The container's tag, body length and count. */
  lemma DuplicateKeyHeader(buf: seq<byte>)
    requires buf == DuplicateKeyMessage()
    ensures Read(buf, 0, 32, 4) / 4096 == DictionaryId
    ensures Min(32, BodyEnd(buf, 4, 32)) == 32
    ensures Read(buf, 8, 32, 4) == 2
  {
    assert buf[0..32] == buf;
    ContainerHeader(buf, 0, 32, DictionaryId, 2, DuplicateKeyEntries());
  }

  /** The dictionary reader, after the tag, builds set_value of those
      pairs on an empty dictionary and ends after the 32 bytes. */
  lemma DuplicateKeyBodyRead(buf: seq<byte>)
    requires buf == DuplicateKeyMessage()
    ensures DecodeDictionary(buf, 4, 32) == (Some(Dictionary(Dict.Fill(Dict.EmptyTable(), Keys, Values2, 2))), 32)
  {
    DuplicateKeyHeader(buf);
    DuplicateKeyEntriesRead(buf);
    assert NoNul(KeyA);
    assert Dict.CStrings(Keys);
    DictionaryRead(buf, 4, 32, 32, 2, Keys, Values2);
  }

  /** Setting "a" to true and then to NULL: as written "a" stays
      reachable through its bucket and `count` drops below the reachable
      entries; the corrected set_value removes it and keeps the
      invariant. */
  lemma SecondSetAsWritten()
    ensures var first := Dict.Fill(Dict.EmptyTable(), Keys, Values2, 1);
      Dict.Valid(first)
      && Dict.Get(Dict.SetAsWritten(first, KeyA, None), KeyA) == Some(Bool(true))
      && Dict.SetAsWritten(first, KeyA, None).count < Dict.Live(Dict.SetAsWritten(first, KeyA, None))
      && Dict.Fill(Dict.EmptyTable(), Keys, Values2, 2) == Dict.Set(first, KeyA, None)
      && Dict.Get(Dict.Fill(Dict.EmptyTable(), Keys, Values2, 2), KeyA) == None
      && Dict.Valid(Dict.Fill(Dict.EmptyTable(), Keys, Values2, 2))
  {
    var empty := Dict.EmptyTable();
    var first := Dict.Fill(empty, Keys, Values2, 1);
    Dict.EmptyTableIsEmpty();
    assert first == Dict.Set(empty, KeyA, Some(Bool(true)));
    Dict.SetKeepsValid(empty, KeyA, Some(Bool(true)));
    Dict.SetNewKeyAtHead(empty, KeyA, Bool(true));
    Dict.HeadDeleteLeavesStaleEntry(first, KeyA);
    assert Dict.Fill(empty, Keys, Values2, 2) == Dict.Set(first, KeyA, None);
    Dict.SetKeepsValid(first, KeyA, None);
  }

  /** _xpc_deserialize_dictionary on that container hands "a" -> true and
      then "a" -> NULL to set_value.  As written, the second call deletes
      the head of "a"'s chain, so "a" stays reachable and `count` falls
      below the reachable entries; with the corrected set_value the
      dictionary read back holds no "a" and keeps the table invariant. */
  lemma ReaderHeadDeleteAsWritten()
    ensures var buf := DuplicateKeyMessage();
      var first := Dict.Fill(Dict.EmptyTable(), Keys, Values2, 1);
      var read := Dict.Fill(Dict.EmptyTable(), Keys, Values2, 2);
      DecodeEntries(buf, 12, 32, 2) == Entries(Keys, Values2, 32)
      && DecodeDictionary(buf, 4, 32) == (Some(Dictionary(read)), 32)
      && Dict.Valid(first)
      && Dict.Get(Dict.SetAsWritten(first, KeyA, None), KeyA) == Some(Bool(true))
      && Dict.SetAsWritten(first, KeyA, None).count < Dict.Live(Dict.SetAsWritten(first, KeyA, None))
      && read == Dict.Set(first, KeyA, None)
      && Dict.Get(read, KeyA) == None && Dict.Valid(read)
  {
    DuplicateKeyEntriesRead(DuplicateKeyMessage());
    DuplicateKeyBodyRead(DuplicateKeyMessage());
    SecondSetAsWritten();
  }
}
