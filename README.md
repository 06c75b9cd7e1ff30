# libxpc value model, dictionary and binary codec in Dafny

This project models the core of libxpc, a small C implementation of the XPC
object model.

- **Values.** An XPC object is a tagged value: a bool, int64, uint64, double,
  data blob, string, array or dictionary. A NULL object is `None`.
- **Dictionary.** A dictionary is a hash table of 8 buckets. Each bucket
  holds a chain of entries that stores the key's djb2 hash, the key and the
  value. The table also keeps a `count` field.
- **Codec.** The binary codec writes a value tree as:
  - a magic number `0x42133742`, then version `5`;
  - then one tagged value. A tag is `type << 12`. Scalars follow their tag
    as a 32- or 64-bit field. Data and strings follow it as a length and a
    payload padded to 4 bytes. Dictionaries and arrays follow it as a body
    length, a count and their entries or elements.

  The reader is a recursive-descent parser. It threads an offset and a
  limit. A field read past the limit yields 0. Each container clamps the
  limit to the end of its own body.

## How the model is organised

| Module | What it holds |
|---|---|
| `Bytes` | Byte, 32-bit and 64-bit fields in little-endian order, the 4-byte padding, and the `strnlen` scan. |
| `Values` | The value datatype (`Value`, `Object = Option<Value>`, `Entry`, `Chain`, `Table`) and the constructors and accessors of `src/xpc.c`. |
| `Dict` | The hash table as pure functions on `Table`: `Djb2`, `Get`, `Set`, `Fill` and `CreateTable`. Its abstract value is the map `Contents`. It also holds the invariant `Valid` and the typed getters. |
| `DictObject` | Class `Dictionary`, whose `buckets: array<Chain>` and `count` are updated in place by `set_value`. It also holds the lookup loop of `find_el`, the create loop, and the typed getters and setters. Each method is stated against `Dict`. |
| `Encoding` | The byte layout as functions: `Encode`, `EncodeMessage`, and the layout lemmas. |
| `Serializer` | The size methods and the writer, into a caller's `array<byte>`, including the backpatch of the body length. Each is proved to write exactly `Encode(v)` and to return its length. |
| `Decoding` | The reader as functions over a byte sequence, offset and limit: `Decode`, `DecodeDictionary`, `DecodeArray` and `DecodeMessage`, with the truncation policy. |
| `Deserializer` | The reader as methods with the source's loops. A dictionary is built in a fresh `DictObject.Dictionary` by repeated `SetValue`, and an array by repeated append. Each is proved equal to its `Decoding` function. |
| `RoundTrip` | Decoding the bytes of a supported value gives back `Mirror(v)`. |
| `ReaderDefects` | A concrete message on which the dictionary reader, calling set_value as written, leaves a stale entry. |
| `Mirroring` | The mirror of a dictionary has the same key-to-value map. `Mirror(v)` is v except that every dictionary chain is rebuilt in reverse order. |

Because the dictionary is rebuilt by `set_value` on an empty dictionary, in
the order the writer emitted the entries, the round trip is exact only up to
chain order. `Mirroring.MirrorKeepsContents` and
`Mirroring.GetAfterRoundTrip` show that this order is not observable through
`get_value`.

A few mappings to the C code:

- The scalar `*_create` and `*_get_value` pairs (src/xpc.c:32-67) are the
  `Value` constructors and their field selectors.
- A double is its 64-bit pattern.
- `xpc_get_type` is `Values.TypeOf`.

## Model

Dict.Set, Dict.DataOf and the typed getters and their defaults are the corrected members of the rows under "## Findings"; the lemmas about them describe the corrected library. What the code as written does is stated by the members named `...AsWritten` and by the lemmas listed there as the as-written half.

| member | source | states |
|---|---|---|
| Bytes.PadSize | src/xpc_serialization.c:11 | The padded size is a multiple of 4 and lies in [n, n + 4). |
| Bytes.PadSizeLeast | src/xpc_serialization.c:11 | No multiple of 4 that is at least n is smaller than the padded size, so it is the least such multiple. |
| Bytes.Pad | src/xpc_serialization.c:71-74 | The padded copy has the padded length, starts with the payload, and is zero after it. |
| Bytes.LittleEndianRoundTrip | src/xpc_serialization.c:163 | A field of width w written little-endian reads back as the same number, whenever that number fits in w bytes. |
| Bytes.FromLittleEndianRoundTrip | src/xpc_serialization.c:163 | Reading any w bytes and writing the number back reproduces those bytes. |
| Bytes.Store32RoundTrip | src/xpc_serialization.c:70 | A 32-bit field written with XPC_WRITE reads back as the value written. |
| Bytes.Store64RoundTrip | src/xpc_serialization.c:70 | A 64-bit field reads back as the value modulo 2^64, which is the C conversion to a 64-bit field. |
| Bytes.Int64RoundTrip | src/xpc_serialization.c:178 | An int64 written as 8 bytes and read back as int64_t is the same signed value. |
| Bytes.TakeUntilNul | src/xpc_serialization.c:223 | `strnlen` gives a prefix with no NUL that is either all of the bytes or followed by a NUL. |
| Bytes.TakeUntilNulOfTerminated | src/xpc_serialization.c:223 | For a NUL-free key followed by its terminator, the scan yields exactly that key. |
| Values.TypeOf | src/xpc.c:27-30 | Every value has one of the twelve type ids. The id is DICTIONARY exactly for dictionaries and ARRAY exactly for arrays. |
| Values.DataCreate | src/xpc.c:75-83 | A data object has type DATA, holds a copy of the bytes, and its length is their count. |
| Values.StringCreate | src/xpc.c:95-100 | A string object has type STRING. It stores the characters plus a terminating 0, and its length excludes the terminator. |
| Values.StringCreateWithLength | src/xpc.c:101-109 | A string made with length L stores the first L + 1 bytes, and string_get_length gives back L. |
| Values.DataGetBytes | src/xpc.c:84-90 | The corrected copy: min(len, size - off) bytes, taken from offset off. An offset past the end copies nothing. |
| Values.DataGetBytesAsWritten | src/xpc.c:84-90 | The code as written copies from off. For off <= size it copies min(len, size - off) bytes. For off > size and len > 0 the copy ends past the payload. |
| Values.DataGetBytesAsWrittenOverreads | src/xpc.c:86-88 | With size 1, offset 2 and length 1, the as-written copy reads past the payload, while the corrected one returns nothing. |
| Dict.HashKey | src/xpc.c:115-122 | The hash loop computes djb2: seed 5381, then h*33 + byte, wrapping at 2^64. |
| Dict.FindIn | src/xpc.c:147-157 | A hit is the first chain entry whose stored hash and key both match. A miss means that no entry matches. |
| Dict.ChainHasKey | src/xpc.c:147-157 | In a well-formed chain, the lookup misses exactly when the key is unbound, and a hit carries the key's value. |
| Dict.EmptyTable | src/xpc.c:123-128 | The table `xpc_dictionary_create(NULL, NULL, 0)` makes is valid, has no entries, and has count 0. |
| Dict.EmptyTableIsEmpty | src/xpc.c:123-132 | The empty table binds no key. |
| Dict.Get | src/xpc.c:147-162 | get_value is NULL exactly when no entry of the key's chain stores both the key and its hash. Otherwise it returns the value of such an entry. |
| Dict.Set | src/xpc.c:163-198 | The corrected set_value keeps the 8 buckets. Its effect on the map, on count and on the chains is stated by Dict.SetContents, Dict.SetKeepsValid, Dict.SetNewKeyAtHead, Dict.SetExistingInPlace and Dict.DeletePresentUnlinks. |
| Dict.GetIsLookup | src/xpc.c:158-162 | get_value returns the key's value exactly when the key is in the dictionary's map, and NULL otherwise. |
| Dict.SetKeepsValid | src/xpc.c:163-198 | The corrected set_value (Dict.Set) keeps the invariant: chains NUL-free, each entry in bucket hash % 8 with the hash of its key, keys unique, count at least the entries. The number of entries grows by 1 for a new key, shrinks by 1 for a deleted one, and count moves with it. |
| Dict.SetContents | src/xpc.c:163-198 | The corrected set_value (Dict.Set) with a value binds the key to it. With NULL it removes the key. No other binding changes. |
| Dict.GetAfterSet | src/xpc.c:158-198 | After the corrected set_value(d, k, v) (Dict.Set), get_value(d, k) returns v (NULL after a delete). |
| Dict.GetOtherAfterSet | src/xpc.c:158-198 | The corrected set_value (Dict.Set) of one key leaves every other key's get_value unchanged. |
| Dict.SetNewKeyAtHead | src/xpc.c:184-197 | A new key becomes the head of its bucket's chain with its hash, and count grows by 1. |
| Dict.SetExistingInPlace | src/xpc.c:181-183 | A present key keeps its place in its chain and only its value changes. count is unchanged. |
| Dict.DeleteAbsentIsNoop | src/xpc.c:169-180 | Deleting an absent key changes nothing. |
| Dict.DeletePresentUnlinks | src/xpc.c:169-179 | In the corrected set_value (Dict.Set), deleting a present key removes one entry from its chain, decrements count, and leaves every other bucket untouched. |
| Dict.SetChainKeeps | src/xpc.c:163-198 | On one chain, the corrected set_value keeps entries well placed and keys unique, and updates the chain's map as set or remove. |
| Dict.UnlinkKeepsChain | src/xpc.c:171-176 | Unlinking an entry removes exactly its key and shortens the chain by one. |
| Dict.ReplaceKeepsChain | src/xpc.c:181-183 | Replacing an entry's value rebinds only its key. |
| Dict.PrependKeepsChain | src/xpc.c:185-195 | Linking a new entry at the head binds the new key and keeps the keys unique. |
| Dict.FillKeepsValid | src/xpc.c:129-130 | A sequence of corrected set_value calls (Dict.Set) keeps the invariant, and count moves exactly with the number of entries. |
| Dict.FillContents | src/xpc.c:129-130 | A sequence of corrected set_value calls (Dict.Set) gives the map of the bindings applied in order: a later key wins, and NULL removes. |
| Dict.FillAppend | src/xpc.c:129-130 | Setting n + 1 pairs is setting the first n, then set_value of the last. |
| Dict.CreateTable | src/xpc.c:123-132 | The corrected create: a valid table whose count equals its entries and whose map is the pairs applied in order. |
| Dict.CreateTableAsWritten | src/xpc.c:123-132 | The create as written, which starts count at n. For non-NULL values the table keeps the invariant and binds the pairs in order, but count is n plus the entries. |
| Dict.CreateCountDrift | src/xpc.c:127-130 | For one pair, the as-written create has count 2 for 1 entry. The corrected create has count 1. |
| Dict.SetAsWritten | src/xpc.c:163-198 | set_value as written. Deleting the key that heads its chain leaves the key-to-value map and the entries as they were, and only decrements count. Every other call is Dict.Set. |
| Dict.HeadDeleteLeavesStaleEntry | src/xpc.c:171-174 | After deleting a chain head as written, the key is still found, count falls below the entries, and the invariant is broken. Dict.Set returns NULL for that key. |
| Dict.BoolOf | src/xpc.c:200-203 | get_bool gives true exactly when the value is the boolean true, and false otherwise. |
| Dict.Int64Of | src/xpc.c:204-207 | get_int64 gives the stored int64 when the type matches, and 0 otherwise. |
| Dict.UInt64Of | src/xpc.c:208-211 | get_uint64 gives the stored uint64 when the type matches, and 0 otherwise. |
| Dict.DoubleOf | src/xpc.c:212-215 | get_double gives the stored bits when the type matches, and the NaN bits otherwise. |
| Dict.DataOf | src/xpc.c:216-224 | The corrected get_data gives the value's own bytes and length when the type is DATA, and (NULL, 0) otherwise. |
| Dict.StringOf | src/xpc.c:225-228 | get_string gives the stored characters when the type is STRING, and NULL otherwise. |
| Dict.TypedRoundTrip | src/xpc.c:200-247 | A typed setter followed by the typed getter of the same key gives back the value set, for each of the six types, with the corrected get_data (Dict.DataOf) for data. |
| Dict.TypedDefaults | src/xpc.c:200-228 | In the corrected getters, an absent key gives false, 0, 0, NaN, (NULL, 0) and NULL. |
| Dict.AbsentKeyGetterDereferencesNull | src/xpc.c:200-202 | A typed getter on an absent key passes NULL to xpc_get_type, which dereferences null. |
| Dict.GetDataPointsIntoDictionary | src/xpc.c:218-220 | After set_data, get_data as written points into the dictionary, while the corrected getter gives back the bytes set. |
| DictObject.Dictionary.Empty | src/xpc.c:123-128 | A fresh dictionary object with 8 empty buckets and count 0. Its map is empty. |
| DictObject.Dictionary.constructor | src/xpc.c:123-132 | A fresh dictionary object holding the corrected create of the pairs, whose map is the pairs applied in order. |
| DictObject.Dictionary.SetAll | src/xpc.c:129-130 | The create loop leaves the object holding the table of all pairs set in order, and keeps the invariant. |
| DictObject.Dictionary.SetNext | src/xpc.c:129-130 | One pass of the create loop sets the i-th pair. |
| DictObject.Dictionary.FindEl | src/xpc.c:147-157 | The chain walk returns the first entry matching hash and key, or NULL when none matches. |
| DictObject.Dictionary.GetValue | src/xpc.c:158-162 | get_value on the object is Dict.Get of its current table. |
| DictObject.Dictionary.SetValue | src/xpc.c:163-198 | set_value updates the bucket array and count in place to Dict.Set of the old table, keeps the invariant, and keeps the same bucket array. |
| DictObject.Dictionary.GetBool | src/xpc.c:200-203 | get_bool on the object is Dict.BoolOf of the lookup. |
| DictObject.Dictionary.GetInt64 | src/xpc.c:204-207 | get_int64 on the object is Dict.Int64Of of the lookup. |
| DictObject.Dictionary.GetUInt64 | src/xpc.c:208-211 | get_uint64 on the object is Dict.UInt64Of of the lookup. |
| DictObject.Dictionary.GetDouble | src/xpc.c:212-215 | get_double on the object is Dict.DoubleOf of the lookup. |
| DictObject.Dictionary.GetData | src/xpc.c:216-224 | get_data on the object returns the value's bytes and length (corrected pointer). |
| DictObject.Dictionary.GetString | src/xpc.c:225-228 | get_string on the object is Dict.StringOf of the lookup. |
| DictObject.Dictionary.SetBool | src/xpc.c:230-232 | set_bool is set_value of a new bool object. |
| DictObject.Dictionary.SetInt64 | src/xpc.c:233-235 | set_int64 is set_value of a new int64 object. |
| DictObject.Dictionary.SetUInt64 | src/xpc.c:236-238 | set_uint64 is set_value of a new uint64 object. |
| DictObject.Dictionary.SetDouble | src/xpc.c:239-241 | set_double is set_value of a new double object. |
| DictObject.Dictionary.SetData | src/xpc.c:242-244 | set_data is set_value of a new data object holding a copy of the bytes. |
| DictObject.Dictionary.SetString | src/xpc.c:245-247 | set_string is set_value of a new string object holding the characters and terminator. |
| Encoding.TagRoundTrip | src/xpc_serialization.c:172 | Reading a tag and shifting it right by 12 recovers the type id. |
| Encoding.PadKey | src/xpc_serialization.c:133 | A key is written as its bytes and terminator, padded to a multiple of 4. |
| Encoding.LeafLayout | src/xpc_serialization.c:17-31 | Each leaf's bytes: Bool is tag and 32-bit field (8 bytes). Int64, UInt64 and Double are 12 bytes. Data is tag, length and padded payload. A string is tag, length (with terminator) and padded characters. The unserialized types take 0 bytes. |
| Encoding.EncodedTagNamesType | src/xpc_serialization.c:83-118 | The first word the writer emits for a value, shifted right by 12 as the reader does, is the value's type id. |
| Encoding.ContainerLayout | src/xpc_serialization.c:120-155 | A container starts with its tag. Its body-length field equals the bytes after that field. Then comes the count: count for a dictionary, the element count for an array. |
| Encoding.EncodeAligned | src/xpc_serialization.c:17-64 | Every encoded value has a length that is a multiple of 4. |
| Encoding.EncodeMessage | src/xpc_serialization.c:157-161 | A message is the magic and the version, then the root value, and is 8 bytes longer than it. |
| Encoding.LeafAsWrittenIsShort | src/xpc_serialization.c:100-109 | The as-written data and string bytes are at least 4 bytes shorter than the size the size function reserves and the reader consumes. |
| Decoding.Read | src/xpc_serialization.c:163 | XPC_READ yields a number that fits the field. A field that does not end before the limit reads as 0. |
| Decoding.ReadOfStore32 | src/xpc_serialization.c:163 | A 32-bit field stored before the limit reads back as its value. |
| Decoding.ReadOfStore64 | src/xpc_serialization.c:163 | A 64-bit field stored before the limit reads back as its value modulo 2^64. |
| Decoding.Payload | src/xpc_serialization.c:187-198 | The corrected payload read: the bytes at the offset when they lie before the limit, and zeros otherwise. Its length is always the declared one. |
| Decoding.KeyAt | src/xpc_serialization.c:222-224 | A key read from the buffer has no NUL. It is empty when the offset is at or past the limit. |
| Decoding.KeyAtIsScan | src/xpc_serialization.c:222-224 | The key is the bytes at the offset up to the first NUL before the limit, or up to the limit. |
| Decoding.Decode | src/xpc_serialization.c:168-208 | The read cursor always advances by at least the tag. |
| Decoding.DecodeDictionary | src/xpc_serialization.c:210-230 | A dictionary read always yields a dictionary, and the cursor passes the body-length and count fields. |
| Decoding.DecodeEntries | src/xpc_serialization.c:221-227 | Reading n entries yields n NUL-free keys and n values, and never moves the cursor back. |
| Decoding.DecodeEntry | src/xpc_serialization.c:222-225 | One entry read yields a NUL-free key and moves the cursor forward. |
| Decoding.DecodeArray | src/xpc_serialization.c:232-248 | An array read always yields an array with exactly the declared count of elements, read inside the clamped limit. |
| Decoding.DecodeElements | src/xpc_serialization.c:242-245 | Reading n elements yields n objects and never moves the cursor back. |
| Decoding.DecodedDictionaryIsValid | src/xpc_serialization.c:210-230 | Any dictionary the reader builds with the corrected set_value, from any bytes, keeps the table invariant, with count equal to its entries. |
| Decoding.EntriesStep | src/xpc_serialization.c:221-227 | Reading n entries is reading n - 1, then one more at the cursor they leave. |
| Decoding.ElementsStep | src/xpc_serialization.c:242-245 | Reading n elements is reading n - 1, then one more at the cursor they leave. |
| Decoding.DecodeMessage | src/xpc_serialization.c:250-257 | A message whose magic or version differs is NULL. |
| Decoding.ShortMessageRejected | src/xpc_serialization.c:250-255 | A buffer shorter than the envelope is NULL. |
| Decoding.UnknownTagYieldsNull | src/xpc_serialization.c:205-207 | A zero or unknown type id yields NULL, and the cursor moves past the tag. |
| Decoding.TruncatedTagYieldsNull | src/xpc_serialization.c:163-173 | A tag that runs past the limit reads as 0, so it yields NULL, and the cursor still advances by 4. |
| Decoding.DecodeReadsBeforeLimit | src/xpc_serialization.c:216-219 | The reader never looks at a byte at or past its limit: two buffers that agree before the limit decode alike. |
| Decoding.EntriesReadBeforeLimit | src/xpc_serialization.c:221-227 | Entry reads depend only on the bytes before the limit. |
| Decoding.ElementsReadBeforeLimit | src/xpc_serialization.c:242-245 | Element reads depend only on the bytes before the limit. |
| Decoding.PayloadRangeAsWritten | src/xpc_serialization.c:187-194 | The code as written copies the declared number of payload bytes from the cursor, with no check against the limit. |
| Decoding.PayloadOverreadsAsWritten | src/xpc_serialization.c:187-189 | A data value that declares 16 bytes, in a 12-byte buffer, makes the as-written copy read past the buffer. The corrected read yields 16 zeros. |
| Decoding.KeyScanLimitAsWritten | src/xpc_serialization.c:223 | The strnlen bound as written is len - off in size_t arithmetic, which wraps when the cursor has passed the limit. |
| Decoding.KeyAsWritten | src/xpc_serialization.c:222-226 | The key set_value receives as written is the bytes from the cursor to the next 0 in the buffer, with no limit. If no 0 follows, the scan runs off the end of the buffer. |
| Decoding.KeyAsWrittenBeforeLimit | src/xpc_serialization.c:222-226 | When a 0 ends the key before the limit, the code's key is the corrected KeyAt. |
| Decoding.KeyAsWrittenPassesLimit | src/xpc_serialization.c:222-226 | When no 0 comes before the limit, the code's key scan reads at or past the limit, or runs off the buffer. |
| Decoding.KeyReadPastLimitExample | src/xpc_serialization.c:222-226 | With "abcdef" and a 0 in the buffer and the limit at 4, KeyAt is "abcd" but the code stores "abcdef". With the cursor at the end of the buffer, the scan starts past it. |
| ReaderDefects.DuplicateKeyEntriesRead | src/xpc_serialization.c:221-227 | The 32-byte container with count 2 reads as the pairs "a" -> true and "a" -> NULL. |
| ReaderDefects.DuplicateKeyBodyRead | src/xpc_serialization.c:210-230 | The dictionary reader builds set_value of those two pairs on an empty dictionary and ends after the 32 bytes. |
| ReaderDefects.SecondSetAsWritten | src/xpc.c:163-198 | After "a" -> true, deleting "a" as written leaves "a" reachable with count below the entries. The corrected delete removes "a" and keeps the invariant. |
| ReaderDefects.ReaderHeadDeleteAsWritten | src/xpc_serialization.c:221-227 | The reader on that container, calling set_value as written, leaves "a" stale. With the corrected set_value the dictionary read back holds no "a" and is valid. |
| Decoding.KeyScanUnderflows | src/xpc_serialization.c:223 | With the cursor at 12 and the limit 8, the as-written bound is 2^64 - 4. The corrected key read is empty. |
| Serializer.PutThen | src/xpc_serialization.c:70 | Writing x, then y right after it, is writing x + y. |
| Serializer.Patch | src/xpc_serialization.c:138 | Overwriting a same-length field inside written bytes replaces just that field. |
| Serializer.WriteBytes | src/xpc_serialization.c:70 | XPC_WRITE puts the bytes at the cursor and changes nothing else in the buffer. |
| Serializer.CopyPadded | src/xpc_serialization.c:71-74 | XPC_COPY_PADDED puts the padded copy of the bytes at the cursor and changes nothing else. |
| Serializer.SerializedSize | src/xpc_serialization.c:17-39 | The size of a value is the length of its encoding. |
| Serializer.DictionarySerializedSize | src/xpc_serialization.c:41-55 | A dictionary's size is 12 plus, over buckets and chains, each padded key and value size. It equals the encoding length. |
| Serializer.ArraySerializedSize | src/xpc_serialization.c:57-64 | An array's size is 12 plus its elements' sizes, which is its encoding length. |
| Serializer.MessageSize | src/xpc_serialization.c:66-68 | xpc_serialized_size is the message length: the root value's size plus 8. |
| Serializer.Serialize | src/xpc_serialization.c:79-118 | The writer puts exactly the encoding of the value at the cursor. It returns that length, which equals the size function's. |
| Serializer.WriteWide | src/xpc_serialization.c:88-99 | An int64, uint64 or double is written as its tag and 8-byte field. |
| Serializer.WritePayload | src/xpc_serialization.c:100-109 | Data and strings are written as tag, length and padded payload (corrected layout). |
| Serializer.WriteHeader | src/xpc_serialization.c:126-129 | A container header is the tag, a zero placeholder and the count. |
| Serializer.PatchLength | src/xpc_serialization.c:138 | The backpatch writes the body length over the placeholder, giving the container layout. |
| Serializer.SerializeDictionary | src/xpc_serialization.c:120-140 | A dictionary is written as its encoding, with the body length backpatched to the bytes after the length field. |
| Serializer.SerializeBuckets | src/xpc_serialization.c:130-137 | The bucket walk writes the entries of buckets 0 to 7 in order. |
| Serializer.SerializeChain | src/xpc_serialization.c:132-136 | The chain walk writes each entry head to tail. |
| Serializer.SerializeEntry | src/xpc_serialization.c:133-134 | An entry is its padded key, then its value. |
| Serializer.SerializeArray | src/xpc_serialization.c:142-155 | An array is written as its encoding, with its body length backpatched. |
| Serializer.SerializeElems | src/xpc_serialization.c:151-152 | The elements are written in order. |
| Serializer.SerializeMessage | src/xpc_serialization.c:157-161 | xpc_serialize writes the magic, the version and the root value, and returns the root length plus 8. |
| Deserializer.Deserialize | src/xpc_serialization.c:168-208 | The reader's value and final cursor are those of Decoding.Decode. |
| Deserializer.DeserializeDictionary | src/xpc_serialization.c:210-230 | The dictionary reader fills a fresh dictionary object by set_value. Its result and cursor are those of Decoding.DecodeDictionary. |
| Deserializer.InsertNext | src/xpc_serialization.c:222-226 | One pass of the entry loop reads a key and a value and set_values them. The object then holds the first i + 1 entries read. |
| Deserializer.EntriesNext | src/xpc_serialization.c:221-227 | The entries read so far, plus the key and value read at their end, are the first i + 1 entries. |
| Deserializer.DeserializeArray | src/xpc_serialization.c:232-248 | The array reader appends the elements one by one. Its result and cursor are those of Decoding.DecodeArray. |
| Deserializer.DeserializeMessage | src/xpc_serialization.c:250-257 | xpc_deserialize returns Decoding.DecodeMessage of the buffer: NULL on a wrong envelope, and otherwise the root value. |
| RoundTrip.LeafDecodes | src/xpc_serialization.c:174-198 | Reading the bytes of any supported leaf gives back that leaf, with the cursor just after it. |
| RoundTrip.ContainerHeader | src/xpc_serialization.c:216-220 | For a container written by the writer, the body end `off + r_size` lands exactly on the container's end, and the count reads back. |
| RoundTrip.DecodeOfEncode | src/xpc_serialization.c:168-208 | Reading the encoding of any supported value gives back its mirror, with the cursor at its end. |
| RoundTrip.ArrayDecodes | src/xpc_serialization.c:232-248 | An encoded array reads back as the array of its elements' mirrors. |
| RoundTrip.ElemsDecode | src/xpc_serialization.c:242-245 | The first n encoded elements read back as their mirrors, in order. |
| RoundTrip.DictionaryDecodes | src/xpc_serialization.c:210-230 | An encoded dictionary reads back as its mirror: every written entry set_value'd into an empty dictionary in writing order. |
| RoundTrip.TableEntriesDecode | src/xpc_serialization.c:221-227 | The written entries of a table read back as its keys and mirrored values, in bucket and chain order. Their number is the table's count. |
| RoundTrip.PairsDecode | src/xpc_serialization.c:221-227 | The first n written entries read back as their keys and mirrored values. |
| RoundTrip.BucketsAsPairs | src/xpc_serialization.c:130-137 | The bucket walk writes the flattened entry list in order. |
| RoundTrip.FlatLength | src/xpc_serialization.c:46-53 | The walk over the buckets visits exactly the table's entries. |
| RoundTrip.MessageRoundTrip | src/xpc_serialization.c:250-257 | Deserializing a serialized supported value passes the envelope check and gives back its mirror. |
| Mirroring.PairsMapOfFlat | src/xpc_serialization.c:130-137 | Binding the written entries in order gives the table's own key-to-value map. |
| Mirroring.MirrorKeepsContents | src/xpc_serialization.c:221-227 | A dictionary read back binds the same keys as the one written, each to its value read back. |
| Mirroring.GetAfterRoundTrip | src/xpc.c:158-162 | get_value of any key on the dictionary read back gives NULL exactly when the original does, and otherwise the original's value read back. |

## Left out

- I/O, allocation and ownership: `malloc` failure and `xpc_free` are not modelled. A replaced or removed value simply leaves the tree, and array freeing is out of scope. The model has no heap aliasing between values, because each value has one owner.
- Byte order: fields are little-endian. The library writes in the host's native order.
- Floating point: a double is its 64-bit pattern. The NaN default of get_double is the quiet-NaN pattern `0x7FF8000000000000`.
- Null, Pointer, Date and Uuid: they are declared but the library gives them no body. The writer emits no bytes for them, and the reader has no case for them.
- Arrays: only the uses the codec makes are modelled, as a sequence of objects that the reader appends to. The array API in include/xpc/xpc.h has no body in the library.
- The text printer in src/xpc_debug.c and the older snapshot under xpc/ are not part of this model.
- size_t overflow of sizes and offsets: sizes and offsets are unbounded naturals, except where a finding depends on the wrap. `RoundTrip.Supported` demands that lengths and counts fit their 32-bit fields.
- The dictionary `count` is an unbounded natural. `Dict.Decrement` writes out the size_t wrap of `--count` at 0, but the corrected Set never reaches it: a valid table holding the key has count of at least 1. `Dict.SetAsWritten` starts from a valid table, so repeated deletes through a stale chain head are not modelled.
- Dict.Set: its own contract states only that the 8 buckets remain. What it does to the map, count and chains is stated by the lemmas beside it (SetContents, SetKeepsValid, SetNewKeyAtHead, SetExistingInPlace, DeletePresentUnlinks). Those lemmas are cheaper for the solver than postconditions on a function that every reader proof unfolds.
- Dict.CreateTableAsWritten: stated only for non-NULL values. A NULL value that deletes a chain head goes through the as-written delete (`Dict.HeadDeleteLeavesStaleEntry`), and this function does not build that stale table.
- Decoding.DecodeEntries: the key of each entry is `KeyAt`, cut at the limit. The code hands set_value the C string at the cursor, read up to the next 0 with no limit (`Decoding.KeyAsWritten`, under Findings).
- Decoding.DecodeEntry: the same corrected key as DecodeEntries.
- Decoding.KeyAt: the corrected key. While the cursor is before the limit it is also what the code's strnlen measures to move the cursor, so the cursor positions are those of the code.
- Decoding.DecodeReadsBeforeLimit: true of the corrected reader only. The code's set_value reads key bytes at and past the limit, and past the end of the buffer (`Decoding.KeyAsWrittenPassesLimit`).
- Decoding.EntriesReadBeforeLimit: the same, about the corrected reader.
- Decoding.ElementsReadBeforeLimit: the same, through nested dictionaries.
- Decoding.DecodedDictionaryIsValid: about the reader with the corrected set_value. As written, a key bound twice, the second time to NULL, leaves a stale entry (`ReaderDefects.ReaderHeadDeleteAsWritten`).
- Decoding.DecodeDictionary: builds its table with the corrected set_value (`Dict.Set`, through `Dict.Fill`) and the key cut at the limit (`KeyAt`). The code hands set_value as written the C string at the cursor with no limit (`Decoding.KeyAsWritten`), and a key bound twice, the second time to NULL, leaves a stale entry (`ReaderDefects.ReaderHeadDeleteAsWritten`).
- Deserializer.DeserializeDictionary: uses `KeyAt` and the corrected `DictObject.Dictionary.SetValue`, as Decoding.DecodeDictionary does.
- Deserializer.InsertNext: the same corrected key and set_value.
- Decoding.Decode: the 32-bit length of data and strings is read as int32_t and widened to size_t. For a field of 2^31 or more, `off += XPC_DATA_PAD_SIZE(tlen)` moves the code's cursor backward modulo 2^64. The model advances by the padded field. The allocation of that size fails first, and allocation failure is left out.
- Deserializer.Deserialize: the input is an immutable sequence of bytes rather than a pointer. It is never written, so this loses nothing.
- Serializer.Serialize: the writer emits the corrected data and string layout (with the length field). The layout as written is `Encoding.EncodeLeafAsWritten`, under Findings.
- Decoding.Payload: a payload that runs past the limit reads as zeros, the convention XPC_READ follows for fields. The code as written reads past the buffer (see Findings).
- Values.DataGetBytes: the corrected copy returns nothing for an offset past the end. The as-written size_t wrap is `Values.DataGetBytesAsWritten`.
- RoundTrip.DecodeOfEncode: the round trip is stated for values without a NULL array slot (a NULL slot cannot be written: the writer dereferences it). It also requires dictionaries whose count equals their entries, since a drifted count writes a count field that disagrees with the entries. Equality is up to chain order, which `Mirroring` shows unobservable through get_value. Data and string lengths are allowed up to 2^32 - 1, as the 32-bit length field holds. The reader takes that field as an int32_t (src/xpc_serialization.c:187, 192), so for lengths of 2^31 and more the code does not give the value back (see the Decoding.Decode line); the round trip is promised by the code only below 2^31.

## Findings

| source | as written | input that shows it | evidently intended | confidence | as-written member | corrected member |
|---|---|---|---|---|---|---|
| src/xpc_serialization.c:100-109 | Data and strings are written as tag and padded payload, with no length field. The size function (lines 28-31) and the reader (lines 187-197) both expect a 4-byte length. | Any data or string value: the writer emits 4 bytes fewer than `xpc_serialized_size` reserves, and the reader takes the first payload word as the length. | Write the length field (for strings, the length with its terminator) before the padded payload. | not executed | Encoding.LeafAsWrittenIsShort | Serializer.WritePayload |
| src/xpc_serialization.c:187-194 | The payload is copied for the declared length with no check against the limit. | Tag DATA, declared length 16, in a 12-byte buffer. | Only bytes before the limit are read, as XPC_READ does for fields. | not executed | Decoding.PayloadOverreadsAsWritten | Decoding.Payload |
| src/xpc_serialization.c:223 | `strnlen(key, len - off)` wraps when the cursor has passed the limit. | A dictionary entry read with the cursor at 12 and the limit 8: the bound becomes 2^64 - 4. | An empty key once the cursor is at or past the limit. | not executed | Decoding.KeyScanUnderflows | Decoding.KeyAt |
| src/xpc.c:127-130 | create sets count to n, and then every insert increments it again. | keys ["a"], values [true]: count 2 with 1 entry. | count starts at 0, so that it equals the entries. | not executed | Dict.CreateCountDrift | Dict.CreateTable |
| src/xpc.c:171-174 | Deleting the first entry of a chain unlinks it from its successor only. The bucket head still points at it, and line 176 frees it, so every later lookup through that bucket is a use after free (undefined behaviour). The model keeps the freed entry readable. | Set "a" to true, then delete "a": get_value still finds "a", and count drops below the entries. | Update the bucket head when the deleted entry has no predecessor. | not executed | Dict.HeadDeleteLeavesStaleEntry | Dict.Set |
| src/xpc.c:220 | get_data returns the bytes pointer of the dictionary, not of the data value. | set_data(d, "k", [1, 2]) then get_data(d, "k"): the pointer is into d. | Return the data value's bytes. | not executed | Dict.GetDataPointsIntoDictionary | Dict.DataOf |
| src/xpc.c:201-202 | The typed getters pass the lookup result to xpc_get_type even when it is NULL. | get_bool on a key the dictionary does not hold. | An absent key gives the getter's default. | not executed | Dict.AbsentKeyGetterDereferencesNull | Dict.TypedDefaults |
| src/xpc.c:86-88 | `v->size - off` is computed in size_t arithmetic, which wraps when off > size. | A 1-byte data value, offset 2, length 1: the copy reads 1 byte past the payload. | Copy nothing when the offset is past the end. | not executed | Values.DataGetBytesAsWrittenOverreads | Values.DataGetBytes |
| src/xpc_serialization.c:222-226 | The key handed to set_value is `&buf[off]` as a C string. strnlen's bound only moves the cursor, while the hash loop, strcmp and strlen read the key up to the next 0. | The bytes "abcdef" and a 0, with the limit at 4: the cursor moves past "abcd", but set_value stores "abcdef". | Pass set_value the key as cut at the limit. | not executed | Decoding.KeyReadPastLimitExample | Decoding.KeyAt |
| src/xpc_serialization.c:226 | The reader calls set_value as written, so a NULL value for a key that heads its chain leaves the entry reachable. | A dictionary with count 2: "a" -> true, then "a" with tag 0. | The dictionary read back holds no "a" and keeps its invariant. | not executed | ReaderDefects.ReaderHeadDeleteAsWritten | Decoding.DecodedDictionaryIsValid |
