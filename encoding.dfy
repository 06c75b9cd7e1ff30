/** The wire format of src/xpc_serialization.c as pure functions: the bytes
    a value serializes to.

    Every value starts with a 4-byte tag `type << 12`.  Scalars follow with
    their field; data and strings with a 4-byte length and the padded
    payload; dictionaries and arrays with a 4-byte body length (the bytes
    after that field), a 4-byte count and their entries or elements.  A
    whole message is the magic number and the version, then the root
    value.  Encode gives the layout that the size functions and the reader
    expect; EncodeLeafAsWritten gives what the writer actually emits for
    data and strings. */
module Encoding {
  import opened Bytes
  import opened Values

  /** XPC_BIN_MAGIC and XPC_BIN_VERSION */
  const Magic: nat := 0x4213_3742
  const Version: nat := 5

  /** XPC_SERIALIZED_TYPE */
  function Tag(id: nat): (r: seq<byte>)
    ensures |r| == 4
  {
    Store32(id * 4096)
  }

  /** The type a tag names: the reader's `read >> 12`. */
  lemma TagRoundTrip(id: nat)
    requires id < 0x10_0000
    ensures FromLittleEndian(Tag(id)) / 4096 == id
  {
    Store32RoundTrip(id * 4096);
  }

  /** A dictionary key as written: its characters and the terminator,
      padded to 4 bytes. */
  function PadKey(key: seq<byte>): (r: seq<byte>)
    ensures |r| == PadSize(|key| + 1) && Aligned(|r|)
    ensures r[..|key| + 1] == key + [0]
  {
    Pad(key + [0])
  }

  /** A container: tag, the length of what follows the length field, and
      that body. */
  function Container(id: nat, body: seq<byte>): (r: seq<byte>)
    ensures |r| == 8 + |body|
  {
    Tag(id) + Store32(|body|) + body
  }

  /** Values the writer can walk: every array slot holds an object (the
      writer reads `v->type` of every element, so a NULL slot is a NULL
      dereference), down to every leaf. */
  ghost predicate Serializable(v: Value)
    decreases v, 1
  {
    match v
    case Array(es) => forall i :: 0 <= i < |es| ==> es[i].Some? && Serializable(es[i].value)
    case Dictionary(t) =>
      forall b, i :: 0 <= b < |t.buckets| && 0 <= i < |t.buckets[b].entries| ==>
        Serializable(t.buckets[b].entries[i].value)
    case _ => true
  }

  /** The elements of a serializable array, and the entry values of a
      serializable dictionary. */
  ghost predicate ElemsSerializable(es: seq<Object>) {
    forall i :: 0 <= i < |es| ==> es[i].Some? && Serializable(es[i].value)
  }

  ghost predicate TableSerializable(t: Table) {
    forall b, i :: 0 <= b < |t.buckets| && 0 <= i < |t.buckets[b].entries| ==>
      Serializable(t.buckets[b].entries[i].value)
  }

  ghost predicate ChainSerializable(c: Chain) {
    forall i :: 0 <= i < |c.entries| ==> Serializable(c.entries[i].value)
  }

  /** The bytes of a value in the layout `_xpc_serialized_size` measures and
      `_xpc_deserialize` reads: a container is its tag, its body length, its
      count and its entries or elements. */
  function Encode(v: Value): (r: seq<byte>)
    requires Serializable(v)
    decreases v, 1
  {
    match v
    case Dictionary(t) =>
      var entries := EncodeBuckets(t, |t.buckets|);
      Container(DictionaryId, Store32(t.count) + entries)
    case Array(es) =>
      var elems := EncodeElems(es, |es|);
      Container(ArrayId, Store32(|es|) + elems)
    case _ => EncodeLeaf(v)
  }

  /** The bytes of a value that is not a container: the tag, then the
      field, or the length and the padded payload.  Types the writer does not
      handle (Null, Pointer, Date, Uuid) contribute no bytes. */
  function EncodeLeaf(v: Value): (r: seq<byte>)
    requires !(v.Array? || v.Dictionary?)
  {
    match v
    case Bool(b) => Tag(BoolId) + Store32(if b then 1 else 0)
    case Int64(i) => Tag(Int64Id) + Store64(i)
    case UInt64(u) => Tag(UInt64Id) + Store64(u)
    case Double(bits) => Tag(DoubleId) + Store64(bits)
    case Data(d) =>
      Tag(DataId) + Store32(|d|) + Pad(d)
    case String(s) =>
      Tag(StringId) + Store32(|s|) + Pad(s)
    case _ => []
  }

  /** The first n elements of an array, in order. */
  function EncodeElems(es: seq<Object>, n: nat): (r: seq<byte>)
    requires ElemsSerializable(es) && n <= |es|
    decreases Array(es), 0, n
  {
    if n == 0 then []
    else
      var o := es[n - 1];
      assert o in es;
      var prev, e := EncodeElems(es, n - 1), Encode(o.value);
      prev + e
  }

  /** The entries of the first n buckets, bucket by bucket. */
  function EncodeBuckets(t: Table, n: nat): (r: seq<byte>)
    requires TableSerializable(t) && n <= |t.buckets|
    decreases t, n
  {
    if n == 0 then []
    else
      assert ChainSerializable(t.buckets[n - 1]);
      var prev, c := EncodeBuckets(t, n - 1), EncodeChain(t.buckets[n - 1], |t.buckets[n - 1].entries|);
      prev + c
  }

  /** The first m entries of a chain, head first. */
  function EncodeChain(c: Chain, m: nat): (r: seq<byte>)
    requires ChainSerializable(c) && m <= |c.entries|
    decreases c, m
  {
    if m == 0 then [] else EncodeChain(c, m - 1) + EncodeEntry(c.entries[m - 1])
  }

  /** One dictionary entry: the padded key, then the value. */
  function EncodeEntry(e: Entry): (r: seq<byte>)
    requires Serializable(e.value)
    decreases e
  {
    PadKey(e.key) + Encode(e.value)
  }

  /** The layout of a leaf: its tag, then 4 bytes for a bool, 8 for the
      64-bit types, and for data and strings a 4-byte length and the payload
      padded to 4 bytes; no bytes at all for a type the writer skips. */
  lemma LeafLayout(v: Value)
    requires !(v.Array? || v.Dictionary?)
    ensures var r := EncodeLeaf(v);
            (v.Null? || v.Pointer? || v.Date? || v.Uuid?) <==> r == []
    ensures var r := EncodeLeaf(v);
            r != [] ==> |r| >= 8 && r[..4] == Tag(TypeOf(v))
    ensures v.Bool? ==> EncodeLeaf(v)[4..] == Store32(if v.b then 1 else 0)
    ensures v.Int64? || v.UInt64? || v.Double? ==> |EncodeLeaf(v)| == 12
    ensures v.Data? ==> EncodeLeaf(v)[4..8] == Store32(|v.bytes|) && EncodeLeaf(v)[8..] == Pad(v.bytes)
    ensures v.String? ==> EncodeLeaf(v)[4..8] == Store32(|v.chars|) && EncodeLeaf(v)[8..] == Pad(v.chars)
  {
  }

  /** The layout of a container: its tag, the body length the writer
      patches in once the body is out, which is the distance from the end
      of that field to the end of the container, and the count. */
  lemma ContainerLayout(v: Value)
    requires (v.Array? || v.Dictionary?) && Serializable(v)
    ensures var r := Encode(v);
            |r| >= 12 && r[..4] == Tag(TypeOf(v)) && r[4..8] == Store32(|r| - 8)
    ensures v.Dictionary? ==> Encode(v)[8..12] == Store32(v.table.count)
    ensures v.Array? ==> Encode(v)[8..12] == Store32(|v.elems|)
  {
  }

  /** The tag the writer emits first names the value's type: the reader's
      `read >> 12` of that word gives back xpc_get_type of the value. */
  lemma EncodedTagNamesType(v: Value)
    requires Serializable(v) && Encode(v) != []
    ensures |Encode(v)| >= 4 && FromLittleEndian(Encode(v)[..4]) / 4096 == TypeOf(v)
  {
    if v.Array? || v.Dictionary? {
      ContainerLayout(v);
    } else {
      LeafLayout(v);
    }
    TagRoundTrip(TypeOf(v));
  }

  /** Every value takes a whole number of 4-byte words, so each field the
      writer emits stays 4-byte aligned. */
  lemma {:induction false} EncodeAligned(v: Value)
    requires Serializable(v)
    decreases v, 1
    ensures Aligned(|Encode(v)|)
  {
    match v
    case Dictionary(t) =>
      BucketsAligned(t, |t.buckets|);
      AlignedAdd(4, |EncodeBuckets(t, |t.buckets|)|);
      AlignedAdd(8, 4 + |EncodeBuckets(t, |t.buckets|)|);
    case Array(es) =>
      ElemsAligned(es, |es|);
      AlignedAdd(4, |EncodeElems(es, |es|)|);
      AlignedAdd(8, 4 + |EncodeElems(es, |es|)|);
    case _ =>
  }

  lemma {:induction false} ElemsAligned(es: seq<Object>, n: nat)
    requires ElemsSerializable(es) && n <= |es|
    decreases Array(es), 0, n
    ensures Aligned(|EncodeElems(es, n)|)
  {
    if n > 0 {
      var o := es[n - 1];
      assert o in es;
      ElemsAligned(es, n - 1);
      EncodeAligned(o.value);
      AlignedAdd(|EncodeElems(es, n - 1)|, |Encode(o.value)|);
    }
  }

  lemma {:induction false} BucketsAligned(t: Table, n: nat)
    requires TableSerializable(t) && n <= |t.buckets|
    decreases t, n
    ensures Aligned(|EncodeBuckets(t, n)|)
  {
    if n > 0 {
      var c := t.buckets[n - 1];
      assert ChainSerializable(c);
      BucketsAligned(t, n - 1);
      ChainAligned(c, |c.entries|);
      AlignedAdd(|EncodeBuckets(t, n - 1)|, |EncodeChain(c, |c.entries|)|);
    }
  }

  lemma {:induction false} ChainAligned(c: Chain, m: nat)
    requires ChainSerializable(c) && m <= |c.entries|
    decreases c, m
    ensures Aligned(|EncodeChain(c, m)|)
  {
    if m > 0 {
      var x := c.entries[m - 1];
      ChainAligned(c, m - 1);
      EncodeAligned(x.value);
      assert EncodeEntry(x) == PadKey(x.key) + Encode(x.value);
      AlignedAdd(|EncodeChain(c, m - 1)|, |PadKey(x.key)|);
      AlignedAdd(|EncodeChain(c, m - 1)| + |PadKey(x.key)|, |Encode(x.value)|);
    }
  }

  /** The envelope xpc_serialize writes before the root value. */
  function Envelope(): (r: seq<byte>)
    ensures |r| == 8
  {
    Store32(Magic) + Store32(Version)
  }

  /** xpc_serialize: envelope, then the root value. */
  function EncodeMessage(v: Value): (r: seq<byte>)
    requires Serializable(v)
    ensures |r| == 8 + |Encode(v)| && r[..8] == Envelope() && r[8..] == Encode(v)
  {
    Envelope() + Encode(v)
  }

  /** The data and string cases of `_xpc_serialize` as written: the tag and
      the padded payload, with no length field, and for a string only its
      `get_length` characters, without the terminator. */
  function EncodeLeafAsWritten(v: Value): (r: seq<byte>)
    requires v.Data? || (v.String? && |v.chars| >= 1)
  {
    if v.Data? then Tag(DataId) + Pad(v.bytes)
    else Tag(StringId) + Pad(v.chars[..|v.chars| - 1])
  }

  /** The writer emits fewer bytes for a data or string value than the size
      function reserves and the reader consumes. */
  lemma LeafAsWrittenIsShort(v: Value)
    requires v.Data? || (v.String? && |v.chars| >= 1)
    ensures |EncodeLeafAsWritten(v)| + 4 <= |Encode(v)|
  {
    LeafLayout(v);
    if v.Data? {
      assert |EncodeLeafAsWritten(v)| == 4 + |Pad(v.bytes)|;
    } else {
      var n := |v.chars|;
      assert |EncodeLeafAsWritten(v)| == 4 + |Pad(v.chars[..n - 1])|;
      assert PadSize(n - 1) <= PadSize(n);
    }
  }
}
