/** The writer of src/xpc_serialization.c as imperative code: the size walk
    (`xpc_serialized_size` and its helpers) and the writer that stores a
    value into a caller-provided byte buffer (`xpc_serialize` and its
    helpers), each proved against the layout Encode gives.

    The buffer is an array; the C cursor `buf` is an offset into it.  A
    container's body length is first written as 0 and patched once the body
    is out, as the C code does through `size_ptr`.  Data and strings are
    written with their 4-byte length field, the layout the size walk
    measures and the reader expects (EncodeLeafAsWritten gives what the
    code emits). */
module Serializer {
  import opened Bytes
  import opened Values
  import opened Encoding

  /** Memory a after the bytes s are stored at offset at. */
  function Put(a: seq<byte>, at: nat, s: seq<byte>): (r: seq<byte>)
    requires at + |s| <= |a|
    ensures |r| == |a|
  {
    a[..at] + s + a[at + |s|..]
  }

  /** The byte at i after the store: from s inside the stored range, as
      before outside it. */
  lemma PutIndex(a: seq<byte>, at: nat, s: seq<byte>, i: nat)
    requires at + |s| <= |a| && i < |a|
    ensures Put(a, at, s)[i] == if at <= i < at + |s| then s[i - at] else a[i]
  {
  }

  /** Storing x, then y right after it, stores x + y. */
  lemma PutThen(a: seq<byte>, at: nat, x: seq<byte>, y: seq<byte>)
    requires at + |x| + |y| <= |a|
    ensures Put(Put(a, at, x), at + |x|, y) == Put(a, at, x + y)
  {
    var b := Put(a, at, x);
    var l, r := Put(b, at + |x|, y), Put(a, at, x + y);
    forall i | 0 <= i < |a|
      ensures l[i] == r[i]
    {
      PutIndex(b, at + |x|, y, i);
      PutIndex(a, at, x, i);
      PutIndex(a, at, x + y, i);
    }
  }

  /** Overwriting the field z that follows x with w of the same width. */
  lemma Patch(a: seq<byte>, at: nat, x: seq<byte>, z: seq<byte>, w: seq<byte>, y: seq<byte>)
    requires |z| == |w| && at + |x| + |z| + |y| <= |a|
    ensures Put(Put(a, at, x + z + y), at + |x|, w) == Put(a, at, x + w + y)
  {
    var b := Put(a, at, x + z + y);
    var l, r := Put(b, at + |x|, w), Put(a, at, x + w + y);
    forall i | 0 <= i < |a|
      ensures l[i] == r[i]
    {
      PutIndex(b, at + |x|, w, i);
      PutIndex(a, at, x + z + y, i);
      PutIndex(a, at, x + w + y, i);
    }
  }

  /** XPC_WRITE and memcpy: stores the bytes of s at offset at, one by one. */
  method WriteBytes(buf: array<byte>, at: nat, s: seq<byte>)
    requires at + |s| <= buf.Length
    modifies buf
    ensures buf[..] == Put(old(buf[..]), at, s)
  {
    for k := 0 to |s|
      invariant forall i :: 0 <= i < buf.Length ==>
                  buf[i] == if at <= i < at + k then s[i - at] else old(buf[i])
    {
      buf[at + k] := s[k];
    }
    forall i | 0 <= i < buf.Length
      ensures buf[..][i] == Put(old(buf[..]), at, s)[i]
    {
      PutIndex(old(buf[..]), at, s, i);
    }
  }

  /** XPC_COPY_PADDED: the bytes of s, then zeros up to the next multiple of
      4. */
  method CopyPadded(buf: array<byte>, at: nat, s: seq<byte>)
    requires at + PadSize(|s|) <= buf.Length
    modifies buf
    ensures buf[..] == Put(old(buf[..]), at, Pad(s))
  {
    WriteBytes(buf, at, s);
    WriteBytes(buf, at + |s|, Zeros(PadSize(|s|) - |s|));
    PutThen(old(buf[..]), at, s, Zeros(PadSize(|s|) - |s|));
  }

  /** _xpc_serialized_size: the bytes a value takes, computed by walking it. */
  method SerializedSize(v: Value) returns (n: nat)
    requires Serializable(v)
    decreases v, 1
    ensures n == |Encode(v)|
  {
    match v {
      case Bool(_) => n := 4 + 4;
      case Int64(_) => n := 4 + 8;
      case UInt64(_) => n := 4 + 8;
      case Double(_) => n := 4 + 8;
      case Data(d) => n := 4 + 4 + PadSize(|d|);
      case String(s) => n := 4 + 4 + PadSize(|s|);
      case Dictionary(_) => n := DictionarySerializedSize(v);
      case Array(_) => n := ArraySerializedSize(v);
      case _ => n := 0;
    }
  }

  /** _xpc_dictionary_serialized_size: the header, then for every entry of
      every bucket its padded key with the terminator and its value. */
  method DictionarySerializedSize(v: Value) returns (n: nat)
    requires v.Dictionary? && Serializable(v)
    decreases v, 0
    ensures n == |Encode(v)|
  {
    var t := v.table;
    n := 4 + 4 * 2;
    for b := 0 to |t.buckets|
      invariant n == 12 + |EncodeBuckets(t, b)|
    {
      var c := t.buckets[b];
      assert ChainSerializable(c);
      for i := 0 to |c.entries|
        invariant n == 12 + |EncodeBuckets(t, b)| + |EncodeChain(c, i)|
      {
        var e := c.entries[i];
        assert EncodeEntry(e) == PadKey(e.key) + Encode(e.value);
        n := n + PadSize(|e.key| + 1);
        var m := SerializedSize(e.value);
        n := n + m;
      }
    }
  }

  /** _xpc_array_serialized_size: the header, then every element. */
  method ArraySerializedSize(v: Value) returns (n: nat)
    requires v.Array? && Serializable(v)
    decreases v, 0
    ensures n == |Encode(v)|
  {
    var es := v.elems;
    n := 4 + 4 * 2;
    for i := 0 to |es|
      invariant n == 12 + |EncodeElems(es, i)|
    {
      var o := es[i];
      assert o in es;
      var m := SerializedSize(o.value);
      n := n + m;
    }
  }

  /** xpc_serialized_size: the root value and the 8-byte envelope, exactly
      the bytes xpc_serialize writes. */
  method MessageSize(v: Value) returns (n: nat)
    requires Serializable(v)
    ensures n == |EncodeMessage(v)|
  {
    n := SerializedSize(v);
    n := n + 4 * 2;
  }

  /** _xpc_serialize: stores the bytes of v at offset at and returns how
      many it stored; nothing outside them changes. */
  method Serialize(v: Value, buf: array<byte>, at: nat) returns (n: nat)
    requires Serializable(v) && at + |Encode(v)| <= buf.Length
    modifies buf
    decreases v, 2
    ensures n == |Encode(v)|
    ensures buf[..] == Put(old(buf[..]), at, Encode(v))
  {
    match v {
      case Bool(b) =>
        WriteBytes(buf, at, Tag(BoolId));
        WriteBytes(buf, at + 4, Store32(if b then 1 else 0));
        PutThen(old(buf[..]), at, Tag(BoolId), Store32(if b then 1 else 0));
        n := 8;
      case Int64(i) =>
        n := WriteWide(buf, at, Int64Id, i);
      case UInt64(u) =>
        n := WriteWide(buf, at, UInt64Id, u);
      case Double(bits) =>
        n := WriteWide(buf, at, DoubleId, bits);
      case Data(d) =>
        n := WritePayload(buf, at, DataId, d);
      case String(s) =>
        n := WritePayload(buf, at, StringId, s);
      case Dictionary(_) =>
        n := SerializeDictionary(v, buf, at);
      case Array(_) =>
        n := SerializeArray(v, buf, at);
      case _ =>
        n := 0;
        assert Put(buf[..], at, []) == buf[..];
    }
  }

  /** A tag and a 64-bit field. */
  method WriteWide(buf: array<byte>, at: nat, id: nat, x: int) returns (n: nat)
    requires at + 12 <= buf.Length
    modifies buf
    ensures n == 12 && buf[..] == Put(old(buf[..]), at, Tag(id) + Store64(x))
  {
    WriteBytes(buf, at, Tag(id));
    WriteBytes(buf, at + 4, Store64(x));
    PutThen(old(buf[..]), at, Tag(id), Store64(x));
    n := 12;
  }

  /** A tag, the payload's length, and the padded payload. */
  method WritePayload(buf: array<byte>, at: nat, id: nat, s: seq<byte>) returns (n: nat)
    requires at + 8 + PadSize(|s|) <= buf.Length
    modifies buf
    ensures n == 8 + PadSize(|s|)
    ensures buf[..] == Put(old(buf[..]), at, Tag(id) + Store32(|s|) + Pad(s))
  {
    WriteBytes(buf, at, Tag(id));
    WriteBytes(buf, at + 4, Store32(|s|));
    PutThen(old(buf[..]), at, Tag(id), Store32(|s|));
    CopyPadded(buf, at + 8, s);
    PutThen(old(buf[..]), at, Tag(id) + Store32(|s|), Pad(s));
    n := 8 + PadSize(|s|);
  }

  /** Tag, a body length of 0 to be patched, and the count. */
  method WriteHeader(buf: array<byte>, at: nat, id: nat, count: nat)
    requires at + 12 <= buf.Length
    modifies buf
    ensures buf[..] == Put(old(buf[..]), at, Tag(id) + Store32(0) + Store32(count))
  {
    WriteBytes(buf, at, Tag(id));
    WriteBytes(buf, at + 4, Store32(0));
    PutThen(old(buf[..]), at, Tag(id), Store32(0));
    WriteBytes(buf, at + 8, Store32(count));
    PutThen(old(buf[..]), at, Tag(id) + Store32(0), Store32(count));
  }

  /** `*size_ptr = buf - (uint8_t *) (size_ptr + 1)`: once the body is out,
      its length goes into the field that was written as 0. */
  method PatchLength(buf: array<byte>, at: nat, id: nat, count: nat, ghost body: seq<byte>, end: nat,
                     ghost a: seq<byte>)
    requires end == at + 12 + |body| <= |a|
    requires buf[..] == Put(a, at, Tag(id) + Store32(0) + Store32(count) + body)
    modifies buf
    ensures buf[..] == Put(a, at, Container(id, Store32(count) + body))
  {
    WriteBytes(buf, at + 4, Store32(end - (at + 4 + 4)));
    Patch(a, at, Tag(id), Store32(0), Store32(end - (at + 8)), Store32(count) + body);
  }

  /** _xpc_dictionary_serialize: the header, the entries, then the
      patched body length. */
  method SerializeDictionary(v: Value, buf: array<byte>, at: nat) returns (n: nat)
    requires v.Dictionary? && Serializable(v) && at + |Encode(v)| <= buf.Length
    modifies buf
    decreases v, 1
    ensures n == |Encode(v)|
    ensures buf[..] == Put(old(buf[..]), at, Encode(v))
  {
    var t := v.table;
    ghost var head := Tag(DictionaryId) + Store32(0) + Store32(t.count);
    ghost var body := EncodeBuckets(t, |t.buckets|);
    WriteHeader(buf, at, DictionaryId, t.count);
    var m := SerializeBuckets(t, buf, at + 12);
    PutThen(old(buf[..]), at, head, body);
    PatchLength(buf, at, DictionaryId, t.count, body, at + 12 + m, old(buf[..]));
    n := 12 + m;
  }

  /** The loop of _xpc_dictionary_serialize over the 8 buckets: the entries
      of each chain in turn. */
  method SerializeBuckets(t: Table, buf: array<byte>, at: nat) returns (n: nat)
    requires TableSerializable(t) && at + |EncodeBuckets(t, |t.buckets|)| <= buf.Length
    modifies buf
    decreases t
    ensures n == |EncodeBuckets(t, |t.buckets|)|
    ensures buf[..] == Put(old(buf[..]), at, EncodeBuckets(t, |t.buckets|))
  {
    n := 0;
    for b := 0 to |t.buckets|
      invariant n == |EncodeBuckets(t, b)| <= |EncodeBuckets(t, |t.buckets|)|
      invariant buf[..] == Put(old(buf[..]), at, EncodeBuckets(t, b))
    {
      var c := t.buckets[b];
      assert ChainSerializable(c);
      BucketsPrefix(t, b + 1);
      var m := SerializeChain(c, buf, at + n);
      PutThen(old(buf[..]), at, EncodeBuckets(t, b), EncodeChain(c, |c.entries|));
      n := n + m;
    }
  }

  /** The walk of one bucket's chain from its head: each entry's key with
      its terminator, padded, then its value. */
  method SerializeChain(c: Chain, buf: array<byte>, at: nat) returns (n: nat)
    requires ChainSerializable(c) && at + |EncodeChain(c, |c.entries|)| <= buf.Length
    modifies buf
    decreases c
    ensures n == |EncodeChain(c, |c.entries|)|
    ensures buf[..] == Put(old(buf[..]), at, EncodeChain(c, |c.entries|))
  {
    n := 0;
    for i := 0 to |c.entries|
      invariant n == |EncodeChain(c, i)| <= |EncodeChain(c, |c.entries|)|
      invariant buf[..] == Put(old(buf[..]), at, EncodeChain(c, i))
    {
      var e := c.entries[i];
      ChainPrefix(c, i + 1);
      var m := SerializeEntry(e, buf, at + n);
      PutThen(old(buf[..]), at, EncodeChain(c, i), EncodeEntry(e));
      n := n + m;
    }
  }

  /** One pass of the chain walk: the key with its terminator, padded, then
      the value. */
  method SerializeEntry(e: Entry, buf: array<byte>, at: nat) returns (n: nat)
    requires Serializable(e.value) && at + |EncodeEntry(e)| <= buf.Length
    modifies buf
    decreases e
    ensures n == |EncodeEntry(e)|
    ensures buf[..] == Put(old(buf[..]), at, EncodeEntry(e))
  {
    CopyPadded(buf, at, e.key + [0]);
    var m := Serialize(e.value, buf, at + PadSize(|e.key| + 1));
    PutThen(old(buf[..]), at, PadKey(e.key), Encode(e.value));
    n := PadSize(|e.key| + 1) + m;
  }

  /** _xpc_array_serialize: the header, the elements, then the patched body
      length. */
  method SerializeArray(v: Value, buf: array<byte>, at: nat) returns (n: nat)
    requires v.Array? && Serializable(v) && at + |Encode(v)| <= buf.Length
    modifies buf
    decreases v, 1
    ensures n == |Encode(v)|
    ensures buf[..] == Put(old(buf[..]), at, Encode(v))
  {
    var es := v.elems;
    ghost var head := Tag(ArrayId) + Store32(0) + Store32(|es|);
    ghost var body := EncodeElems(es, |es|);
    WriteHeader(buf, at, ArrayId, |es|);
    var m := SerializeElems(es, buf, at + 12);
    PutThen(old(buf[..]), at, head, body);
    PatchLength(buf, at, ArrayId, |es|, body, at + 12 + m, old(buf[..]));
    n := 12 + m;
  }

  /** The loop of _xpc_array_serialize: every element in order. */
  method SerializeElems(es: seq<Object>, buf: array<byte>, at: nat) returns (n: nat)
    requires ElemsSerializable(es) && at + |EncodeElems(es, |es|)| <= buf.Length
    modifies buf
    decreases Array(es), 0
    ensures n == |EncodeElems(es, |es|)|
    ensures buf[..] == Put(old(buf[..]), at, EncodeElems(es, |es|))
  {
    n := 0;
    for i := 0 to |es|
      invariant n == |EncodeElems(es, i)| <= |EncodeElems(es, |es|)|
      invariant buf[..] == Put(old(buf[..]), at, EncodeElems(es, i))
    {
      var o := es[i];
      assert o in es;
      ElemsPrefix(es, i + 1);
      var m := Serialize(o.value, buf, at + n);
      PutThen(old(buf[..]), at, EncodeElems(es, i), Encode(o.value));
      n := n + m;
    }
  }

  /** xpc_serialize: the magic number, the version, then the root value;
      returns the bytes stored, which is what xpc_serialized_size
      reserves. */
  method SerializeMessage(v: Value, buf: array<byte>) returns (n: nat)
    requires Serializable(v) && |EncodeMessage(v)| <= buf.Length
    modifies buf
    ensures n == |EncodeMessage(v)|
    ensures buf[..] == Put(old(buf[..]), 0, EncodeMessage(v))
  {
    WriteBytes(buf, 0, Store32(Magic));
    WriteBytes(buf, 4, Store32(Version));
    PutThen(old(buf[..]), 0, Store32(Magic), Store32(Version));
    var m := Serialize(v, buf, 8);
    PutThen(old(buf[..]), 0, Envelope(), Encode(v));
    n := m + 4 * 2;
  }

  /** The bytes of the first n buckets lie within those of all of them. */
  lemma {:induction false} BucketsPrefix(t: Table, n: nat)
    requires TableSerializable(t) && n <= |t.buckets|
    decreases |t.buckets| - n
    ensures |EncodeBuckets(t, n)| <= |EncodeBuckets(t, |t.buckets|)|
  {
    if n < |t.buckets| {
      BucketsPrefix(t, n + 1);
    }
  }

  lemma {:induction false} ChainPrefix(c: Chain, m: nat)
    requires ChainSerializable(c) && m <= |c.entries|
    decreases |c.entries| - m
    ensures |EncodeChain(c, m)| <= |EncodeChain(c, |c.entries|)|
  {
    if m < |c.entries| {
      ChainPrefix(c, m + 1);
    }
  }

  lemma {:induction false} ElemsPrefix(es: seq<Object>, n: nat)
    requires ElemsSerializable(es) && n <= |es|
    decreases |es| - n
    ensures |EncodeElems(es, n)| <= |EncodeElems(es, |es|)|
  {
    if n < |es| {
      ElemsPrefix(es, n + 1);
    }
  }
}
