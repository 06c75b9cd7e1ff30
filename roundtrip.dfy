/** Reading back what the writer's layout produces (src/xpc_serialization.c).

    Decoding the bytes of a value gives back the same tree, up to one thing:
    a dictionary is rebuilt by set_value on an empty dictionary, entry by
    entry in the order they were written (bucket 0 to 7, head to tail), so
    its chains hold the same entries in reverse order.  Mirror names the
    value the reader rebuilds, and MirrorKeepsContents shows that its key
    to value map is the original's with every value mirrored. */
module RoundTrip {
  import opened Bytes
  import opened Values
  import opened Encoding
  import opened Decoding
  import Dict

  /** The values the codec carries: every type the writer emits, sizes and
      counts that fit their 32-bit fields, strings that hold at least their
      terminator, arrays with no NULL slot, and dictionaries that keep the
      table invariant with `count` equal to the linked entries. */
  ghost predicate Supported(v: Value)
    decreases v, 1
  {
    Serializable(v) &&
    match v
    case Bool(_) => true
    case Int64(_) => true
    case UInt64(_) => true
    case Double(_) => true
    case Data(d) => |d| < Pow32
    case String(s) => 0 < |s| < Pow32
    case Array(es) =>
      |es| < Pow32 && forall i :: 0 <= i < |es| ==> es[i].Some? && Supported(es[i].value)
    case Dictionary(t) => TableOk(t)
    case _ => false
  }

  /** A supported dictionary's table. */
  ghost predicate TableOk(t: Table)
    decreases t, 0
  {
    Dict.Placed(t.buckets) && t.count == Dict.Live(t) && t.count < Pow32
    && forall b, i :: 0 <= b < |t.buckets| && 0 <= i < |t.buckets[b].entries| ==>
         Supported(t.buckets[b].entries[i].value)
  }

  /** The elements of a supported array, the entry values of a supported
      dictionary, and the keys and values of one of its chains. */
  ghost predicate ElemsSupported(es: seq<Object>) {
    forall i :: 0 <= i < |es| ==> es[i].Some? && Supported(es[i].value)
  }

  /** The value the reader rebuilds from the bytes of v. */
  function Mirror(v: Value): (r: Value)
    requires Supported(v)
    decreases v, 1
  {
    match v
    case Array(es) => Array(MirrorElems(es, |es|))
    case Dictionary(t) => Dictionary(MirrorTable(t))
    case _ => v
  }

  /** The table the reader rebuilds: set_value of every key and mirrored
      value on an empty dictionary, in the writer's order. */
  function MirrorTable(t: Table): (r: Table)
    requires TableOk(t)
    decreases t, 1
  {
    var es := Flat(t, |t.buckets|);
    FlatOk(t);
    PairKeysAre(es, |es|);
    Dict.Fill(Dict.EmptyTable(), PairKeys(es, |es|), MirrorPairs(t, es, |es|), |es|)
  }

  /** The first n elements of an array, mirrored. */
  function MirrorElems(es: seq<Object>, n: nat): (r: seq<Object>)
    requires ElemsSupported(es) && n <= |es|
    decreases Array(es), 0, n
    ensures |r| == n
  {
    if n == 0 then []
    else
      var o := es[n - 1];
      assert o in es;
      MirrorElems(es, n - 1) + [Some(Mirror(o.value))]
  }

  /** The entries of a table's first n buckets in the order the writer
      visits them: bucket by bucket, each chain head first. */
  function Flat(t: Table, n: nat): (r: seq<Entry>)
    requires n <= |t.buckets|
  {
    if n == 0 then [] else Flat(t, n - 1) + t.buckets[n - 1].entries
  }

  /** Every entry of the flattened table sits in one of its chains. */
  lemma {:induction false} FlatHas(t: Table, n: nat, k: nat)
    requires n <= |t.buckets| && k < |Flat(t, n)|
    ensures exists b, i :: 0 <= b < n && 0 <= i < |t.buckets[b].entries| && Flat(t, n)[k] == t.buckets[b].entries[i]
  {
    var prev := Flat(t, n - 1);
    if k < |prev| {
      FlatHas(t, n - 1, k);
      var b, i :| 0 <= b < n - 1 && 0 <= i < |t.buckets[b].entries| && prev[k] == t.buckets[b].entries[i];
      assert Flat(t, n)[k] == prev[k];
    } else {
      assert Flat(t, n)[k] == t.buckets[n - 1].entries[k - |prev|];
    }
  }

  /** As many entries as the chains link. */
  lemma {:induction false} FlatLength(t: Table, n: nat)
    requires n <= |t.buckets|
    ensures |Flat(t, n)| == Dict.LiveOf(t.buckets[..n])
  {
    if n > 0 {
      FlatLength(t, n - 1);
      assert t.buckets[..n][..n - 1] == t.buckets[..n - 1];
    }
  }

  /** The entries of a supported table, flattened: C-string keys and
      supported values. */
  ghost predicate PairsOk(es: seq<Entry>) {
    forall i :: 0 <= i < |es| ==> NoNul(es[i].key) && Supported(es[i].value)
  }

  lemma FlatOk(t: Table)
    requires TableOk(t)
    ensures PairsOk(Flat(t, |t.buckets|))
  {
    var es := Flat(t, |t.buckets|);
    forall k | 0 <= k < |es|
      ensures NoNul(es[k].key) && Supported(es[k].value)
    {
      FlatHas(t, |t.buckets|, k);
      var b, i :| 0 <= b < |t.buckets| && 0 <= i < |t.buckets[b].entries| && es[k] == t.buckets[b].entries[i];
      assert Dict.WellPlaced(t.buckets[b].entries[i], b);
    }
  }

  /** The first n keys of a list of entries. */
  function PairKeys(es: seq<Entry>, n: nat): (r: seq<seq<byte>>)
    requires n <= |es|
    ensures |r| == n
  {
    if n == 0 then [] else PairKeys(es, n - 1) + [es[n - 1].key]
  }

  lemma {:induction false} PairKeysAre(es: seq<Entry>, n: nat)
    requires n <= |es| && PairsOk(es)
    ensures Dict.CStrings(PairKeys(es, n))
    ensures forall i :: 0 <= i < n ==> PairKeys(es, n)[i] == es[i].key
  {
    if n > 0 {
      PairKeysAre(es, n - 1);
    }
  }

  /** The first n values of a table's flattened entries, mirrored. */
  function MirrorPairs(t: Table, es: seq<Entry>, n: nat): (r: seq<Object>)
    requires es == Flat(t, |t.buckets|) && PairsOk(es) && n <= |es|
    decreases t, 0, n
    ensures |r| == n
  {
    if n == 0 then []
    else
      var x := es[n - 1];
      FlatHas(t, |t.buckets|, n - 1);
      MirrorPairs(t, es, n - 1) + [Some(Mirror(x.value))]
  }

  /** The bytes of the first n entries of a list: padded key, then value. */
  function EncodePairs(es: seq<Entry>, n: nat): (r: seq<byte>)
    requires PairsSerializable(es) && n <= |es|
  {
    if n == 0 then [] else EncodePairs(es, n - 1) + EncodeEntry(es[n - 1])
  }

  ghost predicate PairsSerializable(es: seq<Entry>) {
    forall i :: 0 <= i < |es| ==> Serializable(es[i].value)
  }

  /** Bytes that hold A + B at off hold A at off and B right after it. */
  lemma SliceSplit(buf: seq<byte>, off: nat, a: seq<byte>, b: seq<byte>)
    requires off + |a| + |b| <= |buf| && buf[off..off + |a| + |b|] == a + b
    ensures buf[off..off + |a|] == a && buf[off + |a|..off + |a| + |b|] == b
  {
    var s := buf[off..off + |a| + |b|];
    assert buf[off..off + |a|] == s[..|a|];
    assert buf[off + |a|..off + |a| + |b|] == s[|a|..];
  }

  /** A tag written at off reads back as its type. */
  lemma TagAt(buf: seq<byte>, off: nat, len: nat, id: nat)
    requires off + 4 <= len <= |buf| && id < 0x10_0000 && buf[off..off + 4] == Tag(id)
    ensures Read(buf, off, len, 4) / 4096 == id
  {
    ReadOfStore32(buf, off, len, id * 4096);
  }

  /** The two field reads of a value with a 4-byte field after its tag. */
  lemma FieldAfterTag(buf: seq<byte>, off: nat, len: nat, id: nat, n: nat, rest: seq<byte>)
    requires id < 0x10_0000 && n < Pow32
    requires off + 8 + |rest| <= len <= |buf| && buf[off..off + 8 + |rest|] == Tag(id) + Store32(n) + rest
    ensures Read(buf, off, len, 4) / 4096 == id && Read(buf, off + 4, len, 4) == n
    ensures buf[off + 8..off + 8 + |rest|] == rest
  {
    SliceSplit(buf, off, Tag(id) + Store32(n), rest);
    SliceSplit(buf, off, Tag(id), Store32(n));
    TagAt(buf, off, len, id);
    ReadOfStore32(buf, off + 4, len, n);
  }

  /** The leaves the codec carries: the scalar types, and data and strings
      whose length fits the 32-bit length field (a string holding at least
      its terminator). */
  predicate LeafSupported(v: Value) {
    match v
    case Bool(_) => true
    case Int64(_) => true
    case UInt64(_) => true
    case Double(_) => true
    case Data(d) => |d| < Pow32
    case String(s) => 0 < |s| < Pow32
    case _ => false
  }

  lemma BoolDecodes(v: Value, buf: seq<byte>, off: nat, len: nat)
    requires v.Bool? && off + |EncodeLeaf(v)| <= len <= |buf| && buf[off..off + |EncodeLeaf(v)|] == EncodeLeaf(v)
    ensures Decode(buf, off, len) == (Some(v), off + |EncodeLeaf(v)|)
  {
    var n := if v.b then 1 else 0;
    assert EncodeLeaf(v) == Tag(BoolId) + Store32(n) + [];
    FieldAfterTag(buf, off, len, BoolId, n, []);
  }

  /** The 8-byte field of an Int64, UInt64 or Double value reads back as
      the unsigned image of what was stored. */
  lemma WideFieldAfterTag(buf: seq<byte>, off: nat, len: nat, id: nat, n: int)
    requires id < 0x10_0000
    requires off + 12 <= len <= |buf| && buf[off..off + 12] == Tag(id) + Store64(n)
    ensures Read(buf, off, len, 4) / 4096 == id && Read(buf, off + 4, len, 8) == n % Pow64
  {
    SliceSplit(buf, off, Tag(id), Store64(n));
    TagAt(buf, off, len, id);
    ReadOfStore64(buf, off + 4, len, n);
  }

  lemma Int64Decodes(v: Value, buf: seq<byte>, off: nat, len: nat)
    requires v.Int64? && off + |EncodeLeaf(v)| <= len <= |buf| && buf[off..off + |EncodeLeaf(v)|] == EncodeLeaf(v)
    ensures Decode(buf, off, len) == (Some(v), off + |EncodeLeaf(v)|)
  {
    WideFieldAfterTag(buf, off, len, Int64Id, v.i);
    Int64RoundTrip(v.i);
  }

  lemma UInt64Decodes(v: Value, buf: seq<byte>, off: nat, len: nat)
    requires v.UInt64? && off + |EncodeLeaf(v)| <= len <= |buf| && buf[off..off + |EncodeLeaf(v)|] == EncodeLeaf(v)
    ensures Decode(buf, off, len) == (Some(v), off + |EncodeLeaf(v)|)
  {
    WideFieldAfterTag(buf, off, len, UInt64Id, v.u);
  }

  lemma DoubleDecodes(v: Value, buf: seq<byte>, off: nat, len: nat)
    requires v.Double? && off + |EncodeLeaf(v)| <= len <= |buf| && buf[off..off + |EncodeLeaf(v)|] == EncodeLeaf(v)
    ensures Decode(buf, off, len) == (Some(v), off + |EncodeLeaf(v)|)
  {
    WideFieldAfterTag(buf, off, len, DoubleId, v.bits);
  }

  lemma DataDecodes(v: Value, buf: seq<byte>, off: nat, len: nat)
    requires v.Data? && |v.bytes| < Pow32
    requires off + |EncodeLeaf(v)| <= len <= |buf| && buf[off..off + |EncodeLeaf(v)|] == EncodeLeaf(v)
    ensures Decode(buf, off, len) == (Some(v), off + |EncodeLeaf(v)|)
  {
    var d := v.bytes;
    FieldAfterTag(buf, off, len, DataId, |d|, Pad(d));
    assert buf[off + 8..off + 8 + |d|] == Pad(d)[..|d|];
  }

  lemma StringDecodes(v: Value, buf: seq<byte>, off: nat, len: nat)
    requires v.String? && 0 < |v.chars| < Pow32
    requires off + |EncodeLeaf(v)| <= len <= |buf| && buf[off..off + |EncodeLeaf(v)|] == EncodeLeaf(v)
    ensures Decode(buf, off, len) == (Some(v), off + |EncodeLeaf(v)|)
  {
    var s := v.chars;
    FieldAfterTag(buf, off, len, StringId, |s|, Pad(s));
    assert buf[off + 8..off + 8 + |s|] == Pad(s)[..|s|];
  }

  /** Decoding the bytes of a non-container value gives it back. */
  lemma LeafDecodes(v: Value, buf: seq<byte>, off: nat, len: nat)
    requires LeafSupported(v)
    requires off + |EncodeLeaf(v)| <= len <= |buf| && buf[off..off + |EncodeLeaf(v)|] == EncodeLeaf(v)
    ensures Decode(buf, off, len) == (Some(v), off + |EncodeLeaf(v)|)
  {
    if v.Bool? {
      BoolDecodes(v, buf, off, len);
    } else if v.Int64? {
      Int64Decodes(v, buf, off, len);
    } else if v.UInt64? {
      UInt64Decodes(v, buf, off, len);
    } else if v.Double? {
      DoubleDecodes(v, buf, off, len);
    } else if v.Data? {
      DataDecodes(v, buf, off, len);
    } else {
      StringDecodes(v, buf, off, len);
    }
  }

  /** The header of a container: its tag, the body length, which lands the
      reader's clamped limit exactly on the container's end, and the count,
      read against that limit. */
  lemma ContainerHeader(buf: seq<byte>, off: nat, len: nat, id: nat, count: nat, rest: seq<byte>)
    requires id < 0x10_0000 && count < Pow32 && 4 + |rest| < Pow32
    requires off + 12 + |rest| <= len <= |buf|
    requires buf[off..off + 12 + |rest|] == Tag(id) + Store32(4 + |rest|) + (Store32(count) + rest)
    ensures Read(buf, off, len, 4) / 4096 == id
    ensures BodyEnd(buf, off + 4, len) == off + 12 + |rest|
    ensures Min(len, BodyEnd(buf, off + 4, len)) == off + 12 + |rest|
    ensures Read(buf, off + 8, off + 12 + |rest|, 4) == count
    ensures buf[..off + 12 + |rest|][off + 12..off + 12 + |rest|] == rest
  {
    FieldAfterTag(buf, off, len, id, 4 + |rest|, Store32(count) + rest);
    SliceSplit(buf, off + 8, Store32(count), rest);
    ReadOfStore32(buf, off + 8, off + 12 + |rest|, count);
  }

  /** Decoding the bytes of a supported value at off gives back its mirror
      and stops right after those bytes. */
  lemma {:induction false} DecodeOfEncode(v: Value, buf: seq<byte>, off: nat, len: nat)
    requires Supported(v) && |Encode(v)| < Pow32
    requires off + |Encode(v)| <= len <= |buf| && buf[off..off + |Encode(v)|] == Encode(v)
    decreases v, 4
    ensures Decode(buf, off, len) == (Some(Mirror(v)), off + |Encode(v)|)
  {
    match v
    case Array(es) => ArrayDecodes(v, buf, off, len);
    case Dictionary(_) => DictionaryDecodes(v, buf, off, len);
    case _ => LeafDecodes(v, buf, off, len);
  }

  lemma {:induction false} ArrayDecodes(v: Value, buf: seq<byte>, off: nat, len: nat)
    requires v.Array? && Supported(v) && |Encode(v)| < Pow32
    requires off + |Encode(v)| <= len <= |buf| && buf[off..off + |Encode(v)|] == Encode(v)
    decreases v, 1
    ensures Decode(buf, off, len) == (Some(Mirror(v)), off + |Encode(v)|)
  {
    var es := v.elems;
    var n := |es|;
    var elems := EncodeElems(es, n);
    var lim := off + 12 + |elems|;
    assert Encode(v) == Tag(ArrayId) + Store32(4 + |elems|) + (Store32(n) + elems);
    ContainerHeader(buf, off, len, ArrayId, n, elems);
    ElemsDecode(es, n, buf[..lim], off + 12, lim);
    ElementsBeforeLimit(buf, off + 12, lim, n);
    assert Decode(buf, off, len) == DecodeArray(buf, off + 4, len);
  }

  lemma {:induction false} DictionaryDecodes(v: Value, buf: seq<byte>, off: nat, len: nat)
    requires v.Dictionary? && Supported(v) && |Encode(v)| < Pow32
    requires off + |Encode(v)| <= len <= |buf| && buf[off..off + |Encode(v)|] == Encode(v)
    decreases v, 3
    ensures Decode(buf, off, len) == (Some(Mirror(v)), off + |Encode(v)|)
  {
    var t := v.table;
    var es := Flat(t, |t.buckets|);
    var entries := EncodeBuckets(t, |t.buckets|);
    var lim := off + 12 + |entries|;
    DictionaryEncoding(v);
    MirrorOfDictionary(v);
    ContainerHeader(buf, off, len, DictionaryId, t.count, entries);
    TableEntriesDecode(v, buf, off + 12, lim);
    DictionaryFromFields(buf, off, len, lim, t.count, PairKeys(es, |es|), MirrorPairs(t, es, |es|));
  }

  /** The bytes of a dictionary: its container header, count and entries. */
  lemma DictionaryEncoding(v: Value)
    requires v.Dictionary? && Serializable(v)
    ensures var entries := EncodeBuckets(v.table, |v.table.buckets|);
            Encode(v) == Tag(DictionaryId) + Store32(4 + |entries|) + (Store32(v.table.count) + entries)
  {
  }

  /** A dictionary tag, body length, count and entries that read back as
      keys and values make set_value of those pairs on an empty
      dictionary. */
  lemma DictionaryFromFields(buf: seq<byte>, off: nat, len: nat, lim: nat, cnt: nat,
                             keys: seq<seq<byte>>, values: seq<Object>)
    requires len <= |buf| && Read(buf, off, len, 4) / 4096 == DictionaryId
    requires Min(len, BodyEnd(buf, off + 4, len)) == lim && Read(buf, off + 8, lim, 4) == cnt
    requires Dict.CStrings(keys) && |keys| == cnt && |values| == cnt
    requires DecodeEntries(buf, off + 12, lim, cnt) == Entries(keys, values, lim)
    ensures Decode(buf, off, len) == (Some(Dictionary(Dict.Fill(Dict.EmptyTable(), keys, values, cnt))), lim)
  {
    DictionaryRead(buf, off + 4, len, lim, cnt, keys, values);
    DictionaryTag(buf, off, len);
  }

  /** The mirror of a dictionary is set_value of its flattened keys and
      mirrored values on an empty dictionary. */
  lemma MirrorOfDictionary(v: Value)
    requires v.Dictionary? && Supported(v)
    ensures var es := Flat(v.table, |v.table.buckets|);
            PairsOk(es) && Dict.CStrings(PairKeys(es, |es|))
            && Mirror(v) == Dictionary(Dict.Fill(Dict.EmptyTable(), PairKeys(es, |es|), MirrorPairs(v.table, es, |es|), |es|))
  {
    var es := Flat(v.table, |v.table.buckets|);
    FlatOk(v.table);
    PairKeysAre(es, |es|);
  }

  /** A dictionary tag hands the rest to the dictionary reader. */
  lemma DictionaryTag(buf: seq<byte>, off: nat, len: nat)
    requires len <= |buf| && Read(buf, off, len, 4) / 4096 == DictionaryId
    ensures Decode(buf, off, len) == DecodeDictionary(buf, off + 4, len)
  {
  }

  /** The dictionary reader, given what its body reads as. */
  lemma DictionaryRead(buf: seq<byte>, p: nat, len: nat, lim: nat, cnt: nat,
                       keys: seq<seq<byte>>, values: seq<Object>)
    requires len <= |buf| && Min(len, BodyEnd(buf, p, len)) == lim && Read(buf, p + 4, lim, 4) == cnt
    requires Dict.CStrings(keys) && |keys| == cnt && |values| == cnt
    requires DecodeEntries(buf, p + 8, lim, cnt) == Entries(keys, values, lim)
    ensures DecodeDictionary(buf, p, len) == (Some(Dictionary(Dict.Fill(Dict.EmptyTable(), keys, values, cnt))), lim)
  {
  }

  /** The entries of a dictionary, written at p up to the clamped limit,
      read back as its flattened keys and mirrored values. */
  lemma TableEntriesDecode(v: Value, buf: seq<byte>, p: nat, lim: nat)
    requires v.Dictionary? && Supported(v)
    requires p + |EncodeBuckets(v.table, |v.table.buckets|)| == lim <= |buf|
    requires |EncodeBuckets(v.table, |v.table.buckets|)| < Pow32
    requires buf[..lim][p..lim] == EncodeBuckets(v.table, |v.table.buckets|)
    decreases v, 1
    ensures var es := Flat(v.table, |v.table.buckets|);
            |es| == v.table.count && PairsOk(es)
            && DecodeEntries(buf, p, lim, v.table.count) == Entries(PairKeys(es, |es|), MirrorPairs(v.table, es, |es|), lim)
  {
    var t := v.table;
    var es := Flat(t, |t.buckets|);
    BucketsAsPairs(t, |t.buckets|);
    FlatLength(t, |t.buckets|);
    assert t.buckets[..|t.buckets|] == t.buckets;
    FlatOk(t);
    PairsDecode(v, es, |es|, buf[..lim], p, lim);
    EntriesBeforeLimit(buf, p, lim, t.count);
  }

  /** The reader of a container's body only sees the body. */
  lemma EntriesBeforeLimit(buf: seq<byte>, off: nat, lim: nat, n: nat)
    requires lim <= |buf|
    ensures DecodeEntries(buf[..lim], off, lim, n) == DecodeEntries(buf, off, lim, n)
  {
    assert buf[..lim][..lim] == buf[..lim];
    EntriesReadBeforeLimit(buf[..lim], buf, off, lim, n);
  }

  lemma ElementsBeforeLimit(buf: seq<byte>, off: nat, lim: nat, n: nat)
    requires lim <= |buf|
    ensures DecodeElements(buf[..lim], off, lim, n) == DecodeElements(buf, off, lim, n)
  {
    assert buf[..lim][..lim] == buf[..lim];
    ElementsReadBeforeLimit(buf[..lim], buf, off, lim, n);
  }

  /** The first n elements of an array read back mirrored. */
  lemma {:induction false} ElemsDecode(es: seq<Object>, n: nat, buf: seq<byte>, p: nat, len: nat)
    requires ElemsSupported(es) && ElemsSerializable(es) && n <= |es| && |EncodeElems(es, n)| < Pow32
    requires p + |EncodeElems(es, n)| <= len <= |buf| && buf[p..p + |EncodeElems(es, n)|] == EncodeElems(es, n)
    decreases Array(es), 0, n
    ensures DecodeElements(buf, p, len, n) == (MirrorElems(es, n), p + |EncodeElems(es, n)|)
  {
    if n > 0 {
      ElemsSplit(es, n, buf, p);
      ElemsDecode(es, n - 1, buf, p, len);
      ElemsStep(es, n, buf, p, len);
    }
  }

  /** The n-th element read after the first n - 1. */
  lemma ElemsStep(es: seq<Object>, n: nat, buf: seq<byte>, p: nat, len: nat)
    requires ElemsSupported(es) && ElemsSerializable(es) && 0 < n <= |es| && len <= |buf|
    requires |EncodeElems(es, n)| < Pow32 && p + |EncodeElems(es, n)| <= len
    requires var prev, ex := EncodeElems(es, n - 1), Encode(es[n - 1].value);
             |EncodeElems(es, n)| == |prev| + |ex| && buf[p + |prev|..p + |prev| + |ex|] == ex
    requires DecodeElements(buf, p, len, n - 1) == (MirrorElems(es, n - 1), p + |EncodeElems(es, n - 1)|)
    decreases Array(es), 0, n - 1, 1
    ensures DecodeElements(buf, p, len, n) == (MirrorElems(es, n), p + |EncodeElems(es, n)|)
  {
    ElemDecodes(es, n - 1, buf, p + |EncodeElems(es, n - 1)|, len);
    ElementsStep(buf, p, len, n);
    assert es[n - 1] in es;
    assert MirrorElems(es, n) == MirrorElems(es, n - 1) + [Some(Mirror(es[n - 1].value))];
    assert |EncodeElems(es, n)| == |EncodeElems(es, n - 1)| + |Encode(es[n - 1].value)|;
  }

  /** The bytes of n elements are those of the first n - 1, then those of
      the last. */
  lemma ElemsSplit(es: seq<Object>, n: nat, buf: seq<byte>, p: nat)
    requires ElemsSerializable(es) && 0 < n <= |es|
    requires p + |EncodeElems(es, n)| <= |buf| && buf[p..p + |EncodeElems(es, n)|] == EncodeElems(es, n)
    ensures var prev, ex := EncodeElems(es, n - 1), Encode(es[n - 1].value);
            |EncodeElems(es, n)| == |prev| + |ex|
            && buf[p..p + |prev|] == prev && buf[p + |prev|..p + |prev| + |ex|] == ex
  {
    var prev, ex := EncodeElems(es, n - 1), Encode(es[n - 1].value);
    SliceSplit(buf, p, prev, ex);
  }

  /** The i-th element, written at q, reads back mirrored. */
  lemma ElemDecodes(es: seq<Object>, i: nat, buf: seq<byte>, q: nat, len: nat)
    requires ElemsSupported(es) && i < |es|
    requires q + |Encode(es[i].value)| <= len <= |buf| && |Encode(es[i].value)| < Pow32
    requires buf[q..q + |Encode(es[i].value)|] == Encode(es[i].value)
    decreases Array(es), 0, i, 0
    ensures Decode(buf, q, len) == (Some(Mirror(es[i].value)), q + |Encode(es[i].value)|)
  {
    assert es[i] in es;
    DecodeOfEncode(es[i].value, buf, q, len);
  }

  /** The first n flattened entries of a dictionary read back as their
      keys and mirrored values. */
  lemma {:induction false} PairsDecode(v: Value, es: seq<Entry>, n: nat, buf: seq<byte>, p: nat, len: nat)
    requires v.Dictionary? && es == Flat(v.table, |v.table.buckets|) && PairsOk(es) && PairsSerializable(es)
    requires n <= |es| && |EncodePairs(es, n)| < Pow32
    requires p + |EncodePairs(es, n)| <= len <= |buf| && buf[p..p + |EncodePairs(es, n)|] == EncodePairs(es, n)
    decreases v, 0, n, 1
    ensures DecodeEntries(buf, p, len, n) == Entries(PairKeys(es, n), MirrorPairs(v.table, es, n), p + |EncodePairs(es, n)|)
  {
    if n > 0 {
      PairsSplit(es, n, buf, p);
      PairsDecode(v, es, n - 1, buf, p, len);
      LastPairDecodes(v, es, n, buf, p, len);
      PairsStep(v, es, n, buf, p, len);
    }
  }

  /** The n-th entry read after the first n - 1. */
  lemma PairsStep(v: Value, es: seq<Entry>, n: nat, buf: seq<byte>, p: nat, len: nat)
    requires v.Dictionary? && es == Flat(v.table, |v.table.buckets|) && PairsOk(es) && 0 < n <= |es| && len <= |buf|
    requires DecodeEntries(buf, p, len, n - 1)
             == Entries(PairKeys(es, n - 1), MirrorPairs(v.table, es, n - 1), p + |EncodePairs(es, n - 1)|)
    requires DecodeEntry(buf, p + |EncodePairs(es, n - 1)|, len)
             == (es[n - 1].key, Some(Mirror(es[n - 1].value)), p + |EncodePairs(es, n)|)
    ensures DecodeEntries(buf, p, len, n) == Entries(PairKeys(es, n), MirrorPairs(v.table, es, n), p + |EncodePairs(es, n)|)
  {
    var x := es[n - 1];
    EntriesStep(buf, p, len, n);
    assert PairKeys(es, n) == PairKeys(es, n - 1) + [x.key];
    assert MirrorPairs(v.table, es, n) == MirrorPairs(v.table, es, n - 1) + [Some(Mirror(x.value))];
  }

  /** The last of n entries written at p reads back, from where the first
      n - 1 end, as its key and mirrored value, ending where the n end. */
  lemma LastPairDecodes(v: Value, es: seq<Entry>, n: nat, buf: seq<byte>, p: nat, len: nat)
    requires v.Dictionary? && es == Flat(v.table, |v.table.buckets|) && PairsOk(es) && 0 < n <= |es|
    requires var prev, ee := EncodePairs(es, n - 1), EncodeEntry(es[n - 1]);
             |EncodePairs(es, n)| == |prev| + |ee| && |ee| < Pow32 && p + |prev| + |ee| <= len <= |buf|
             && buf[p + |prev|..p + |prev| + |ee|] == ee
    decreases v, 0, n, 0
    ensures DecodeEntry(buf, p + |EncodePairs(es, n - 1)|, len)
            == (es[n - 1].key, Some(Mirror(es[n - 1].value)), p + |EncodePairs(es, n)|)
  {
    PairDecodes(v, es, n - 1, buf, p + |EncodePairs(es, n - 1)|, p + |EncodePairs(es, n)|, len);
  }

  /** The bytes of n entries are those of the first n - 1, then the last
      entry. */
  lemma PairsSplit(es: seq<Entry>, n: nat, buf: seq<byte>, p: nat)
    requires PairsSerializable(es) && 0 < n <= |es|
    requires p + |EncodePairs(es, n)| <= |buf| && buf[p..p + |EncodePairs(es, n)|] == EncodePairs(es, n)
    ensures var prev, ee := EncodePairs(es, n - 1), EncodeEntry(es[n - 1]);
            |EncodePairs(es, n)| == |prev| + |ee|
            && buf[p..p + |prev|] == prev
            && buf[p + |prev|..p + |prev| + |ee|] == ee
  {
    SliceSplit(buf, p, EncodePairs(es, n - 1), EncodeEntry(es[n - 1]));
  }

  /** The i-th flattened entry, written at at, reads back as its key and
      mirrored value. */
  lemma PairDecodes(v: Value, es: seq<Entry>, i: nat, buf: seq<byte>, at: nat, end: nat, len: nat)
    requires v.Dictionary? && es == Flat(v.table, |v.table.buckets|) && PairsOk(es) && i < |es|
    requires var ee := EncodeEntry(es[i]);
             end == at + |ee| <= len <= |buf| && |ee| < Pow32 && buf[at..end] == ee
    decreases v, 0, 0
    ensures DecodeEntry(buf, at, len) == (es[i].key, Some(Mirror(es[i].value)), end)
  {
    var x := es[i];
    var pk, ex := PadKey(x.key), Encode(x.value);
    assert EncodeEntry(x) == pk + ex;
    SliceSplit(buf, at, pk, ex);
    FlatHas(v.table, |v.table.buckets|, i);
    DecodeOfEncode(x.value, buf, at + |pk|, len);
    KeyThenValue(x.key, buf, at, len, Some(Mirror(x.value)), at + |pk| + |ex|);
  }

  /** An entry whose padded key is written at at, followed by bytes that
      read back as val up to end, reads back as that key and val. */
  lemma KeyThenValue(key: seq<byte>, buf: seq<byte>, at: nat, len: nat, val: Object, end: nat)
    requires NoNul(key) && at + |PadKey(key)| <= len <= |buf| && buf[at..at + |PadKey(key)|] == PadKey(key)
    requires Decode(buf, at + |PadKey(key)|, len) == (val, end)
    ensures DecodeEntry(buf, at, len) == (key, val, end)
  {
    var pk := PadKey(key);
    assert KeyAt(buf, at, len) == key by {
      assert buf[at..len][..|key| + 1] == pk[..|key| + 1];
      TakeUntilNulOfTerminated(buf[at..len], key);
    }
  }

  /** The writer's walk over buckets and chains emits the entries of the
      flattened table in order. */
  lemma {:induction false} BucketsAsPairs(t: Table, n: nat)
    requires TableSerializable(t) && n <= |t.buckets|
    ensures PairsSerializable(Flat(t, n))
    ensures EncodeBuckets(t, n) == EncodePairs(Flat(t, n), |Flat(t, n)|)
  {
    if n > 0 {
      BucketsAsPairs(t, n - 1);
      var c := t.buckets[n - 1];
      assert ChainSerializable(c);
      var prev := Flat(t, n - 1);
      FlatSerializable(t, n);
      ChainAsPairs(prev, c, |c.entries|);
    }
  }

  lemma FlatSerializable(t: Table, n: nat)
    requires TableSerializable(t) && 0 < n <= |t.buckets| && PairsSerializable(Flat(t, n - 1))
    ensures PairsSerializable(Flat(t, n))
  {
    var c := t.buckets[n - 1];
    var prev := Flat(t, n - 1);
    assert ChainSerializable(c);
    forall k | 0 <= k < |Flat(t, n)| ensures Serializable(Flat(t, n)[k].value) {
      if k >= |prev| {
        assert Flat(t, n)[k] == c.entries[k - |prev|];
      } else {
        assert Flat(t, n)[k] == prev[k];
      }
    }
  }

  /** Encoding the entries of a list followed by the first m entries of a
      chain is encoding the list, then those chain entries. */
  lemma {:induction false} ChainAsPairs(es: seq<Entry>, c: Chain, m: nat)
    requires PairsSerializable(es) && PairsSerializable(es + c.entries) && ChainSerializable(c) && m <= |c.entries|
    ensures EncodePairs(es + c.entries, |es| + m) == EncodePairs(es, |es|) + EncodeChain(c, m)
  {
    var all := es + c.entries;
    if m == 0 {
      PairsPrefix(all, es, |es|);
    } else {
      ChainAsPairs(es, c, m - 1);
      var x := c.entries[m - 1];
      assert all[|es| + m - 1] == x;
      var front, rest, last := EncodePairs(es, |es|), EncodeChain(c, m - 1), EncodeEntry(x);
      assert EncodePairs(all, |es| + m) == (front + rest) + last;
      assert EncodeChain(c, m) == rest + last;
      assert (front + rest) + last == front + (rest + last);
    }
  }

  /** Two lists that agree on their first n entries encode them alike. */
  lemma {:induction false} PairsPrefix(a: seq<Entry>, b: seq<Entry>, n: nat)
    requires PairsSerializable(a) && PairsSerializable(b) && n <= |a| && n <= |b|
    requires forall i :: 0 <= i < n ==> a[i] == b[i]
    ensures EncodePairs(a, n) == EncodePairs(b, n)
  {
    if n > 0 {
      PairsPrefix(a, b, n - 1);
    }
  }

  /** A whole message read back: the envelope matches and the root value
      is the mirror of the one written. */
  lemma MessageRoundTrip(v: Value)
    requires Supported(v) && |Encode(v)| < Pow32
    ensures DecodeMessage(EncodeMessage(v)) == Some(Mirror(v))
  {
    var buf := EncodeMessage(v);
    SliceSplit(buf, 0, Store32(Magic), Store32(Version));
    ReadOfStore32(buf, 0, |buf|, Magic);
    ReadOfStore32(buf, 4, |buf|, Version);
    DecodeOfEncode(v, buf, 8, |buf|);
  }
}
