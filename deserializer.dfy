/** The reader of src/xpc_serialization.c as imperative code: it walks the
    read-only input with a cursor, fills a dictionary object by set_value,
    and appends array elements one by one.  The input is a sequence, since
    the reader never writes to it.  Each method is proved against the pure
    reader of module Decoding, whose properties (the limit, the unknown
    tags, the round trip) are proved there and in RoundTrip. */
module Deserializer {
  import opened Bytes
  import opened Values
  import opened Encoding
  import opened Decoding
  import Dict
  import DictObject

  /** _xpc_deserialize: the tag, then the value the type after `>> 12`
      names; the object read and the offset after it. */
  method Deserialize(buf: seq<byte>, off: nat, len: nat) returns (o: Object, end: nat)
    requires len <= |buf|
    decreases Room(off, len), 0, 0
    ensures (o, end) == Decode(buf, off, len)
  {
    FieldWidths();
    var id := Read(buf, off, len, 4) / 4096;
    var p := off + 4;
    if id == BoolId {
      o, end := Some(Bool(Read(buf, p, len, 4) != 0)), p + 4;
    } else if id == Int64Id {
      o, end := Some(Int64(Signed64(Read(buf, p, len, 8)))), p + 8;
    } else if id == UInt64Id {
      o, end := Some(UInt64(Read(buf, p, len, 8))), p + 8;
    } else if id == DoubleId {
      o, end := Some(Double(Read(buf, p, len, 8))), p + 8;
    } else if id == DataId {
      var n := Read(buf, p, len, 4);
      o, end := Some(Data(Payload(buf, p + 4, len, n))), p + 4 + PadSize(n);
    } else if id == StringId {
      var n := Read(buf, p, len, 4);
      o := Some(if n > 0 then String(Payload(buf, p + 4, len, n)) else String([0]));
      end := p + 4 + PadSize(n);
    } else if id == DictionaryId {
      o, end := DeserializeDictionary(buf, p, len);
    } else if id == ArrayId {
      o, end := DeserializeArray(buf, p, len);
    } else {
      o, end := None, p;
    }
  }

  /** _xpc_deserialize_dictionary: a fresh dictionary object, the body
      length and the limit clamped to the body's end, the count, then one
      set_value per entry read. */
  method DeserializeDictionary(buf: seq<byte>, off: nat, len: nat) returns (o: Object, end: nat)
    requires len <= |buf|
    decreases Room(off, len), 2, 0
    ensures (o, end) == DecodeDictionary(buf, off, len)
  {
    var d := new DictObject.Dictionary.Empty();
    var lim := Min(len, BodyEnd(buf, off, len));
    var cnt := Read(buf, off + 4, lim, 4);
    var cur := off + 8;
    var i := 0;
    while i < cnt
      invariant i <= cnt && d.Valid() && fresh(d.buckets)
      invariant var e := DecodeEntries(buf, off + 8, lim, i);
                cur == e.end && d.Snapshot() == Dict.Fill(Dict.EmptyTable(), e.keys, e.values, i)
      decreases cnt - i
    {
      cur := InsertNext(d, buf, off + 8, lim, i, cur);
      i := i + 1;
    }
    o, end := Some(Dictionary(d.Snapshot())), cur;
  }

  /** One pass of that loop: the key up to its terminator (strnlen), the
      cursor past the padded key, the value, and set_value of the pair. */
  method InsertNext(d: DictObject.Dictionary, buf: seq<byte>, base: nat, lim: nat, i: nat, cur: nat)
    returns (next: nat)
    requires lim <= |buf| && d.Valid()
    requires var e := DecodeEntries(buf, base, lim, i);
             cur == e.end && d.Snapshot() == Dict.Fill(Dict.EmptyTable(), e.keys, e.values, i)
    modifies d, d.buckets
    decreases Room(cur, lim), 1, 0
    ensures d.Valid() && d.buckets == old(d.buckets)
    ensures var e := DecodeEntries(buf, base, lim, i + 1);
            next == e.end && d.Snapshot() == Dict.Fill(Dict.EmptyTable(), e.keys, e.values, i + 1)
  {
    ghost var e := DecodeEntries(buf, base, lim, i);
    var key := KeyAt(buf, cur, lim);
    var val;
    val, next := Deserialize(buf, cur + PadSize(|key| + 1), lim);
    d.SetValue(key, val);
    EntriesNext(buf, base, lim, i, key, val, next);
    Dict.FillAppend(Dict.EmptyTable(), e.keys, e.values, key, val);
  }

  /** The entries after pass i + 1 are those after pass i and the pair
      that pass reads. */
  lemma EntriesNext(buf: seq<byte>, base: nat, lim: nat, i: nat, key: seq<byte>, val: Object, next: nat)
    requires lim <= |buf|
    requires var cur := DecodeEntries(buf, base, lim, i).end;
             key == KeyAt(buf, cur, lim) && (val, next) == Decode(buf, cur + PadSize(|key| + 1), lim)
    ensures var e := DecodeEntries(buf, base, lim, i);
            DecodeEntries(buf, base, lim, i + 1) == Entries(e.keys + [key], e.values + [val], next)
  {
    EntriesStep(buf, base, lim, i + 1);
  }

  /** _xpc_deserialize_array: the body length and the clamped limit, the
      count, then that many values appended in order. */
  method DeserializeArray(buf: seq<byte>, off: nat, len: nat) returns (o: Object, end: nat)
    requires len <= |buf|
    decreases Room(off, len), 2, 0
    ensures (o, end) == DecodeArray(buf, off, len)
  {
    var lim := Min(len, BodyEnd(buf, off, len));
    var cnt := Read(buf, off + 4, lim, 4);
    var elems: seq<Object> := [];
    var cur := off + 8;
    var i := 0;
    while i < cnt
      invariant i <= cnt && (elems, cur) == DecodeElements(buf, off + 8, lim, i)
      decreases cnt - i
    {
      var val, next := Deserialize(buf, cur, lim);
      ElementsStep(buf, off + 8, lim, i + 1);
      elems, cur, i := elems + [val], next, i + 1;
    }
    o, end := Some(Array(elems)), cur;
  }

  /** xpc_deserialize: NULL unless the magic number and the version match,
      otherwise the root value after them. */
  method DeserializeMessage(buf: seq<byte>) returns (o: Object)
    ensures o == DecodeMessage(buf)
  {
    var magic := Read(buf, 0, |buf|, 4);
    var version := Read(buf, 4, |buf|, 4);
    if magic != Magic || version != Version {
      return None;
    }
    var end;
    o, end := Deserialize(buf, 8, |buf|);
  }
}
