/** The reader of src/xpc_serialization.c (`_xpc_deserialize` and its
    dictionary and array helpers) as pure functions of the buffer, the read
    offset and the parse limit `len`.

    A field read (XPC_READ) always advances the offset by the field's width
    and yields 0 when the field does not end at or before the limit.  A
    container reads its body length and clamps the limit to the end of its
    body before reading its count.  Each function returns the object read
    (None for NULL) and the offset after it. */
module Decoding {
  import opened Bytes
  import opened Values
  import opened Encoding
  import Dict

  /** XPC_READ of a w-byte unsigned field at off. */
  function Read(buf: seq<byte>, off: nat, len: nat, w: nat): (r: nat)
    requires len <= |buf|
    ensures r < Pow256(w)
    ensures off + w > len ==> r == 0
  {
    if off + w <= len then FromLittleEndian(buf[off..off + w]) else 0
  }

  /** A field written by a store of n reads back as n when it lies before
      the limit. */
  lemma ReadOfStore32(buf: seq<byte>, off: nat, len: nat, n: nat)
    requires off + 4 <= len <= |buf| && n < Pow32 && buf[off..off + 4] == Store32(n)
    ensures Read(buf, off, len, 4) == n
  {
    Store32RoundTrip(n);
  }

  lemma ReadOfStore64(buf: seq<byte>, off: nat, len: nat, n: int)
    requires off + 8 <= len <= |buf| && buf[off..off + 8] == Store64(n)
    ensures Read(buf, off, len, 8) == n % Pow64
  {
    Store64RoundTrip(n);
  }

  /** The bytes left before the limit; it bounds the recursion. */
  function Room(off: nat, len: nat): nat {
    if off < len then len - off else 0
  }

  /** A data or string payload of n bytes at off.  Bytes that do not lie
      before the limit read as zeros, the convention XPC_READ follows for
      fields (see PayloadRangeAsWritten for the unchecked copy of the
      code). */
  function Payload(buf: seq<byte>, off: nat, len: nat, n: nat): (r: seq<byte>)
    requires len <= |buf|
    ensures |r| == n
    ensures off + n <= len ==> r == buf[off..off + n]
    ensures off + n > len ==> r == Zeros(n)
  {
    if off + n <= len then buf[off..off + n] else Zeros(n)
  }

  /** A dictionary key at off: the characters before the first 0 among the
      bytes left before the limit, none when no byte is left (see
      KeyScanLimitAsWritten for the code's unsigned `len - off`). */
  function KeyAt(buf: seq<byte>, off: nat, len: nat): (k: seq<byte>)
    requires len <= |buf|
    ensures NoNul(k)
    ensures off >= len ==> k == []
  {
    if off >= len then [] else TakeUntilNul(buf[off..len])
  }

  /** The key is the bytes at off up to the first 0 before the limit: it
      lies before the limit, and a 0 follows it unless the limit does. */
  lemma KeyAtIsScan(buf: seq<byte>, off: nat, len: nat)
    requires len <= |buf|
    ensures var k := KeyAt(buf, off, len);
            (off < len ==> off + |k| <= len && k == buf[off..off + |k|])
            && (off + |k| < len ==> buf[off + |k|] == 0)
  {
    if off < len {
      var k := KeyAt(buf, off, len);
      assert buf[off..len][..|k|] == buf[off..off + |k|];
    }
  }

  /** _xpc_deserialize: the tag, then the value the type after `>> 12`
      names.  Any other type, a zero tag read past the limit included,
      yields NULL after the 4 tag bytes. */
  function Decode(buf: seq<byte>, off: nat, len: nat): (r: (Object, nat))
    requires len <= |buf|
    decreases Room(off, len), 0, 0
    ensures r.1 >= off + 4
  {
    FieldWidths();
    var id := Read(buf, off, len, 4) / 4096;
    var p := off + 4;
    if id == BoolId then (Some(Bool(Read(buf, p, len, 4) != 0)), p + 4)
    else if id == Int64Id then (Some(Int64(Signed64(Read(buf, p, len, 8)))), p + 8)
    else if id == UInt64Id then (Some(UInt64(Read(buf, p, len, 8))), p + 8)
    else if id == DoubleId then (Some(Double(Read(buf, p, len, 8))), p + 8)
    else if id == DataId then
      var n := Read(buf, p, len, 4);
      (Some(Data(Payload(buf, p + 4, len, n))), p + 4 + PadSize(n))
    else if id == StringId then
      var n := Read(buf, p, len, 4);
      (Some(if n > 0 then String(Payload(buf, p + 4, len, n)) else String([0])), p + 4 + PadSize(n))
    else if id == DictionaryId then DecodeDictionary(buf, p, len)
    else if id == ArrayId then DecodeArray(buf, p, len)
    else (None, p)
  }

  /** The end of a container's body: just past its length field plus the
      length it declares. */
  function BodyEnd(buf: seq<byte>, off: nat, len: nat): nat
    requires len <= |buf|
  {
    off + 4 + Read(buf, off, len, 4)
  }

  /** _xpc_deserialize_dictionary: body length, the limit clamped to the
      body's end, the count, then that many entries, each inserted with
      set_value into a fresh empty dictionary in the order read (a NULL
      value removes its key). */
  function DecodeDictionary(buf: seq<byte>, off: nat, len: nat): (r: (Object, nat))
    requires len <= |buf|
    decreases Room(off, len), 2, 0
    ensures r.1 >= off + 8
    ensures r.0.Some? && r.0.value.Dictionary?
  {
    var lim := Min(len, BodyEnd(buf, off, len));
    var cnt := Read(buf, off + 4, lim, 4);
    var e := DecodeEntries(buf, off + 8, lim, cnt);
    (Some(Dictionary(Dict.Fill(Dict.EmptyTable(), e.keys, e.values, cnt))), e.end)
  }

  /** The keys and values of a container's entries in the order read, and
      the offset after the last. */
  datatype Entries = Entries(keys: seq<seq<byte>>, values: seq<Object>, end: nat)

  /** The first n passes of the loop of _xpc_deserialize_dictionary. */
  function DecodeEntries(buf: seq<byte>, off: nat, len: nat, n: nat): (r: Entries)
    requires len <= |buf|
    decreases Room(off, len), 1, n
    ensures |r.keys| == n && |r.values| == n && r.end >= off && Dict.CStrings(r.keys)
  {
    if n == 0 then Entries([], [], off)
    else
      var prev := DecodeEntries(buf, off, len, n - 1);
      var e := DecodeEntry(buf, prev.end, len);
      Entries(prev.keys + [e.0], prev.values + [e.1], e.2)
  }

  /** One pass: the key, the cursor moved past the padded key and its
      terminator, then the value.  Returns the key, the value and the
      offset after it. */
  function DecodeEntry(buf: seq<byte>, off: nat, len: nat): (r: (seq<byte>, Object, nat))
    requires len <= |buf|
    decreases Room(off, len), 1, 0
    ensures NoNul(r.0) && r.2 > off
  {
    var k := KeyAt(buf, off, len);
    var v := Decode(buf, off + PadSize(|k| + 1), len);
    (k, v.0, v.1)
  }

  /** _xpc_deserialize_array: body length, clamped limit, count, then that
      many values appended in order. */
  function DecodeArray(buf: seq<byte>, off: nat, len: nat): (r: (Object, nat))
    requires len <= |buf|
    decreases Room(off, len), 2, 0
    ensures r.1 >= off + 8
    ensures r.0.Some? && r.0.value.Array?
    ensures |r.0.value.elems| == Read(buf, off + 4, Min(len, BodyEnd(buf, off, len)), 4)
  {
    var lim := Min(len, BodyEnd(buf, off, len));
    var cnt := Read(buf, off + 4, lim, 4);
    var e := DecodeElements(buf, off + 8, lim, cnt);
    (Some(Array(e.0)), e.1)
  }

  /** The first n passes of the loop of _xpc_deserialize_array: the values
      appended so far and the offset after the last. */
  function DecodeElements(buf: seq<byte>, off: nat, len: nat, n: nat): (r: (seq<Object>, nat))
    requires len <= |buf|
    decreases Room(off, len), 1, n
    ensures |r.0| == n && r.1 >= off
  {
    if n == 0 then ([], off)
    else
      var prev := DecodeElements(buf, off, len, n - 1);
      var v := Decode(buf, prev.1, len);
      (prev.0 + [v.0], v.1)
  }

  /** A dictionary the reader builds with the corrected set_value keeps the
      table invariant, with `count` equal to its linked entries.  The code
      as written can break both (ReaderDefects.ReaderHeadDeleteAsWritten). */
  lemma DecodedDictionaryIsValid(buf: seq<byte>, off: nat, len: nat)
    requires len <= |buf|
    ensures var r := Decode(buf, off, len);
            r.0.Some? && r.0.value.Dictionary? ==>
              Dict.Valid(r.0.value.table) && r.0.value.table.count == Dict.Live(r.0.value.table)
  {
    if Read(buf, off, len, 4) / 4096 == DictionaryId {
      var p := off + 4;
      var lim := Min(len, BodyEnd(buf, p, len));
      var cnt := Read(buf, p + 4, lim, 4);
      var e := DecodeEntries(buf, p + 8, lim, cnt);
      Dict.FillKeepsValid(Dict.EmptyTable(), e.keys, e.values, cnt);
    }
  }

  /** One more entry is the entries so far and the next one read. */
  lemma EntriesStep(buf: seq<byte>, off: nat, len: nat, n: nat)
    requires len <= |buf| && n > 0
    ensures var prev := DecodeEntries(buf, off, len, n - 1);
            var e := DecodeEntry(buf, prev.end, len);
            DecodeEntries(buf, off, len, n) == Entries(prev.keys + [e.0], prev.values + [e.1], e.2)
  {
  }

  /** One more element is the elements so far and the next value read. */
  lemma ElementsStep(buf: seq<byte>, off: nat, len: nat, n: nat)
    requires len <= |buf| && n > 0
    ensures var prev := DecodeElements(buf, off, len, n - 1);
            var v := Decode(buf, prev.1, len);
            DecodeElements(buf, off, len, n) == (prev.0 + [v.0], v.1)
  {
  }

  /** xpc_deserialize: NULL unless the magic number and the version match,
      otherwise the root value after them. */
  function DecodeMessage(buf: seq<byte>): (r: Object)
    ensures Read(buf, 0, |buf|, 4) != Magic || Read(buf, 4, |buf|, 4) != Version ==> r == None
  {
    if Read(buf, 0, |buf|, 4) != Magic || Read(buf, 4, |buf|, 4) != Version then None
    else Decode(buf, 8, |buf|).0
  }

  /** A message shorter than the envelope is rejected: both envelope reads
      pass the limit and yield 0. */
  lemma ShortMessageRejected(buf: seq<byte>)
    requires |buf| < 8
    ensures DecodeMessage(buf) == None
  {
  }

  /** A tag naming no type the reader handles yields NULL and consumes only
      the tag. */
  lemma UnknownTagYieldsNull(buf: seq<byte>, off: nat, len: nat)
    requires len <= |buf|
    requires Read(buf, off, len, 4) / 4096 !in {BoolId, Int64Id, UInt64Id, DoubleId, DataId, StringId, ArrayId, DictionaryId}
    ensures Decode(buf, off, len) == (None, off + 4)
  {
  }

  /** A tag that does not fit before the limit reads as 0: NULL, and the
      cursor still moves past it. */
  lemma TruncatedTagYieldsNull(buf: seq<byte>, off: nat, len: nat)
    requires len <= |buf| && off + 4 > len
    ensures Decode(buf, off, len) == (None, off + 4)
  {
  }

  /** The reader never looks at a byte at or past the limit: two buffers
      that agree before the limit decode the same way. */
  lemma {:induction false} DecodeReadsBeforeLimit(buf: seq<byte>, other: seq<byte>, off: nat, len: nat)
    requires len <= |buf| && len <= |other| && buf[..len] == other[..len]
    decreases Room(off, len), 0, 0
    ensures Decode(buf, off, len) == Decode(other, off, len)
  {
    ReadsAgree(buf, other, off, len);
    var p := off + 4;
    ReadsAgree(buf, other, p, len);
    ReadsAgree(buf, other, p + 4, len);
    var id := Read(buf, off, len, 4) / 4096;
    if id == DictionaryId || id == ArrayId {
      var lim := Min(len, BodyEnd(buf, p, len));
      assert lim == Min(len, BodyEnd(other, p, len));
      assert buf[..lim] == other[..lim] by {
        SlicesAgree(buf, other, 0, lim, len);
      }
      ReadsAgree(buf, other, p + 4, lim);
      var cnt := Read(buf, p + 4, lim, 4);
      if id == DictionaryId {
        EntriesReadBeforeLimit(buf, other, p + 8, lim, cnt);
      } else {
        ElementsReadBeforeLimit(buf, other, p + 8, lim, cnt);
      }
    }
  }

  lemma {:induction false} EntriesReadBeforeLimit(buf: seq<byte>, other: seq<byte>, off: nat, len: nat, n: nat)
    requires len <= |buf| && len <= |other| && buf[..len] == other[..len]
    decreases Room(off, len), 1, n
    ensures DecodeEntries(buf, off, len, n) == DecodeEntries(other, off, len, n)
  {
    if n > 0 {
      EntriesReadBeforeLimit(buf, other, off, len, n - 1);
      EntryReadsBeforeLimit(buf, other, DecodeEntries(buf, off, len, n - 1).end, len);
    }
  }

  lemma {:induction false} EntryReadsBeforeLimit(buf: seq<byte>, other: seq<byte>, off: nat, len: nat)
    requires len <= |buf| && len <= |other| && buf[..len] == other[..len]
    decreases Room(off, len), 1, 0
    ensures DecodeEntry(buf, off, len) == DecodeEntry(other, off, len)
  {
    KeyReadsBeforeLimit(buf, other, off, len);
    DecodeReadsBeforeLimit(buf, other, off + PadSize(|KeyAt(buf, off, len)| + 1), len);
  }

  lemma KeyReadsBeforeLimit(buf: seq<byte>, other: seq<byte>, off: nat, len: nat)
    requires len <= |buf| && len <= |other| && buf[..len] == other[..len]
    ensures KeyAt(buf, off, len) == KeyAt(other, off, len)
  {
    if off < len {
      SlicesAgree(buf, other, off, len, len);
    }
  }

  lemma {:induction false} ElementsReadBeforeLimit(buf: seq<byte>, other: seq<byte>, off: nat, len: nat, n: nat)
    requires len <= |buf| && len <= |other| && buf[..len] == other[..len]
    decreases Room(off, len), 1, n
    ensures DecodeElements(buf, off, len, n) == DecodeElements(other, off, len, n)
  {
    if n > 0 {
      ElementsReadBeforeLimit(buf, other, off, len, n - 1);
      DecodeReadsBeforeLimit(buf, other, DecodeElements(buf, off, len, n - 1).1, len);
    }
  }

  /** Two buffers that agree before the limit agree on every slice that
      ends at or before it. */
  lemma SlicesAgree(buf: seq<byte>, other: seq<byte>, i: nat, j: nat, len: nat)
    requires len <= |buf| && len <= |other| && buf[..len] == other[..len] && i <= j <= len
    ensures buf[i..j] == other[i..j]
  {
    forall k | i <= k < j ensures buf[k] == other[k] {
      assert buf[k] == buf[..len][k] && other[k] == other[..len][k];
    }
  }

  /** Field reads and payloads at any offset agree on two buffers that agree
      before the limit. */
  lemma ReadsAgree(buf: seq<byte>, other: seq<byte>, off: nat, len: nat)
    requires len <= |buf| && len <= |other| && buf[..len] == other[..len]
    ensures forall w: nat :: Read(buf, off, len, w) == Read(other, off, len, w)
    ensures forall n: nat :: Payload(buf, off, len, n) == Payload(other, off, len, n)
  {
    forall w: nat ensures Read(buf, off, len, w) == Read(other, off, len, w) {
      if off + w <= len {
        SlicesAgree(buf, other, off, off + w, len);
      }
    }
    forall n: nat ensures Payload(buf, off, len, n) == Payload(other, off, len, n) {
      if off + n <= len {
        SlicesAgree(buf, other, off, off + n, len);
      }
    }
  }

  /** The bytes `memcpy(&buf[off], tlen)` reads for a data or string
      payload as written: the 32-bit length field is read as int32_t and
      widened to size_t, so a length of 2^31 or more becomes a length near
      2^64, and the range is never compared with the limit. */
  function PayloadRangeAsWritten(field: nat, off: nat): (range: (nat, nat))
    requires field < Pow32
    ensures range.0 == off && range.1 >= off + field
  {
    var tlen := if field < 0x8000_0000 then field else field + Pow64 - Pow32;
    (off, off + tlen)
  }

  /** A data value whose length field claims 16 bytes in a 12-byte message:
      the code copies bytes 8 to 24, past the end; the reader above yields
      16 zero bytes and no read past the limit. */
  lemma PayloadOverreadsAsWritten()
    ensures var buf := Tag(DataId) + Store32(16) + [1, 2, 3, 4];
      PayloadRangeAsWritten(Read(buf, 4, |buf|, 4), 8).1 > |buf|
      && Decode(buf, 0, |buf|) == (Some(Data(Zeros(16))), 24)
    ensures PayloadRangeAsWritten(0xFFFF_FFFF, 8).1 == 8 + Pow64 - 1
  {
    var buf := Tag(DataId) + Store32(16) + [1, 2, 3, 4];
    ReadOfStore32(buf, 0, |buf|, DataId * 4096);
    assert buf[0..4] == Tag(DataId);
    assert buf[4..8] == Store32(16);
    ReadOfStore32(buf, 4, |buf|, 16);
  }

  /** The limit `strnlen(key, len - off)` scans as written: size_t
      subtraction, which wraps when the cursor has passed the limit. */
  function KeyScanLimitAsWritten(off: nat, len: nat): (limit: nat)
    requires off < Pow64 && len < Pow64
    ensures off <= len ==> limit == len - off
    ensures off > len ==> limit == Pow64 - (off - len)
  {
    (len - off) % Pow64
  }

  /** A cursor 4 bytes past the limit makes the code scan up to 2^64 - 4
      bytes for the key; KeyAt reads none. */
  lemma KeyScanUnderflows(buf: seq<byte>)
    requires |buf| >= 8
    ensures KeyScanLimitAsWritten(12, 8) == Pow64 - 4
    ensures KeyAt(buf, 12, 8) == []
  {
  }

  /** The key set_value receives as written: the C string at `&buf[off]`,
      read up to its first 0, or a scan that runs off the end of the buffer
      when no 0 follows off. */
  datatype KeyRead = Key(chars: seq<byte>) | PastBuffer

  /** `key = (char *) &buf[off]` handed to xpc_dictionary_set_value: the
      hash loop, strcmp and strlen there read the key up to its first 0,
      with no limit at all. */
  function KeyAsWritten(buf: seq<byte>, off: nat): (r: KeyRead)
    ensures r.Key? ==> off + |r.chars| < |buf| && buf[off..off + |r.chars|] == r.chars
                       && buf[off + |r.chars|] == 0 && NoNul(r.chars)
    ensures r.PastBuffer? ==> forall i :: off <= i < |buf| ==> buf[i] != 0
  {
    if off >= |buf| then PastBuffer
    else
      var k := TakeUntilNul(buf[off..]);
      assert forall i :: off <= i < off + |k| ==> buf[i] == k[i - off];
      if off + |k| == |buf| then PastBuffer else Key(k)
  }

  /** Where a 0 ends the key before the limit, the code's key is KeyAt's. */
  lemma KeyAsWrittenBeforeLimit(buf: seq<byte>, off: nat, len: nat)
    requires len <= |buf| && off < len && off + |KeyAt(buf, off, len)| < len
    ensures KeyAsWritten(buf, off) == Key(KeyAt(buf, off, len))
  {
    var k := KeyAt(buf, off, len);
    assert buf[off..][..|k|] == buf[off..len][..|k|];
    TakeUntilNulOfTerminated(buf[off..], k);
  }

  /** Where no 0 comes before the limit, the code's scan goes on past it:
      the key it hashes and stores ends at or beyond the limit, or the scan
      runs off the end of the buffer. */
  lemma KeyAsWrittenPassesLimit(buf: seq<byte>, off: nat, len: nat)
    requires len <= |buf| && off + |KeyAt(buf, off, len)| >= len
    ensures KeyAsWritten(buf, off).PastBuffer? || off + |KeyAsWritten(buf, off).chars| >= len
  {
    if off < len {
      var k := KeyAt(buf, off, len);
      assert forall i :: off <= i < len ==> buf[i] == k[i - off];
    }
  }

  /** The key `abcd` fills a limit of 4: KeyAt stops there, while the code
      reads on to `ef` and the 0 past the limit and stores `abcdef`.  With
      the cursor at the end of the buffer the scan starts past it. */
  lemma KeyReadPastLimitExample()
    ensures var buf: seq<byte> := [0x61, 0x62, 0x63, 0x64, 0x65, 0x66, 0];
      KeyAt(buf, 0, 4) == [0x61, 0x62, 0x63, 0x64]
      && KeyAsWritten(buf, 0) == Key([0x61, 0x62, 0x63, 0x64, 0x65, 0x66])
    ensures KeyAt([0x61, 0], 2, 2) == [] && KeyAsWritten([0x61, 0], 2) == PastBuffer
  {
    var buf: seq<byte> := [0x61, 0x62, 0x63, 0x64, 0x65, 0x66, 0];
    var abcd: seq<byte> := [0x61, 0x62, 0x63, 0x64];
    assert buf[0..4] == abcd;
    assert |TakeUntilNul(abcd)| == 4;
    TakeUntilNulOfTerminated(buf, buf[..6]);
    assert buf[0..] == buf;
  }
}
