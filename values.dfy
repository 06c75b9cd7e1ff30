/** The tagged value model (src/xpc.c, include/xpc/xpc.h, src/xpc_internal.h).

    A C `xpc_object_t` is a pointer to a value that carries one type tag and
    an inline payload.  Every value has exactly one owner and no identity
    beyond its tag and payload, so a value tree is modelled as a datatype;
    a NULL object is `None`.  The dictionary's internal layout (8 bucket
    chains of hashed entries and a count) is part of the value because the
    serializer walks it in bucket order. */
module Values {
  import opened Bytes

  datatype Option<+T> = None | Some(value: T)

  /** The type ids of `enum xpc_value_type`. */
  const NullId: nat := 1
  const BoolId: nat := 2
  const Int64Id: nat := 3
  const UInt64Id: nat := 4
  const DoubleId: nat := 5
  const PointerId: nat := 6
  const DateId: nat := 7
  const DataId: nat := 8
  const StringId: nat := 9
  const UuidId: nat := 10
  const ArrayId: nat := 14
  const DictionaryId: nat := 15

  /** Null, Pointer, Date and Uuid have no constructor body in the library,
      so they carry no payload here.  A double is an opaque 64-bit pattern.
      A string holds the `size` bytes the library stores: its characters
      and the terminator. */
  datatype Value =
    | Null
    | Bool(b: bool)
    | Int64(i: i64)
    | UInt64(u: u64)
    | Double(bits: u64)
    | Pointer
    | Date
    | Data(bytes: seq<byte>)
    | String(chars: seq<byte>)
    | Uuid
    | Array(elems: seq<Object>)
    | Dictionary(table: Table)

  /** An `xpc_object_t`: NULL or a value. */
  type Object = Option<Value>

  /** A `struct xpc_dict_el`: the stored hash, the key (its `key_length` is
      the length of the sequence, the terminator is implicit) and the owned
      value. */
  datatype Entry = Entry(hash: u64, key: seq<byte>, value: Value)

  /** One bucket's doubly linked chain, head first. */
  datatype Chain = Chain(entries: seq<Entry>)

  /** A `struct xpc_dict`: the bucket array and the `count` field. */
  datatype Table = Table(buckets: seq<Chain>, count: nat)

  /** xpc_get_type */
  function TypeOf(v: Value): (id: nat)
    ensures id in {NullId, BoolId, Int64Id, UInt64Id, DoubleId, PointerId, DateId,
                   DataId, StringId, UuidId, ArrayId, DictionaryId}
    ensures (id == DictionaryId) == v.Dictionary? && (id == ArrayId) == v.Array?
  {
    match v
    case Null => NullId
    case Bool(_) => BoolId
    case Int64(_) => Int64Id
    case UInt64(_) => UInt64Id
    case Double(_) => DoubleId
    case Pointer => PointerId
    case Date => DateId
    case Data(_) => DataId
    case String(_) => StringId
    case Uuid => UuidId
    case Array(_) => ArrayId
    case Dictionary(_) => DictionaryId
  }

  /** xpc_data_create: a copy of the `length` bytes at the pointer. */
  function DataCreate(bytes: seq<byte>): (v: Value)
    ensures TypeOf(v) == DataId && DataLength(v) == |bytes| && v.bytes == bytes
  {
    Data(bytes)
  }

  /** xpc_data_get_length */
  function DataLength(v: Value): nat
    requires v.Data?
  {
    |v.bytes|
  }

  /** xpc_string_create: stores strlen(s) + 1 bytes, the terminator
      included. */
  function StringCreate(s: seq<byte>): (v: Value)
    requires NoNul(s)
    ensures TypeOf(v) == StringId && |v.chars| == |s| + 1
    ensures StringLength(v) == |s| && v.chars[..|s|] == s && v.chars[|s|] == 0
  {
    String(s + [0])
  }

  /** xpc_string_create_with_length: stores the len + 1 bytes at the
      pointer, whatever they are; the caller provides them. */
  function StringCreateWithLength(s: seq<byte>, len: nat): (v: Value)
    requires len < |s|
    ensures TypeOf(v) == StringId && v.chars == s[..len + 1] && StringLength(v) == len
  {
    String(s[..len + 1])
  }

  /** xpc_string_get_length: the stored size less the terminator.  Every
      string the library creates stores at least the terminator. */
  function StringLength(v: Value): nat
    requires v.String? && |v.chars| >= 1
  {
    |v.chars| - 1
  }

  function Min(a: nat, b: nat): nat {
    if a <= b then a else b
  }

  /** xpc_data_get_bytes, with the offset checked against the size: copies
      the bytes from `off` on, at most `len` of them and never past the end
      of the payload; an offset past the end copies nothing. */
  function DataGetBytes(v: Value, off: nat, len: nat): (r: seq<byte>)
    requires v.Data?
    ensures |r| <= len
    ensures off <= |v.bytes| ==> |r| == Min(len, |v.bytes| - off) && r == v.bytes[off..off + |r|]
    ensures off > |v.bytes| ==> r == []
  {
    if off > |v.bytes| then []
    else var n := if len > |v.bytes| - off then |v.bytes| - off else len;
         v.bytes[off..off + n]
  }

  /** xpc_data_get_bytes as written: `if (len > v->size - off)` computes the
      room in size_t arithmetic, which wraps when off > size.  Returns the
      range of payload offsets that the memcpy reads: within the payload
      when off <= size, and reaching past its end whenever off > size and
      len > 0. */
  function DataGetBytesAsWritten(size: nat, off: nat, len: nat): (range: (nat, nat))
    requires size < Pow64 && off < Pow64
    ensures range.0 == off
    ensures off <= size ==> range.1 == off + Min(len, size - off)
    ensures off > size && len > 0 ==> range.1 > size
  {
    var room := (size - off) % Pow64;
    var n := if len > room then room else len;
    (off, off + n)
  }

  /** With an offset past the payload the as-written copy reads bytes that
      do not belong to the data value. */
  lemma DataGetBytesAsWrittenOverreads()
    ensures var range := DataGetBytesAsWritten(1, 2, 1);
            range == (2, 3) && range.1 > 1
    ensures DataGetBytes(Data([7]), 2, 1) == []
  {
  }
}
