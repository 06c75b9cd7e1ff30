/** The dictionary object that `xpc_dictionary_create` allocates and the
    `xpc_dictionary_*` functions update in place (src/xpc.c).  Its fields are
    those of `struct xpc_dict`: the 8 bucket heads and `count`.  Each method
    is stated against the pure table functions of module Dict, applied to
    the object's current Snapshot. */
module DictObject {
  import opened Bytes
  import opened Values
  import Dict

  class Dictionary {
    var buckets: array<Chain>
    var count: nat

    function Snapshot(): Table
      reads this, buckets
    {
      Table(buckets[..], count)
    }

    ghost predicate Valid()
      reads this, buckets
    {
      buckets.Length == Dict.NBuckets && Dict.Valid(Snapshot())
    }

    /** The key to value map the dictionary holds. */
    ghost function Contents(): map<seq<byte>, Value>
      reads this, buckets
    {
      Dict.Contents(Snapshot())
    }

    /** xpc_dictionary_create(NULL, NULL, 0) */
    constructor Empty()
      ensures Valid() && fresh(buckets)
      ensures Snapshot() == Dict.EmptyTable() && Contents() == map[]
    {
      buckets := new Chain[Dict.NBuckets](_ => Chain([]));
      count := 0;
      new;
      assert buckets[..] == Dict.EmptyTable().buckets;
      Dict.EmptyTableIsEmpty();
    }

    /** xpc_dictionary_create(keys, values, n), with `count` starting at 0
        (see Dict.CreateTableAsWritten for the code as written). */
    constructor (keys: seq<seq<byte>>, values: seq<Object>)
      requires Dict.CStrings(keys) && |keys| == |values|
      ensures Valid() && fresh(buckets)
      ensures Snapshot() == Dict.CreateTable(keys, values)
      ensures Contents() == Dict.Bindings(map[], keys, values, |keys|)
    {
      buckets := new Chain[Dict.NBuckets](_ => Chain([]));
      count := 0;
      new;
      assert Snapshot() == Dict.EmptyTable();
      SetAll(keys, values);
    }

    /** The loop of xpc_dictionary_create: set_value for each pair in
        order. */
    method SetAll(keys: seq<seq<byte>>, values: seq<Object>)
      requires Valid() && Dict.CStrings(keys) && |keys| == |values|
      modifies this, buckets
      ensures Valid() && buckets == old(buckets)
      ensures Snapshot() == Dict.Fill(old(Snapshot()), keys, values, |keys|)
    {
      ghost var start := Snapshot();
      var i := 0;
      while i < |keys|
        invariant 0 <= i <= |keys| && buckets == old(buckets) && Valid()
        invariant Snapshot() == Dict.Fill(start, keys, values, i)
      {
        SetNext(keys, values, start, i);
        i := i + 1;
      }
    }

    /** One pass of that loop: set_value of the i-th pair. */
    method SetNext(keys: seq<seq<byte>>, values: seq<Object>, ghost start: Table, i: nat)
      requires Valid() && Dict.Valid(start) && Dict.CStrings(keys) && |keys| == |values| && i < |keys|
      requires Snapshot() == Dict.Fill(start, keys, values, i)
      modifies this, buckets
      ensures Valid() && buckets == old(buckets)
      ensures Snapshot() == Dict.Fill(start, keys, values, i + 1)
    {
      Dict.FillKeepsValid(start, keys, values, i);
      SetValue(keys[i], values[i]);
    }

    /** xpc_dictionary_find_el: walks the chain of the hash's bucket. */
    method FindEl(key: seq<byte>, hash: u64) returns (r: Option<nat>)
      requires buckets.Length == Dict.NBuckets
      ensures r == Dict.FindIn(buckets[Dict.Bucket(hash)].entries, key, hash)
    {
      var es := buckets[Dict.Bucket(hash)].entries;
      var i := 0;
      while i < |es|
        invariant 0 <= i <= |es|
        invariant forall j :: 0 <= j < i ==> !Dict.Matches(es[j], key, hash)
      {
        if es[i].hash == hash && es[i].key == key {
          return Some(i);
        }
        i := i + 1;
      }
      return None;
    }

    /** xpc_dictionary_get_value */
    method GetValue(key: seq<byte>) returns (r: Object)
      requires buckets.Length == Dict.NBuckets
      ensures r == Dict.Get(Snapshot(), key)
    {
      var h := Dict.HashKey(key);
      var found := FindEl(key, h);
      r := if found.Some? then Some(buckets[Dict.Bucket(h)].entries[found.value].value) else None;
    }

    /** xpc_dictionary_set_value; what it does to Contents() is stated by
        Dict.Set. */
    method SetValue(key: seq<byte>, obj: Object)
      requires Valid() && NoNul(key)
      modifies this, buckets
      ensures Valid() && buckets == old(buckets)
      ensures Snapshot() == Dict.Set(old(Snapshot()), key, obj)
    {
      var h := Dict.HashKey(key);
      var b := Dict.Bucket(h);
      var found := FindEl(key, h);
      var es := buckets[b].entries;
      ghost var before := Snapshot();
      assert before.buckets[b].entries == es;
      if obj.None? {
        if found.Some? {
          var i := found.value;
          Dict.LiveOfAtLeast(buckets[..], b);
          buckets[b] := Chain(es[..i] + es[i + 1..]);
          count := count - 1;
        }
      } else if found.Some? {
        var i := found.value;
        buckets[b] := Chain(es[i := Entry(h, key, obj.value)]);
      } else {
        buckets[b] := Chain([Entry(h, key, obj.value)] + es);
        count := count + 1;
      }
      assert buckets[..] == before.buckets[b := buckets[b]];
      assert buckets[b].entries == Dict.SetChain(es, key, obj);
      assert Snapshot() == Dict.Set(before, key, obj);
      Dict.SetKeepsValid(before, key, obj);
    }

    /** xpc_dictionary_get_bool */
    method GetBool(key: seq<byte>) returns (r: bool)
      requires buckets.Length == Dict.NBuckets
      ensures r == Dict.BoolOf(Dict.Get(Snapshot(), key))
    {
      var o := GetValue(key);
      r := if o.Some? && o.value.Bool? then o.value.b else false;
    }

    /** xpc_dictionary_get_int64 */
    method GetInt64(key: seq<byte>) returns (r: i64)
      requires buckets.Length == Dict.NBuckets
      ensures r == Dict.Int64Of(Dict.Get(Snapshot(), key))
    {
      var o := GetValue(key);
      r := if o.Some? && o.value.Int64? then o.value.i else 0;
    }

    /** xpc_dictionary_get_uint64 */
    method GetUInt64(key: seq<byte>) returns (r: u64)
      requires buckets.Length == Dict.NBuckets
      ensures r == Dict.UInt64Of(Dict.Get(Snapshot(), key))
    {
      var o := GetValue(key);
      r := if o.Some? && o.value.UInt64? then o.value.u else 0;
    }

    /** xpc_dictionary_get_double, the double as its bit pattern. */
    method GetDouble(key: seq<byte>) returns (r: u64)
      requires buckets.Length == Dict.NBuckets
      ensures r == Dict.DoubleOf(Dict.Get(Snapshot(), key))
    {
      var o := GetValue(key);
      r := if o.Some? && o.value.Double? then o.value.bits else Dict.NaNBits;
    }

    /** xpc_dictionary_get_data, returning the value's own bytes (see
        Dict.GetDataAsWritten for the code as written). */
    method GetData(key: seq<byte>) returns (bytes: Option<seq<byte>>, length: nat)
      requires buckets.Length == Dict.NBuckets
      ensures (bytes, length) == Dict.DataOf(Dict.Get(Snapshot(), key))
    {
      var o := GetValue(key);
      if o.Some? && o.value.Data? {
        bytes, length := Some(o.value.bytes), |o.value.bytes|;
      } else {
        bytes, length := None, 0;
      }
    }

    /** xpc_dictionary_get_string */
    method GetString(key: seq<byte>) returns (r: Option<seq<byte>>)
      requires buckets.Length == Dict.NBuckets
      ensures r == Dict.StringOf(Dict.Get(Snapshot(), key))
    {
      var o := GetValue(key);
      r := if o.Some? && o.value.String? then Some(o.value.chars) else None;
    }

    /** xpc_dictionary_set_bool */
    method SetBool(key: seq<byte>, value: bool)
      requires Valid() && NoNul(key)
      modifies this, buckets
      ensures Valid() && buckets == old(buckets)
      ensures Snapshot() == Dict.Set(old(Snapshot()), key, Some(Bool(value)))
    {
      SetValue(key, Some(Bool(value)));
    }

    /** xpc_dictionary_set_int64 */
    method SetInt64(key: seq<byte>, value: i64)
      requires Valid() && NoNul(key)
      modifies this, buckets
      ensures Valid() && buckets == old(buckets)
      ensures Snapshot() == Dict.Set(old(Snapshot()), key, Some(Int64(value)))
    {
      SetValue(key, Some(Int64(value)));
    }

    /** xpc_dictionary_set_uint64 */
    method SetUInt64(key: seq<byte>, value: u64)
      requires Valid() && NoNul(key)
      modifies this, buckets
      ensures Valid() && buckets == old(buckets)
      ensures Snapshot() == Dict.Set(old(Snapshot()), key, Some(UInt64(value)))
    {
      SetValue(key, Some(UInt64(value)));
    }

    /** xpc_dictionary_set_double */
    method SetDouble(key: seq<byte>, bits: u64)
      requires Valid() && NoNul(key)
      modifies this, buckets
      ensures Valid() && buckets == old(buckets)
      ensures Snapshot() == Dict.Set(old(Snapshot()), key, Some(Double(bits)))
    {
      SetValue(key, Some(Double(bits)));
    }

    /** xpc_dictionary_set_data */
    method SetData(key: seq<byte>, bytes: seq<byte>)
      requires Valid() && NoNul(key)
      modifies this, buckets
      ensures Valid() && buckets == old(buckets)
      ensures Snapshot() == Dict.Set(old(Snapshot()), key, Some(DataCreate(bytes)))
    {
      SetValue(key, Some(DataCreate(bytes)));
    }

    /** xpc_dictionary_set_string */
    method SetString(key: seq<byte>, s: seq<byte>)
      requires Valid() && NoNul(key) && NoNul(s)
      modifies this, buckets
      ensures Valid() && buckets == old(buckets)
      ensures Snapshot() == Dict.Set(old(Snapshot()), key, Some(StringCreate(s)))
    {
      SetValue(key, Some(StringCreate(s)));
    }
  }
}
