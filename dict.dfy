/** The dictionary hash table (src/xpc.c, src/xpc_internal.h).

    A dictionary is 8 buckets of chains of entries plus a `count` field.
    A key is hashed with djb2 and lives in bucket `hash % 8`.  The abstract
    value of a table is the map from keys to values that `Contents` builds
    from its chains; every operation below is stated against that map. */
module Dict {
  import opened Bytes
  import opened Values

  /** XPC_DICT_NBUCKETS */
  const NBuckets: nat := 8
  const HashSeed: nat := 5381

  /** _xpc_dictionary_hash_key: djb2 over the key's bytes in unsigned long
      (64-bit) arithmetic. */
  function Djb2(key: seq<byte>): u64
  {
    if key == [] then HashSeed
    else (Djb2(key[..|key| - 1]) * 33 + key[|key| - 1]) % Pow64
  }

  function Bucket(hash: u64): nat {
    hash % NBuckets
  }

  predicate Matches(e: Entry, key: seq<byte>, hash: u64) {
    e.hash == hash && e.key == key
  }

  /** The position of the first entry of a chain whose stored hash and key
      both equal the query's. */
  function FindIn(entries: seq<Entry>, key: seq<byte>, hash: u64): (r: Option<nat>)
    ensures r.Some? ==> r.value < |entries| && Matches(entries[r.value], key, hash)
    ensures r.Some? ==> forall j :: 0 <= j < r.value ==> !Matches(entries[j], key, hash)
    ensures r.None? ==> forall j :: 0 <= j < |entries| ==> !Matches(entries[j], key, hash)
  {
    if entries == [] then None
    else if Matches(entries[0], key, hash) then Some(0)
    else match FindIn(entries[1..], key, hash)
      case None => None
      case Some(i) => Some(i + 1)
  }

  /** An entry as set_value stores it in bucket b. */
  ghost predicate WellPlaced(e: Entry, b: nat) {
    NoNul(e.key) && e.hash == Djb2(e.key) && Bucket(e.hash) == b
  }

  ghost predicate Placed(bs: seq<Chain>) {
    forall b, i :: 0 <= b < |bs| && 0 <= i < |bs[b].entries| ==> WellPlaced(bs[b].entries[i], b)
  }

  /** No key occurs twice in a chain: each entry's key is absent from the
      rest of the chain. */
  ghost predicate Distinct(es: seq<Entry>) {
    es == [] || (KeyAbsent(es[0].key, es[1..]) && Distinct(es[1..]))
  }

  ghost predicate KeyAbsent(key: seq<byte>, es: seq<Entry>) {
    es == [] || (es[0].key != key && KeyAbsent(key, es[1..]))
  }

  lemma {:induction false} KeyAbsentIsNotIn(key: seq<byte>, es: seq<Entry>)
    ensures KeyAbsent(key, es) <==> key !in ChainMap(es)
  {
    if es != [] {
      KeyAbsentIsNotIn(key, es[1..]);
    }
  }

  /** The number of linked entries. */
  function LiveOf(bs: seq<Chain>): nat {
    if bs == [] then 0 else LiveOf(bs[..|bs| - 1]) + |bs[|bs| - 1].entries|
  }

  function Live(t: Table): nat {
    LiveOf(t.buckets)
  }

  /** The invariant the table operations keep: 8 buckets, every entry in the
      bucket of its stored hash, which is the hash of its key, keys unique
      within a chain, and `count` no smaller than the number of entries. */
  ghost predicate Valid(t: Table) {
    |t.buckets| == NBuckets && Placed(t.buckets)
    && (forall b :: 0 <= b < |t.buckets| ==> Distinct(t.buckets[b].entries))
    && t.count >= Live(t)
  }

  /** The bindings of one chain; the head is the one a lookup sees. */
  ghost function ChainMap(es: seq<Entry>): map<seq<byte>, Value> {
    if es == [] then map[] else ChainMap(es[1..])[es[0].key := es[0].value]
  }

  ghost function TableMap(bs: seq<Chain>): map<seq<byte>, Value> {
    if bs == [] then map[] else TableMap(bs[..|bs| - 1]) + ChainMap(bs[|bs| - 1].entries)
  }

  /** The abstract value of a dictionary: its key to value map. */
  ghost function Contents(t: Table): map<seq<byte>, Value> {
    TableMap(t.buckets)
  }

  /** The dictionary `xpc_dictionary_create(NULL, NULL, 0)` returns. */
  function EmptyTable(): (t: Table)
    ensures Valid(t) && t.count == 0 && Live(t) == 0
  {
    var t := Table(seq(NBuckets, _ => Chain([])), 0);
    assert LiveOf(t.buckets) == 0 by { EmptyChainsHaveNoEntries(t.buckets); }
    t
  }

  lemma {:induction false} EmptyChainsHaveNoEntries(bs: seq<Chain>)
    requires forall b :: 0 <= b < |bs| ==> bs[b].entries == []
    ensures LiveOf(bs) == 0 && TableMap(bs) == map[]
  {
    if bs != [] {
      EmptyChainsHaveNoEntries(bs[..|bs| - 1]);
    }
  }

  lemma EmptyTableIsEmpty()
    ensures Contents(EmptyTable()) == map[]
  {
    EmptyChainsHaveNoEntries(EmptyTable().buckets);
  }

  /** xpc_dictionary_get_value: the value of the matching entry in the key's
      bucket, or NULL. */
  function Get(t: Table, key: seq<byte>): (r: Object)
    requires |t.buckets| == NBuckets
    ensures var es := t.buckets[Bucket(Djb2(key))].entries;
      (r.None? <==> forall i :: 0 <= i < |es| ==> !Matches(es[i], key, Djb2(key)))
      && (r.Some? ==> exists i :: 0 <= i < |es| && Matches(es[i], key, Djb2(key)) && es[i].value == r.value)
  {
    var h := Djb2(key);
    match FindIn(t.buckets[Bucket(h)].entries, key, h)
    case None => None
    case Some(i) => Some(t.buckets[Bucket(h)].entries[i].value)
  }

  /** xpc_dictionary_set_value: a NULL value unlinks the key's entry, if
      any, and decrements `count`; an existing key gets the new value in
      place; a new key goes at the head of its bucket's chain and increments
      `count`. */
  function Set(t: Table, key: seq<byte>, obj: Object): (r: Table)
    requires |t.buckets| == NBuckets
    ensures |r.buckets| == NBuckets
  {
    var h := Djb2(key);
    var b := Bucket(h);
    var es := t.buckets[b].entries;
    var found := FindIn(es, key, h);
    var count' :=
      if obj.None? then (if found.None? then t.count else Decrement(t.count))
      else if found.Some? then t.count
      else t.count + 1;
    Table(t.buckets[b := Chain(SetChain(es, key, obj))], count')
  }

  /** `--count` on a size_t: 0 wraps around to the largest value. */
  function Decrement(n: nat): nat {
    if n == 0 then Pow64 - 1 else n - 1
  }

  /** The chain of the key's bucket after set_value: the matching entry
      unlinked, its value replaced, or a new entry linked in as the head. */
  function SetChain(es: seq<Entry>, key: seq<byte>, obj: Object): (r: seq<Entry>)
  {
    var h := Djb2(key);
    match FindIn(es, key, h)
    case None => if obj.None? then es else [Entry(h, key, obj.value)] + es
    case Some(i) =>
      if obj.None? then es[..i] + es[i + 1..] else es[i := Entry(h, key, obj.value)]
  }

  /** set_value keeps the table invariant, and `count` moves with the
      number of linked entries: one more for a new key, one fewer for a
      removed one. */
  lemma SetKeepsValid(t: Table, key: seq<byte>, obj: Object)
    requires Valid(t) && NoNul(key)
    ensures Valid(Set(t, key, obj))
    ensures obj.Some? ==> Live(Set(t, key, obj)) == Live(t) + (if key in Contents(t) then 0 else 1)
    ensures obj.None? ==> Live(Set(t, key, obj)) + (if key in Contents(t) then 1 else 0) == Live(t)
    ensures Set(t, key, obj).count + Live(t) == t.count + Live(Set(t, key, obj))
  {
    var b := Bucket(Djb2(key));
    var es := t.buckets[b].entries;
    var es' := SetChain(es, key, obj);
    SetChainKeeps(es, b, key, obj);
    ChainHasKey(es, b, key);
    LiveOfAtLeast(t.buckets, b);
    LiveOfUpdate(t.buckets, b, Chain(es'));
    TableMapAt(t.buckets, key);
    assert Set(t, key, obj).buckets == t.buckets[b := Chain(es')];
  }

  /** What set_value does to the key to value map: binds the key to a
      non-NULL value, or removes it for NULL. */
  lemma SetContents(t: Table, key: seq<byte>, obj: Object)
    requires Valid(t) && NoNul(key)
    ensures obj.Some? ==> Contents(Set(t, key, obj)) == Contents(t)[key := obj.value]
    ensures obj.None? ==> Contents(Set(t, key, obj)) == Contents(t) - {key}
  {
    var b := Bucket(Djb2(key));
    var es' := SetChain(t.buckets[b].entries, key, obj);
    SetChainKeeps(t.buckets[b].entries, b, key, obj);
    SetKeepsValid(t, key, obj);
    assert Set(t, key, obj).buckets == t.buckets[b := Chain(es')];
    TableMapUpdate(t.buckets, b, Chain(es'), key, obj);
  }

  /** In a chain of bucket b, set_value keeps every entry in its bucket and
      the keys distinct, and changes the chain's bindings as it changes the
      table's. */
  lemma SetChainKeeps(es: seq<Entry>, b: nat, key: seq<byte>, obj: Object)
    requires forall i :: 0 <= i < |es| ==> WellPlaced(es[i], b)
    requires Distinct(es) && NoNul(key) && Bucket(Djb2(key)) == b
    ensures var r := SetChain(es, key, obj);
      (forall i :: 0 <= i < |r| ==> WellPlaced(r[i], b)) && Distinct(r)
      && (obj.Some? ==> ChainMap(r) == ChainMap(es)[key := obj.value])
      && (obj.None? ==> ChainMap(r) == ChainMap(es) - {key})
      && (obj.None? ==> |r| + (if key in ChainMap(es) then 1 else 0) == |es|)
      && (obj.Some? ==> |r| == |es| + (if key in ChainMap(es) then 0 else 1))
  {
    var found := FindIn(es, key, Djb2(key));
    ChainHasKey(es, b, key);
    if found.Some? {
      if obj.None? {
        UnlinkKeepsChain(es, b, found.value);
      } else {
        ReplaceKeepsChain(es, b, found.value, obj.value);
      }
    } else if obj.Some? {
      PrependKeepsChain(es, b, key, obj.value);
    }
  }

  lemma UnlinkKeepsChain(es: seq<Entry>, b: nat, i: nat)
    requires forall j :: 0 <= j < |es| ==> WellPlaced(es[j], b)
    requires Distinct(es) && i < |es|
    ensures var r := es[..i] + es[i + 1..];
      (forall j :: 0 <= j < |r| ==> WellPlaced(r[j], b)) && Distinct(r)
      && ChainMap(r) == ChainMap(es) - {es[i].key} && |r| == |es| - 1
  {
    var r := es[..i] + es[i + 1..];
    assert forall j :: 0 <= j < |r| ==> r[j] == es[if j < i then j else j + 1];
    ChainMapRemove(es, i);
    DistinctRemove(es, i);
  }

  lemma ReplaceKeepsChain(es: seq<Entry>, b: nat, i: nat, v: Value)
    requires forall j :: 0 <= j < |es| ==> WellPlaced(es[j], b)
    requires Distinct(es) && i < |es|
    ensures var r := es[i := Entry(es[i].hash, es[i].key, v)];
      (forall j :: 0 <= j < |r| ==> WellPlaced(r[j], b)) && Distinct(r)
      && ChainMap(r) == ChainMap(es)[es[i].key := v]
  {
    assert es[i := Entry(es[i].hash, es[i].key, v)] == es[i := es[i].(value := v)];
    ChainMapReplace(es, i, v);
  }

  lemma PrependKeepsChain(es: seq<Entry>, b: nat, key: seq<byte>, v: Value)
    requires forall j :: 0 <= j < |es| ==> WellPlaced(es[j], b)
    requires Distinct(es) && NoNul(key) && Bucket(Djb2(key)) == b
    requires forall j :: 0 <= j < |es| ==> !Matches(es[j], key, Djb2(key))
    ensures var r := [Entry(Djb2(key), key, v)] + es;
      (forall j :: 0 <= j < |r| ==> WellPlaced(r[j], b)) && Distinct(r)
      && ChainMap(r) == ChainMap(es)[key := v]
  {
    var r := [Entry(Djb2(key), key, v)] + es;
    assert r[1..] == es;
    forall j | 0 <= j < |es| ensures es[j].key != key {
      assert !Matches(es[j], key, Djb2(key));
    }
    ChainMapHas(es, key);
    KeyAbsentIsNotIn(key, es);
  }

  lemma {:induction false} LiveOfAtLeast(bs: seq<Chain>, b: nat)
    requires b < |bs|
    ensures LiveOf(bs) >= |bs[b].entries|
  {
    if b < |bs| - 1 {
      LiveOfAtLeast(bs[..|bs| - 1], b);
    }
  }

  /** In a chain of bucket b, a lookup by hash and key finds an entry exactly
      when some entry holds the key, and it finds that entry. */
  lemma ChainHasKey(es: seq<Entry>, b: nat, key: seq<byte>)
    requires forall i :: 0 <= i < |es| ==> WellPlaced(es[i], b)
    requires Distinct(es)
    ensures FindIn(es, key, Djb2(key)).None? <==> key !in ChainMap(es)
    ensures FindIn(es, key, Djb2(key)).Some? ==>
              ChainMap(es)[key] == es[FindIn(es, key, Djb2(key)).value].value
  {
    var found := FindIn(es, key, Djb2(key));
    ChainMapHas(es, key);
    if found.Some? {
      ChainMapAt(es, found.value);
    } else {
      forall i | 0 <= i < |es| ensures es[i].key != key {
        assert !Matches(es[i], key, Djb2(key));
      }
    }
  }

  lemma {:induction false} ChainMapHas(es: seq<Entry>, key: seq<byte>)
    ensures key in ChainMap(es) <==> exists i :: 0 <= i < |es| && es[i].key == key
  {
    if es != [] {
      ChainMapHas(es[1..], key);
      if key in ChainMap(es[1..]) {
        var i :| 0 <= i < |es[1..]| && es[1..][i].key == key;
        assert es[i + 1].key == key;
      }
      if exists i :: 0 <= i < |es| && es[i].key == key {
        var i :| 0 <= i < |es| && es[i].key == key;
        if i > 0 {
          assert es[1..][i - 1].key == key;
        }
      }
    }
  }

  lemma {:induction false} ChainMapAt(es: seq<Entry>, i: nat)
    requires Distinct(es) && i < |es|
    ensures es[i].key in ChainMap(es) && ChainMap(es)[es[i].key] == es[i].value
  {
    if i > 0 {
      ChainMapAt(es[1..], i - 1);
      KeyAbsentIsNotIn(es[0].key, es[1..]);
      assert es[i] == es[1..][i - 1];
    }
  }

  lemma {:induction false} ChainMapRemove(es: seq<Entry>, i: nat)
    requires Distinct(es) && i < |es|
    ensures ChainMap(es[..i] + es[i + 1..]) == ChainMap(es) - {es[i].key}
  {
    if i == 0 {
      KeyAbsentIsNotIn(es[0].key, es[1..]);
      assert es[..0] + es[1..] == es[1..];
      BindThenRemove(ChainMap(es[1..]), es[0].key, es[0].value);
    } else {
      var tail := es[1..];
      SpliceAfterHead(es, i);
      ChainMapRemove(tail, i - 1);
      KeyAbsentAt(es[0].key, tail, i - 1);
      assert tail[i - 1] == es[i];
      ChainMapCons(es[0], tail[..i - 1] + tail[i..]);
      RemoveThenBind(ChainMap(tail), es[i].key, es[0].key, es[0].value);
    }
  }

  /** No entry of a chain that lacks a key stores that key. */
  lemma {:induction false} KeyAbsentAt(key: seq<byte>, es: seq<Entry>, j: nat)
    requires KeyAbsent(key, es) && j < |es|
    ensures es[j].key != key
  {
    if j > 0 {
      KeyAbsentAt(key, es[1..], j - 1);
      assert es[1..][j - 1] == es[j];
    }
  }

  /** Dropping entry i > 0 keeps the head in front of the tail without it. */
  lemma SpliceAfterHead(es: seq<Entry>, i: nat)
    requires 0 < i < |es|
    ensures es[..i] + es[i + 1..] == [es[0]] + (es[1..][..i - 1] + es[1..][i..])
  {
    assert es[..i] == [es[0]] + es[1..][..i - 1];
    assert es[i + 1..] == es[1..][i..];
  }

  lemma ChainMapCons(e: Entry, es: seq<Entry>)
    ensures ChainMap([e] + es) == ChainMap(es)[e.key := e.value]
  {
    assert ([e] + es)[1..] == es;
  }

  lemma BindThenRemove(m: map<seq<byte>, Value>, k: seq<byte>, v: Value)
    requires k !in m
    ensures m[k := v] - {k} == m
  {
  }

  lemma {:induction false} DistinctRemove(es: seq<Entry>, i: nat)
    requires Distinct(es) && i < |es|
    ensures Distinct(es[..i] + es[i + 1..])
  {
    if i == 0 {
      assert es[..0] + es[1..] == es[1..];
    } else {
      var rest := es[1..][..i - 1] + es[1..][i..];
      DistinctRemove(es[1..], i - 1);
      ChainMapRemove(es[1..], i - 1);
      KeyAbsentIsNotIn(es[0].key, es[1..]);
      KeyAbsentIsNotIn(es[0].key, rest);
      assert (es[..i] + es[i + 1..])[1..] == rest;
    }
  }

  lemma RemoveThenBind(m: map<seq<byte>, Value>, k: seq<byte>, k0: seq<byte>, v0: Value)
    requires k != k0
    ensures (m - {k})[k0 := v0] == m[k0 := v0] - {k}
  {
  }

  lemma {:induction false} ChainMapReplace(es: seq<Entry>, i: nat, v: Value)
    requires Distinct(es) && i < |es|
    ensures Distinct(es[i := es[i].(value := v)])
    ensures ChainMap(es[i := es[i].(value := v)]) == ChainMap(es)[es[i].key := v]
  {
    KeyAbsentIsNotIn(es[0].key, es[1..]);
    if i == 0 {
      assert es[0 := es[0].(value := v)][1..] == es[1..];
    } else {
      var r := es[i := es[i].(value := v)];
      ChainMapReplace(es[1..], i - 1, v);
      ChainMapAt(es[1..], i - 1);
      assert es[1..][i - 1] == es[i];
      assert r == [es[0]] + es[1..][i - 1 := es[i].(value := v)];
      assert r[1..] == es[1..][i - 1 := es[i].(value := v)];
      KeyAbsentIsNotIn(es[0].key, r[1..]);
    }
  }

  lemma {:induction false} LiveOfUpdate(bs: seq<Chain>, b: nat, c: Chain)
    requires b < |bs|
    ensures LiveOf(bs[b := c]) + |bs[b].entries| == LiveOf(bs) + |c.entries|
  {
    var n := |bs| - 1;
    if b < n {
      LiveOfUpdate(bs[..n], b, c);
      assert bs[b := c][..n] == bs[..n][b := c];
    } else {
      assert bs[b := c][..n] == bs[..n];
    }
  }

  /** A key's binding in the whole table is its binding in its own bucket. */
  lemma {:induction false} TableMapAt(bs: seq<Chain>, key: seq<byte>)
    requires Placed(bs)
    ensures Bucket(Djb2(key)) >= |bs| ==> key !in TableMap(bs)
    ensures Bucket(Djb2(key)) < |bs| ==>
              (key in TableMap(bs) <==> key in ChainMap(bs[Bucket(Djb2(key))].entries))
              && (key in TableMap(bs) ==> TableMap(bs)[key] == ChainMap(bs[Bucket(Djb2(key))].entries)[key])
  {
    if bs != [] {
      var n := |bs| - 1;
      assert Placed(bs[..n]);
      TableMapAt(bs[..n], key);
      if Bucket(Djb2(key)) != n {
        ChainMapHas(bs[n].entries, key);
        forall i | 0 <= i < |bs[n].entries| ensures bs[n].entries[i].key != key {
          assert WellPlaced(bs[n].entries[i], n);
        }
      }
    }
  }

  lemma TableMapUpdate(bs: seq<Chain>, b: nat, c: Chain, key: seq<byte>, obj: Object)
    requires b < |bs| && Placed(bs) && Placed(bs[b := c]) && Bucket(Djb2(key)) == b
    requires obj.Some? ==> ChainMap(c.entries) == ChainMap(bs[b].entries)[key := obj.value]
    requires obj.None? ==> ChainMap(c.entries) == ChainMap(bs[b].entries) - {key}
    ensures obj.Some? ==> TableMap(bs[b := c]) == TableMap(bs)[key := obj.value]
    ensures obj.None? ==> TableMap(bs[b := c]) == TableMap(bs) - {key}
  {
    var m := if obj.Some? then TableMap(bs)[key := obj.value] else TableMap(bs) - {key};
    forall k ensures (k in TableMap(bs[b := c]) <==> k in m)
                     && (k in m ==> TableMap(bs[b := c])[k] == m[k])
    {
      TableMapAt(bs, k);
      TableMapAt(bs[b := c], k);
    }
    assert TableMap(bs[b := c]) == m;
  }

  /** A lookup returns exactly the key's binding in the abstract map. */
  lemma GetIsLookup(t: Table, key: seq<byte>)
    requires Valid(t)
    ensures Get(t, key) == if key in Contents(t) then Some(Contents(t)[key]) else None
  {
    TableMapAt(t.buckets, key);
    ChainHasKey(t.buckets[Bucket(Djb2(key))].entries, Bucket(Djb2(key)), key);
  }

  /** After set_value(d, k, v) with v non-NULL, get_value(d, k) returns v;
      after set_value(d, k, NULL) it returns NULL. */
  lemma GetAfterSet(t: Table, key: seq<byte>, obj: Object)
    requires Valid(t) && NoNul(key)
    ensures Get(Set(t, key, obj), key) == obj
  {
    SetKeepsValid(t, key, obj);
    SetContents(t, key, obj);
    GetIsLookup(Set(t, key, obj), key);
  }

  /** set_value(d, k, _) leaves every other key's lookup as it was. */
  lemma GetOtherAfterSet(t: Table, key: seq<byte>, obj: Object, other: seq<byte>)
    requires Valid(t) && NoNul(key) && other != key
    ensures Get(Set(t, key, obj), other) == Get(t, other)
  {
    SetKeepsValid(t, key, obj);
    SetContents(t, key, obj);
    GetIsLookup(Set(t, key, obj), other);
    GetIsLookup(t, other);
  }

  /** A key not yet present is linked in at the head of its bucket's chain,
      and `count` grows by one; no other bucket changes. */
  lemma SetNewKeyAtHead(t: Table, key: seq<byte>, v: Value)
    requires Valid(t) && NoNul(key) && key !in Contents(t)
    ensures var b := Bucket(Djb2(key));
      Set(t, key, Some(v)).buckets == t.buckets[b := Chain([Entry(Djb2(key), key, v)] + t.buckets[b].entries)]
      && Set(t, key, Some(v)).count == t.count + 1
  {
    GetIsLookup(t, key);
  }

  /** A key already present keeps its entry, at the same position in the
      same chain, with the new value; `count` is unchanged. */
  lemma SetExistingInPlace(t: Table, key: seq<byte>, v: Value)
    requires Valid(t) && NoNul(key) && key in Contents(t)
    ensures var b := Bucket(Djb2(key));
      var i := FindIn(t.buckets[b].entries, key, Djb2(key));
      i.Some? && t.buckets[b].entries[i.value].key == key
      && Set(t, key, Some(v)).buckets == t.buckets[b := Chain(t.buckets[b].entries[i.value := Entry(Djb2(key), key, v)])]
      && Set(t, key, Some(v)).count == t.count
  {
    GetIsLookup(t, key);
  }

  /** set_value(d, k, NULL) on an absent key changes nothing. */
  lemma DeleteAbsentIsNoop(t: Table, key: seq<byte>)
    requires Valid(t) && NoNul(key) && key !in Contents(t)
    ensures Set(t, key, None) == t
  {
    GetIsLookup(t, key);
  }

  /** set_value(d, k, NULL) on a present key unlinks one entry from its chain
      and decrements `count`. */
  lemma DeletePresentUnlinks(t: Table, key: seq<byte>)
    requires Valid(t) && NoNul(key) && key in Contents(t)
    ensures var b := Bucket(Djb2(key)); var r := Set(t, key, None);
      |r.buckets[b].entries| + 1 == |t.buckets[b].entries| && r.count + 1 == t.count
      && (forall c :: 0 <= c < NBuckets && c != b ==> r.buckets[c] == t.buckets[c])
  {
    GetIsLookup(t, key);
    LiveOfAtLeast(t.buckets, Bucket(Djb2(key)));
  }

  /** _xpc_dictionary_hash_key: the loop over the key's bytes. */
  method HashKey(key: seq<byte>) returns (h: u64)
    ensures h == Djb2(key)
  {
    h := HashSeed;
    var i := 0;
    while i < |key|
      invariant 0 <= i <= |key|
      invariant h == Djb2(key[..i])
    {
      assert key[..i + 1][..i] == key[..i];
      h := (h * 33 + key[i]) % Pow64;
      i := i + 1;
    }
    assert key[..i] == key;
  }

  ghost predicate CStrings(keys: seq<seq<byte>>) {
    forall i :: 0 <= i < |keys| ==> NoNul(keys[i])
  }

  /** The map the first n bindings make of m when applied in order: a later
      binding of a key overrides an earlier one and a NULL value removes the
      key. */
  ghost function Bindings(m: map<seq<byte>, Value>, keys: seq<seq<byte>>, values: seq<Object>, n: nat): map<seq<byte>, Value>
    requires |keys| == |values| && n <= |keys|
  {
    if n == 0 then m
    else if values[n - 1].None? then Bindings(m, keys, values, n - 1) - {keys[n - 1]}
    else Bindings(m, keys, values, n - 1)[keys[n - 1] := values[n - 1].value]
  }

  /** The loop of xpc_dictionary_create: set_value(keys[i], values[i]) for
      i below n, in order. */
  function Fill(t: Table, keys: seq<seq<byte>>, values: seq<Object>, n: nat): (r: Table)
    requires |t.buckets| == NBuckets && |keys| == |values| && n <= |keys|
    decreases n, 1
    ensures |r.buckets| == NBuckets
  {
    if n == 0 then t else FillStep(t, keys, values, n)
  }

  /** Pass n of that loop: set_value of the n-th pair on what the first
      n - 1 passes left. */
  function FillStep(t: Table, keys: seq<seq<byte>>, values: seq<Object>, n: nat): (r: Table)
    requires |t.buckets| == NBuckets && |keys| == |values| && 0 < n <= |keys|
    decreases n, 0
    ensures |r.buckets| == NBuckets
  {
    Set(Fill(t, keys, values, n - 1), keys[n - 1], values[n - 1])
  }

  /** A run of set_value calls keeps the table invariant, and `count` keeps
      its distance to the number of linked entries. */
  lemma {:induction false} FillKeepsValid(t: Table, keys: seq<seq<byte>>, values: seq<Object>, n: nat)
    requires Valid(t) && CStrings(keys) && |keys| == |values| && n <= |keys|
    ensures Valid(Fill(t, keys, values, n))
    ensures Fill(t, keys, values, n).count + Live(t) == t.count + Live(Fill(t, keys, values, n))
  {
    if n > 0 {
      FillKeepsValid(t, keys, values, n - 1);
      SetKeepsValid(Fill(t, keys, values, n - 1), keys[n - 1], values[n - 1]);
    }
  }

  /** The map a run of set_value calls leaves: each pair in turn binds or
      removes its key. */
  lemma {:induction false} FillContents(t: Table, keys: seq<seq<byte>>, values: seq<Object>, n: nat)
    requires Valid(t) && CStrings(keys) && |keys| == |values| && n <= |keys|
    ensures Contents(Fill(t, keys, values, n)) == Bindings(Contents(t), keys, values, n)
  {
    if n > 0 {
      FillContents(t, keys, values, n - 1);
      FillKeepsValid(t, keys, values, n - 1);
      SetContents(Fill(t, keys, values, n - 1), keys[n - 1], values[n - 1]);
    }
  }

  /** A run of n set_value calls depends only on the first n pairs. */
  lemma {:induction false} FillPrefix(t: Table, keys: seq<seq<byte>>, values: seq<Object>,
                                      keys': seq<seq<byte>>, values': seq<Object>, n: nat)
    requires |t.buckets| == NBuckets && |keys| == |values| && |keys'| == |values'|
    requires n <= |keys| && n <= |keys'| && keys[..n] == keys'[..n] && values[..n] == values'[..n]
    ensures Fill(t, keys, values, n) == Fill(t, keys', values', n)
  {
    if n > 0 {
      assert keys[..n - 1] == keys[..n][..n - 1] && keys'[..n - 1] == keys'[..n][..n - 1];
      assert values[..n - 1] == values[..n][..n - 1] && values'[..n - 1] == values'[..n][..n - 1];
      assert keys[n - 1] == keys[..n][n - 1] && keys'[n - 1] == keys'[..n][n - 1];
      assert values[n - 1] == values[..n][n - 1] && values'[n - 1] == values'[..n][n - 1];
      FillPrefix(t, keys, values, keys', values', n - 1);
    }
  }

  /** One more pair appended to the list is one more set_value call. */
  lemma FillAppend(t: Table, keys: seq<seq<byte>>, values: seq<Object>, k: seq<byte>, v: Object)
    requires |t.buckets| == NBuckets && |keys| == |values|
    ensures Fill(t, keys + [k], values + [v], |keys| + 1) == Set(Fill(t, keys, values, |keys|), k, v)
  {
    var n := |keys|;
    assert (keys + [k])[..n] == keys[..n] && (values + [v])[..n] == values[..n];
    FillPrefix(t, keys + [k], values + [v], keys, values, n);
  }

  /** xpc_dictionary_create with `count` starting at 0, so that it counts
      the entries the inserts link in. */
  function CreateTable(keys: seq<seq<byte>>, values: seq<Object>): (t: Table)
    requires CStrings(keys) && |keys| == |values|
    ensures Valid(t) && t.count == Live(t)
    ensures Contents(t) == Bindings(map[], keys, values, |keys|)
  {
    EmptyTableIsEmpty();
    FillContents(EmptyTable(), keys, values, |keys|);
    FillKeepsValid(EmptyTable(), keys, values, |keys|);
    Fill(EmptyTable(), keys, values, |keys|)
  }

  /** xpc_dictionary_create as written: `count` starts at the number of
      pairs and each insert of a new key adds one more.  Stated for non-NULL
      values, where every insert is the corrected Set. */
  function CreateTableAsWritten(keys: seq<seq<byte>>, values: seq<Object>): (t: Table)
    requires CStrings(keys) && |keys| == |values|
    requires forall i :: 0 <= i < |values| ==> values[i].Some?
    ensures Valid(t) && t.count == |keys| + Live(t)
    ensures Contents(t) == Bindings(map[], keys, values, |keys|)
  {
    var t0 := Table(EmptyTable().buckets, |keys|);
    EmptyChainsHaveNoEntries(t0.buckets);
    FillContents(t0, keys, values, |keys|);
    FillKeepsValid(t0, keys, values, |keys|);
    Fill(t0, keys, values, |keys|)
  }

  /** With one pair the as-written create reports two entries while one is
      linked; the corrected create reports one. */
  lemma CreateCountDrift()
    ensures var keys := [[0x61]]; var values := [Some(Bool(true))];
      CreateTableAsWritten(keys, values).count == 2 && Live(CreateTableAsWritten(keys, values)) == 1
      && CreateTable(keys, values).count == 1
  {
    var keys: seq<seq<byte>> := [[0x61]];
    var values: seq<Object> := [Some(Bool(true))];
    EmptyTableIsEmpty();
    EmptyChainsHaveNoEntries(EmptyTable().buckets);
    assert Fill(EmptyTable(), keys, values, 0) == EmptyTable();
    assert Live(Fill(Table(EmptyTable().buckets, 1), keys, values, 0)) == 0;
  }

  /** xpc_dictionary_set_value as written.  Unlinking the head of a chain
      (`prev == NULL`) relinks only the successor's `prev` and never moves
      `buckets[b]`, which keeps pointing at the freed entry, so the chain as
      seen from the bucket is unchanged; `count` still drops by one.  A
      later lookup through that bucket is a use after free, undefined in C;
      the model reads the freed entry as it was.  Every
      other case behaves as Set. */
  function SetAsWritten(t: Table, key: seq<byte>, obj: Object): (r: Table)
    requires Valid(t) && NoNul(key)
    ensures var b := Bucket(Djb2(key));
      if obj.None? && |t.buckets[b].entries| > 0 && t.buckets[b].entries[0].key == key
      then Contents(r) == Contents(t) && Live(r) == Live(t) && r.count + 1 == t.count
      else r == Set(t, key, obj)
  {
    var b := Bucket(Djb2(key));
    if obj.None? && |t.buckets[b].entries| > 0 && t.buckets[b].entries[0].key == key then
      LiveOfAtLeast(t.buckets, b);
      Table(t.buckets, t.count - 1)
    else Set(t, key, obj)
  }

  /** Deleting a key that heads its chain leaves it visible to lookups
      through the stale bucket pointer, and `count` falls below the number of
      reachable entries; the corrected Set removes it. */
  lemma HeadDeleteLeavesStaleEntry(t: Table, key: seq<byte>)
    requires Valid(t) && NoNul(key) && t.count == Live(t)
    requires var b := Bucket(Djb2(key)); |t.buckets[b].entries| > 0 && t.buckets[b].entries[0].key == key
    ensures Get(SetAsWritten(t, key, None), key).Some?
    ensures SetAsWritten(t, key, None).count < Live(SetAsWritten(t, key, None))
    ensures !Valid(SetAsWritten(t, key, None))
    ensures Get(Set(t, key, None), key) == None
  {
    var b := Bucket(Djb2(key));
    assert WellPlaced(t.buckets[b].entries[0], b);
    assert Matches(t.buckets[b].entries[0], key, Djb2(key));
    GetAfterSet(t, key, None);
  }

  /** The default xpc_dictionary_get_double returns: NAN as a quiet-NaN bit
      pattern. */
  const NaNBits: u64 := 0x7FF8_0000_0000_0000

  /** The typed getters' selection, `xpc_get_type(o) == T ? value : default`,
      with a NULL object (an absent key) taken as a type mismatch. */
  function BoolOf(o: Object): (r: bool)
    ensures r <==> o == Some(Bool(true))
  {
    match o
    case Some(Bool(b)) => b
    case _ => false
  }

  function Int64Of(o: Object): (r: i64)
    ensures (o.Some? && o.value.Int64?) ==> r == o.value.i
    ensures !(o.Some? && o.value.Int64?) ==> r == 0
  {
    match o
    case Some(Int64(i)) => i
    case _ => 0
  }

  function UInt64Of(o: Object): (r: u64)
    ensures (o.Some? && o.value.UInt64?) ==> r == o.value.u
    ensures !(o.Some? && o.value.UInt64?) ==> r == 0
  {
    match o
    case Some(UInt64(u)) => u
    case _ => 0
  }

  function DoubleOf(o: Object): (r: u64)
    ensures (o.Some? && o.value.Double?) ==> r == o.value.bits
    ensures !(o.Some? && o.value.Double?) ==> r == NaNBits
  {
    match o
    case Some(Double(d)) => d
    case _ => NaNBits
  }

  /** xpc_dictionary_get_data with the value's own payload: the bytes and
      the length, or nothing and length 0. */
  function DataOf(o: Object): (r: (Option<seq<byte>>, nat))
    ensures (o.Some? && o.value.Data?) ==> r == (Some(o.value.bytes), |o.value.bytes|)
    ensures !(o.Some? && o.value.Data?) ==> r == (None, 0)
  {
    match o
    case Some(Data(d)) => (Some(d), |d|)
    case _ => (None, 0)
  }

  /** xpc_dictionary_get_string: the stored characters, or NULL. */
  function StringOf(o: Object): (r: Option<seq<byte>>)
    ensures (o.Some? && o.value.String?) ==> r == Some(o.value.chars)
    ensures !(o.Some? && o.value.String?) ==> r == None
  {
    match o
    case Some(String(s)) => Some(s)
    case _ => None
  }

  /** A typed setter followed by the typed getter of the same type returns
      the value set. */
  lemma TypedRoundTrip(t: Table, key: seq<byte>, v: Value)
    requires Valid(t) && NoNul(key)
    ensures v.Bool? ==> BoolOf(Get(Set(t, key, Some(v)), key)) == v.b
    ensures v.Int64? ==> Int64Of(Get(Set(t, key, Some(v)), key)) == v.i
    ensures v.UInt64? ==> UInt64Of(Get(Set(t, key, Some(v)), key)) == v.u
    ensures v.Double? ==> DoubleOf(Get(Set(t, key, Some(v)), key)) == v.bits
    ensures v.Data? ==> DataOf(Get(Set(t, key, Some(v)), key)) == (Some(v.bytes), |v.bytes|)
    ensures v.String? ==> StringOf(Get(Set(t, key, Some(v)), key)) == Some(v.chars)
  {
    GetAfterSet(t, key, Some(v));
  }

  /** For an absent key every typed getter returns its default. */
  lemma TypedDefaults(t: Table, key: seq<byte>)
    requires Valid(t) && key !in Contents(t)
    ensures !BoolOf(Get(t, key)) && Int64Of(Get(t, key)) == 0 && UInt64Of(Get(t, key)) == 0
    ensures DoubleOf(Get(t, key)) == NaNBits && DataOf(Get(t, key)) == (None, 0)
    ensures StringOf(Get(t, key)) == None
  {
    GetIsLookup(t, key);
  }

  /** What a C call does: return a value, or dereference a NULL pointer. */
  datatype Outcome<T> = Returns(result: T) | NullDereference

  /** xpc_get_type as the typed getters call it, on whatever get_value
      returned: `v->type` of a NULL object is a NULL dereference. */
  function GetTypeAsWritten(o: Object): (r: Outcome<nat>)
  {
    match o
    case None => NullDereference
    case Some(v) => Returns(TypeOf(v))
  }

  /** Every typed getter asked for an absent key dereferences NULL before it
      can return its default. */
  lemma AbsentKeyGetterDereferencesNull(t: Table, key: seq<byte>)
    requires Valid(t) && key !in Contents(t)
    ensures GetTypeAsWritten(Get(t, key)) == NullDereference
  {
    GetIsLookup(t, key);
  }

  /** Where the pointer xpc_dictionary_get_data returns points. */
  datatype DataPointer = NoPointer | ValuePayload | DictionaryPayload

  /** xpc_dictionary_get_data as written: for a data value it reports the
      value's length but returns `xpc_data_get_bytes_ptr(obj)` of the
      dictionary `obj`, not of the value `o`. */
  function GetDataAsWritten(o: Object): (r: Outcome<(DataPointer, nat)>)
    ensures o.None? ==> r == NullDereference
    ensures o.Some? && o.value.Data? ==> r == Returns((DictionaryPayload, |o.value.bytes|))
    ensures o.Some? && !o.value.Data? ==> r == Returns((NoPointer, 0))
    ensures r.Returns? ==> r.result.0 != ValuePayload
  {
    match o
    case None => NullDereference
    case Some(Data(d)) => Returns((DictionaryPayload, |d|))
    case Some(_) => Returns((NoPointer, 0))
  }

  /** A stored data value is reported with the right length but a pointer
      into the dictionary, where DataOf hands back the value's own bytes. */
  lemma GetDataPointsIntoDictionary(t: Table, key: seq<byte>, d: seq<byte>)
    requires Valid(t) && NoNul(key)
    ensures GetDataAsWritten(Get(Set(t, key, Some(Data(d))), key)) == Returns((DictionaryPayload, |d|))
    ensures DataOf(Get(Set(t, key, Some(Data(d))), key)) == (Some(d), |d|)
  {
    GetAfterSet(t, key, Some(Data(d)));
  }
}
