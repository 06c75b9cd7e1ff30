/** What a dictionary read back holds.  The reader rebuilds a dictionary by
    set_value of the entries in the order the writer emitted them, so its
    chains come back reversed; its key to value map is still the
    original's, with every value read back in turn. */
module Mirroring {
  import opened Bytes
  import opened Values
  import opened RoundTrip
  import Dict

  /** The map the first n entries of a list make when each is bound in
      turn: a later entry overrides an earlier one with the same key. */
  ghost function PairsMap(es: seq<Entry>, n: nat): map<seq<byte>, Value>
    requires n <= |es|
  {
    if n == 0 then map[] else PairsMap(es, n - 1)[es[n - 1].key := es[n - 1].value]
  }

  lemma {:induction false} PairsMapPrefix(a: seq<Entry>, b: seq<Entry>, n: nat)
    requires n <= |a| && n <= |b| && a[..n] == b[..n]
    ensures PairsMap(a, n) == PairsMap(b, n)
  {
    if n > 0 {
      assert a[..n - 1] == a[..n][..n - 1] && b[..n - 1] == b[..n][..n - 1];
      assert a[n - 1] == a[..n][n - 1] && b[n - 1] == b[..n][n - 1];
      PairsMapPrefix(a, b, n - 1);
    }
  }

  /** Binding a + b in turn is binding a, then b over it. */
  lemma {:induction false} PairsMapAppend(a: seq<Entry>, b: seq<Entry>, n: nat)
    requires n <= |b|
    ensures PairsMap(a + b, |a| + n) == PairsMap(a, |a|) + PairsMap(b, n)
  {
    if n == 0 {
      assert (a + b)[..|a|] == a[..|a|];
      PairsMapPrefix(a + b, a, |a|);
    } else {
      PairsMapAppend(a, b, n - 1);
      assert (a + b)[|a| + n - 1] == b[n - 1];
    }
  }

  /** In a chain with unique keys, binding head to tail gives the map in
      which the head is the one a lookup sees. */
  lemma {:induction false} PairsMapOfChain(es: seq<Entry>)
    requires Dict.Distinct(es)
    ensures PairsMap(es, |es|) == Dict.ChainMap(es)
  {
    if es != [] {
      var x, rest := es[0], es[1..];
      PairsMapOfChain(rest);
      Dict.KeyAbsentIsNotIn(x.key, rest);
      assert es == [x] + rest;
      PairsMapAppend([x], rest, |rest|);
      assert PairsMap([x], 1) == map[x.key := x.value];
    }
  }

  /** The first n buckets, flattened and bound in turn, give their map. */
  lemma {:induction false} PairsMapOfFlat(t: Table, n: nat)
    requires n <= |t.buckets|
    requires forall b :: 0 <= b < |t.buckets| ==> Dict.Distinct(t.buckets[b].entries)
    ensures PairsMap(Flat(t, n), |Flat(t, n)|) == Dict.TableMap(t.buckets[..n])
  {
    if n > 0 {
      var c := t.buckets[n - 1].entries;
      PairsMapOfFlat(t, n - 1);
      PairsMapAppend(Flat(t, n - 1), c, |c|);
      PairsMapOfChain(c);
      assert t.buckets[..n][..n - 1] == t.buckets[..n - 1];
    }
  }

  /** The values MirrorPairs lists are the entries' values, mirrored. */
  lemma {:induction false} MirrorPairsAre(t: Table, es: seq<Entry>, n: nat)
    requires es == Flat(t, |t.buckets|) && PairsOk(es) && n <= |es|
    ensures forall i :: 0 <= i < n ==> MirrorPairs(t, es, n)[i] == Some(Mirror(es[i].value))
  {
    if n > 0 {
      MirrorPairsAre(t, es, n - 1);
    }
  }

  /** m binds the keys of p, each to its value mirrored. */
  ghost predicate MirrorsMap(m: map<seq<byte>, Value>, p: map<seq<byte>, Value>) {
    (forall k :: k in m <==> k in p)
    && forall k :: k in p ==> Supported(p[k]) && m[k] == Mirror(p[k])
  }

  /** Applying the keys and mirrored values of the first n entries to an
      empty map binds the same keys as the entries, each to its value
      mirrored. */
  lemma {:induction false} BindingsOfPairs(t: Table, es: seq<Entry>, n: nat)
    requires es == Flat(t, |t.buckets|) && PairsOk(es) && n <= |es|
    requires forall i :: 0 <= i < |es| ==> PairKeys(es, |es|)[i] == es[i].key
    requires forall i :: 0 <= i < |es| ==> MirrorPairs(t, es, |es|)[i] == Some(Mirror(es[i].value))
    ensures MirrorsMap(Dict.Bindings(map[], PairKeys(es, |es|), MirrorPairs(t, es, |es|), n), PairsMap(es, n))
  {
    if n > 0 {
      BindingsOfPairs(t, es, n - 1);
      var keys, values := PairKeys(es, |es|), MirrorPairs(t, es, |es|);
      var x := es[n - 1];
      assert keys[n - 1] == x.key && values[n - 1] == Some(Mirror(x.value));
      assert Supported(x.value);
      BindOne(Dict.Bindings(map[], keys, values, n - 1), PairsMap(es, n - 1), x.key, x.value);
    }
  }

  lemma BindOne(m: map<seq<byte>, Value>, p: map<seq<byte>, Value>, k: seq<byte>, v: Value)
    requires MirrorsMap(m, p) && Supported(v)
    ensures MirrorsMap(m[k := Mirror(v)], p[k := v])
  {
  }

  /** A dictionary read back binds exactly the keys of the dictionary
      written, each to the value read back from that key's value. */
  lemma MirrorKeepsContents(t: Table)
    requires TableOk(t) && Dict.Valid(t)
    ensures forall k :: k in Dict.Contents(MirrorTable(t)) <==> k in Dict.Contents(t)
    ensures forall k :: k in Dict.Contents(t) ==>
              Supported(Dict.Contents(t)[k]) && Dict.Contents(MirrorTable(t))[k] == Mirror(Dict.Contents(t)[k])
  {
    var es := Flat(t, |t.buckets|);
    FlatOk(t);
    PairKeysAre(es, |es|);
    MirrorPairsAre(t, es, |es|);
    var keys, values := PairKeys(es, |es|), MirrorPairs(t, es, |es|);
    Dict.EmptyTableIsEmpty();
    Dict.FillContents(Dict.EmptyTable(), keys, values, |es|);
    BindingsOfPairs(t, es, |es|);
    PairsMapOfFlat(t, |t.buckets|);
    assert t.buckets[..|t.buckets|] == t.buckets;
  }

  /** A lookup in a dictionary read back finds the value read back from
      what the same lookup finds in the dictionary written. */
  lemma GetAfterRoundTrip(t: Table, key: seq<byte>)
    requires TableOk(t) && Dict.Valid(t)
    ensures Dict.Get(t, key).None? ==> Dict.Get(MirrorTable(t), key).None?
    ensures Dict.Get(t, key).Some? ==>
              Supported(Dict.Get(t, key).value)
              && Dict.Get(MirrorTable(t), key) == Some(Mirror(Dict.Get(t, key).value))
  {
    MirrorKeepsContents(t);
    Dict.GetIsLookup(t, key);
    var es := Flat(t, |t.buckets|);
    FlatOk(t);
    PairKeysAre(es, |es|);
    Dict.FillKeepsValid(Dict.EmptyTable(), PairKeys(es, |es|), MirrorPairs(t, es, |es|), |es|);
    Dict.GetIsLookup(MirrorTable(t), key);
  }
}
