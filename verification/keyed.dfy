/** Tables with one natural key per row, and the repository's
    "look the key up among the rows that existed before, update that row or
    insert a new one" upsert, written once for every keyed table. */
module Keyed {
  import opened Wrappers

  datatype Row<K, V> = Row(key: K, val: V)

  /** The unique constraint of a keyed table: no two rows share a key. */
  predicate UniqueKeys<K(==,!new), V>(rows: seq<Row<K, V>>) {
    forall i, j :: 0 <= i < j < |rows| ==> rows[i].key != rows[j].key
  }

  predicate HasKey<K(==,!new), V>(rows: seq<Row<K, V>>, k: K) {
    exists i :: 0 <= i < |rows| && rows[i].key == k
  }

  /** `{e.key: e for e in rows}`: the dictionary the repository builds; a
      later row with the same key replaces an earlier one. */
  function AsMap<K(==,!new), V>(rows: seq<Row<K, V>>): (m: map<K, V>)
    ensures forall k :: k in m <==> HasKey(rows, k)
  {
    if rows == [] then map[]
    else
      var m := AsMap(rows[..|rows| - 1]);
      var last := rows[|rows| - 1];
      assert forall k :: HasKey(rows, k) <==> HasKey(rows[..|rows| - 1], k) || last.key == k by {
        forall k | HasKey(rows, k)
          ensures HasKey(rows[..|rows| - 1], k) || last.key == k
        {
          var i :| 0 <= i < |rows| && rows[i].key == k;
          if i < |rows| - 1 {
            assert rows[..|rows| - 1][i] == rows[i];
          }
        }
        forall k | HasKey(rows[..|rows| - 1], k)
          ensures HasKey(rows, k)
        {
          var i :| 0 <= i < |rows| - 1 && rows[..|rows| - 1][i].key == k;
          assert rows[i] == rows[..|rows| - 1][i];
        }
      }
      m[last.key := last.val]
  }

  /** Some incoming item carries key `k`. */
  predicate Mentions<K(==), N>(ns: seq<N>, keyOf: N -> K, k: K) {
    exists j :: 0 <= j < |ns| && keyOf(ns[j]) == k
  }

  lemma MentionsInit<K(!new), N>(ns: seq<N>, keyOf: N -> K, k: K)
    requires |ns| > 0
    ensures Mentions(ns, keyOf, k) <==> Mentions(ns[..|ns| - 1], keyOf, k) || keyOf(ns[|ns| - 1]) == k
  {
    var init := ns[..|ns| - 1];
    if Mentions(ns, keyOf, k) {
      var j :| 0 <= j < |ns| && keyOf(ns[j]) == k;
      if j < |init| {
        assert init[j] == ns[j];
      }
    }
    if Mentions(init, keyOf, k) {
      var j :| 0 <= j < |init| && keyOf(init[j]) == k;
      assert ns[j] == init[j];
    }
  }

  /** Position of the row the dictionary keeps for `k`: the last one. */
  function LastIndexOf<K(==,!new), V>(rows: seq<Row<K, V>>, k: K): (r: Option<nat>)
    ensures r.Some? ==> r.value < |rows| && rows[r.value].key == k
    ensures r.Some? ==> forall j :: r.value < j < |rows| ==> rows[j].key != k
    ensures r.None? <==> !HasKey(rows, k)
  {
    if rows == [] then None
    else if rows[|rows| - 1].key == k then Some(|rows| - 1)
    else
      var init := rows[..|rows| - 1];
      var r := LastIndexOf(init, k);
      assert HasKey(rows, k) ==> HasKey(init, k) by {
        forall i | 0 <= i < |rows| && rows[i].key == k
          ensures HasKey(init, k)
        {
          assert init[i] == rows[i];
        }
      }
      assert HasKey(init, k) ==> HasKey(rows, k) by {
        forall i | 0 <= i < |init| && init[i].key == k
          ensures HasKey(rows, k)
        {
          assert rows[i] == init[i];
        }
      }
      r
  }

  /** One incoming item: merged into the pre-existing row with its key, or
      appended as a fresh row built from `init`. The key is looked up in
      `pre`, the rows as they were before the call, while the update lands on
      the current `rows`; rows appended earlier in the same call are never
      found. */
  function Step<K(==,!new), V, N>(pre: seq<Row<K, V>>, rows: seq<Row<K, V>>, n: N,
                             keyOf: N -> K, init: V, merge: (V, N) -> V): (r: seq<Row<K, V>>)
    requires |pre| <= |rows|
    ensures |rows| <= |r|
  {
    match LastIndexOf(pre, keyOf(n))
    case Some(i) => rows[i := Row(rows[i].key, merge(rows[i].val, n))]
    case None => rows + [Row(keyOf(n), merge(init, n))]
  }

  /** Upsert every incoming item in order. No row is ever removed, and the
      rows that existed before keep their place and their key. */
  function UpsertAll<K(==,!new), V, N>(pre: seq<Row<K, V>>, ns: seq<N>,
                                  keyOf: N -> K, init: V, merge: (V, N) -> V): (r: seq<Row<K, V>>)
    ensures |pre| <= |r|
    ensures forall i :: 0 <= i < |pre| ==> r[i].key == pre[i].key
    decreases |ns|
  {
    if ns == [] then pre
    else
      var rows := UpsertAll(pre, ns[..|ns| - 1], keyOf, init, merge);
      Step(pre, rows, ns[|ns| - 1], keyOf, init, merge)
  }

  /** Number of incoming items whose key no pre-existing row has. */
  function CountNew<K(==,!new), V, N>(pre: seq<Row<K, V>>, ns: seq<N>, keyOf: N -> K): nat
    decreases |ns|
  {
    if ns == [] then 0
    else CountNew(pre, ns[..|ns| - 1], keyOf) + (if HasKey(pre, keyOf(ns[|ns| - 1])) then 0 else 1)
  }

  /** The table grows by exactly one row per incoming item with an unseen key. */
  lemma {:induction false} UpsertCount<K(!new), V, N>(pre: seq<Row<K, V>>, ns: seq<N>,
                                                     keyOf: N -> K, init: V, merge: (V, N) -> V)
    ensures |UpsertAll(pre, ns, keyOf, init, merge)| == |pre| + CountNew(pre, ns, keyOf)
    decreases |ns|
  {
    if ns != [] {
      UpsertCount(pre, ns[..|ns| - 1], keyOf, init, merge);
    }
  }

  /** The keys present after the upsert: the pre ones and the incoming ones. */
  lemma {:induction false} UpsertKeys<K(!new), V, N>(pre: seq<Row<K, V>>, ns: seq<N>,
                                                    keyOf: N -> K, init: V, merge: (V, N) -> V)
    ensures forall k :: HasKey(UpsertAll(pre, ns, keyOf, init, merge), k) <==>
                          HasKey(pre, k) || Mentions(ns, keyOf, k)
    decreases |ns|
  {
    if ns != [] {
      var init' := ns[..|ns| - 1];
      var last := ns[|ns| - 1];
      var rows := UpsertAll(pre, init', keyOf, init, merge);
      var r := UpsertAll(pre, ns, keyOf, init, merge);
      UpsertKeys(pre, init', keyOf, init, merge);
      assert forall k :: HasKey(r, k) <==> HasKey(rows, k) || keyOf(last) == k by {
        match LastIndexOf(pre, keyOf(last))
        case Some(i) =>
          assert forall j :: 0 <= j < |r| ==> r[j].key == rows[j].key;
          assert rows[i].key == pre[i].key == keyOf(last);
        case None =>
          assert r == rows + [Row(keyOf(last), merge(init, last))];
          forall k | HasKey(rows, k)
            ensures HasKey(r, k)
          {
            var j :| 0 <= j < |rows| && rows[j].key == k;
            assert r[j] == rows[j];
          }
          assert r[|rows|].key == keyOf(last);
      }
      forall k
        ensures Mentions(ns, keyOf, k) <==> Mentions(init', keyOf, k) || keyOf(last) == k
      {
        MentionsInit(ns, keyOf, k);
      }
    }
  }

  /** No two incoming items share a key that no pre-existing row has. */
  predicate NoNewKeyTwice<K(==,!new), V, N>(pre: seq<Row<K, V>>, ns: seq<N>, keyOf: N -> K) {
    forall i, j :: 0 <= i < j < |ns| && keyOf(ns[i]) == keyOf(ns[j]) ==> HasKey(pre, keyOf(ns[i]))
  }

  lemma NoNewKeyTwiceSnoc<K(!new), V, N>(pre: seq<Row<K, V>>, ns: seq<N>, keyOf: N -> K)
    requires |ns| > 0
    ensures NoNewKeyTwice(pre, ns, keyOf) <==>
            NoNewKeyTwice(pre, ns[..|ns| - 1], keyOf) &&
            (HasKey(pre, keyOf(ns[|ns| - 1])) || !Mentions(ns[..|ns| - 1], keyOf, keyOf(ns[|ns| - 1])))
  {
    var init' := ns[..|ns| - 1];
    assert forall i :: 0 <= i < |init'| ==> init'[i] == ns[i];
  }

  /** Appending a row keeps the keys unique exactly when its key is fresh. */
  lemma UniqueSnoc<K(!new), V>(rows: seq<Row<K, V>>, x: Row<K, V>)
    ensures UniqueKeys(rows + [x]) <==> UniqueKeys(rows) && !HasKey(rows, x.key)
  {
    var r := rows + [x];
    assert forall i :: 0 <= i < |rows| ==> r[i] == rows[i];
    assert r[|rows|] == x;
  }

  /** Starting from a table that meets its unique constraint, the upsert keeps
      it exactly when no key new to the table arrives twice: the lookup only
      sees pre-existing rows, so a repeated new key is inserted twice. */
  lemma {:induction false} UpsertUniqueIff<K(!new), V, N>(pre: seq<Row<K, V>>, ns: seq<N>,
                                                         keyOf: N -> K, init: V, merge: (V, N) -> V)
    requires UniqueKeys(pre)
    ensures UniqueKeys(UpsertAll(pre, ns, keyOf, init, merge)) <==> NoNewKeyTwice(pre, ns, keyOf)
    decreases |ns|
  {
    if ns != [] {
      var init' := ns[..|ns| - 1];
      var last := ns[|ns| - 1];
      var rows := UpsertAll(pre, init', keyOf, init, merge);
      var r := UpsertAll(pre, ns, keyOf, init, merge);
      UpsertUniqueIff(pre, init', keyOf, init, merge);
      NoNewKeyTwiceSnoc(pre, ns, keyOf);
      match LastIndexOf(pre, keyOf(last))
      case Some(i) =>
        assert |r| == |rows|;
        assert forall j :: 0 <= j < |r| ==> r[j].key == rows[j].key;
      case None =>
        UpsertKeys(pre, init', keyOf, init, merge);
        UniqueSnoc(rows, Row(keyOf(last), merge(init, last)));
    }
  }

  /** The map view of a keyed table under the repository's upsert: an
      incoming item merges into the value held for its key, or into `init`
      when the key is new. This is the behaviour of a dictionary keyed by
      the enumeration. */
  function MapUpsert<K(==,!new), V, N>(m: map<K, V>, ns: seq<N>, keyOf: N -> K, init: V,
                                  merge: (V, N) -> V): (r: map<K, V>)
    ensures forall k :: k in r <==> k in m || Mentions(ns, keyOf, k)
    decreases |ns|
  {
    if ns == [] then m
    else
      var init' := ns[..|ns| - 1];
      var last := ns[|ns| - 1];
      var m' := MapUpsert(m, init', keyOf, init, merge);
      var k := keyOf(last);
      assert forall k0 :: Mentions(ns, keyOf, k0) <==> Mentions(init', keyOf, k0) || k == k0 by {
        forall k0
          ensures Mentions(ns, keyOf, k0) <==> Mentions(init', keyOf, k0) || k == k0
        {
          MentionsInit(ns, keyOf, k0);
        }
      }
      m'[k := merge(if k in m' then m'[k] else init, last)]
  }

  lemma {:induction false} AsMapUnique<K(!new), V>(rows: seq<Row<K, V>>, i: nat)
    requires UniqueKeys(rows) && i < |rows|
    ensures AsMap(rows)[rows[i].key] == rows[i].val
    decreases |rows|
  {
    if i < |rows| - 1 {
      var init := rows[..|rows| - 1];
      assert init[i] == rows[i];
      AsMapUnique(init, i);
    }
  }

  lemma {:induction false} AsMapUpdate<K(!new), V>(rows: seq<Row<K, V>>, i: nat, v: V)
    requires UniqueKeys(rows) && i < |rows|
    ensures AsMap(rows[i := Row(rows[i].key, v)]) == AsMap(rows)[rows[i].key := v]
    decreases |rows|
  {
    var rows' := rows[i := Row(rows[i].key, v)];
    var n := |rows| - 1;
    var init := rows[..n];
    var init' := rows'[..n];
    var k := rows[i].key;
    if i == n {
      assert init' == init;
      assert AsMap(rows') == AsMap(init)[k := v];
      assert AsMap(rows) == AsMap(init)[k := rows[i].val];
    } else {
      assert init' == init[i := Row(init[i].key, v)];
      assert UniqueKeys(init) by {
        forall a, b | 0 <= a < b < |init|
          ensures init[a].key != init[b].key
        {
          assert init[a] == rows[a] && init[b] == rows[b];
        }
      }
      AsMapUpdate(init, i, v);
      var last := rows[n];
      assert rows'[n] == last;
      assert last.key != k;
      calc {
        AsMap(rows');
        AsMap(init')[last.key := last.val];
        AsMap(init)[k := v][last.key := last.val];
        AsMap(init)[last.key := last.val][k := v];
        AsMap(rows)[k := v];
      }
    }
  }

  /** When the table meets its unique constraint before and after, the upsert
      acts on its map view exactly as `MapUpsert`. */
  lemma {:induction false} UpsertAsMap<K(!new), V, N>(pre: seq<Row<K, V>>, ns: seq<N>,
                                                     keyOf: N -> K, init: V, merge: (V, N) -> V)
    requires UniqueKeys(pre) && NoNewKeyTwice(pre, ns, keyOf)
    ensures UniqueKeys(UpsertAll(pre, ns, keyOf, init, merge))
    ensures AsMap(UpsertAll(pre, ns, keyOf, init, merge)) == MapUpsert(AsMap(pre), ns, keyOf, init, merge)
    decreases |ns|
  {
    UpsertUniqueIff(pre, ns, keyOf, init, merge);
    if ns != [] {
      var init' := ns[..|ns| - 1];
      var last := ns[|ns| - 1];
      assert NoNewKeyTwice(pre, init', keyOf) by {
        forall i, j | 0 <= i < j < |init'| && keyOf(init'[i]) == keyOf(init'[j])
          ensures HasKey(pre, keyOf(init'[i]))
        {
          assert init'[i] == ns[i] && init'[j] == ns[j];
        }
      }
      UpsertAsMap(pre, init', keyOf, init, merge);
      var rows := UpsertAll(pre, init', keyOf, init, merge);
      var m' := MapUpsert(AsMap(pre), init', keyOf, init, merge);
      var k := keyOf(last);
      match LastIndexOf(pre, k)
      case Some(i) =>
        AsMapUnique(rows, i);
        AsMapUpdate(rows, i, merge(rows[i].val, last));
      case None =>
        UpsertKeys(pre, init', keyOf, init, merge);
        forall j | 0 <= j < |init'|
          ensures keyOf(init'[j]) != k
        {
          assert init'[j] == ns[j];
        }
        assert !HasKey(rows, k);
        assert k !in m';
    }
  }

  // ---------- one key at a time ----------

  /** The value held for `k`, or `init` when there is none. */
  function Held<K(==), V>(m: map<K, V>, k: K, init: V): V {
    if k in m then m[k] else init
  }

  /** The value that `v` becomes when the incoming items carrying key `k`
      are merged into it one after another, in input order. */
  function FoldKey<K(==), V, N>(v: V, ns: seq<N>, keyOf: N -> K, k: K, merge: (V, N) -> V): V
    decreases |ns|
  {
    if ns == [] then v
    else
      var w := FoldKey(v, ns[..|ns| - 1], keyOf, k, merge);
      if keyOf(ns[|ns| - 1]) == k then merge(w, ns[|ns| - 1]) else w
  }

  /** In the map view every key evolves on its own: it starts from what the
      table held for it (or from `init`) and takes in exactly the incoming
      items that carry it. */
  lemma {:induction false} MapUpsertAt<K(!new), V, N>(m: map<K, V>, ns: seq<N>, keyOf: N -> K, init: V,
                                                     merge: (V, N) -> V, k: K)
    ensures Held(MapUpsert(m, ns, keyOf, init, merge), k, init) == FoldKey(Held(m, k, init), ns, keyOf, k, merge)
    decreases |ns|
  {
    if ns != [] {
      MapUpsertAt(m, ns[..|ns| - 1], keyOf, init, merge, k);
    }
  }

  /** A key no incoming item carries keeps its value. */
  lemma {:induction false} FoldKeyUntouched<K(!new), V, N>(v: V, ns: seq<N>, keyOf: N -> K, k: K, merge: (V, N) -> V)
    requires !Mentions(ns, keyOf, k)
    ensures FoldKey(v, ns, keyOf, k, merge) == v
    decreases |ns|
  {
    if ns != [] {
      assert forall j :: 0 <= j < |ns| - 1 ==> ns[..|ns| - 1][j] == ns[j];
      FoldKeyUntouched(v, ns[..|ns| - 1], keyOf, k, merge);
    }
  }

  /** `ns[i]` carries key `k`, writes the field (`upd`), and no later item
      carrying `k` writes it. */
  predicate LastWrite<K(==), N>(ns: seq<N>, keyOf: N -> K, k: K, upd: N -> bool, i: int) {
    && 0 <= i < |ns| && keyOf(ns[i]) == k && upd(ns[i])
    && forall j :: i < j < |ns| ==> !(keyOf(ns[j]) == k && upd(ns[j]))
  }

  /** No incoming item carrying key `k` writes the field. */
  predicate NoWrite<K(==), N>(ns: seq<N>, keyOf: N -> K, k: K, upd: N -> bool) {
    forall j :: 0 <= j < |ns| ==> !(keyOf(ns[j]) == k && upd(ns[j]))
  }

  /** A field that each merge either overwrites with the item's own value or
      leaves alone ends up holding the value of the last item that wrote it,
      or its starting value when none did. */
  lemma {:induction false} FoldField<K(!new), V, N, F>(v: V, ns: seq<N>, keyOf: N -> K, k: K, merge: (V, N) -> V,
                                                      get: V -> F, upd: N -> bool, val: N -> F)
    requires forall w, n :: get(merge(w, n)) == if upd(n) then val(n) else get(w)
    ensures NoWrite(ns, keyOf, k, upd) ==> get(FoldKey(v, ns, keyOf, k, merge)) == get(v)
    ensures forall i :: LastWrite(ns, keyOf, k, upd, i) ==> get(FoldKey(v, ns, keyOf, k, merge)) == val(ns[i])
    decreases |ns|
  {
    if ns != [] {
      var init' := ns[..|ns| - 1];
      var last := ns[|ns| - 1];
      FoldField(v, init', keyOf, k, merge, get, upd, val);
      assert forall j :: 0 <= j < |init'| ==> init'[j] == ns[j];
      forall i | LastWrite(ns, keyOf, k, upd, i)
        ensures get(FoldKey(v, ns, keyOf, k, merge)) == val(ns[i])
      {
        if i < |init'| {
          assert LastWrite(init', keyOf, k, upd, i);
        }
      }
    }
  }
}
