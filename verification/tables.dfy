/**
  A TMap as the engine stores it: the pairs live in a sparse array. Removing a pair leaves a
  hole whose index is pushed on a free list; the next new key takes the most recently freed
  hole, or goes to the end when there is none; adding an existing key replaces its value in
  place. Iterating the map (and TMap::FindKey) visits the live cells in index order, so the
  order is insertion order with holes reused.
 */
module Tables {
  import opened Prelude
  import opened Arrays

  datatype Table<K, V> = Table(cells: seq<Option<(K, V)>>, freeList: seq<nat>)

  /** Keys are unique, and the free list names distinct holes of the cell array. */
  ghost predicate Valid<K, V>(t: Table<K, V>) {
    && (forall i, j :: 0 <= i < j < |t.cells| && t.cells[i].Some? && t.cells[j].Some? ==>
          t.cells[i].value.0 != t.cells[j].value.0)
    && (forall n :: 0 <= n < |t.freeList| ==> t.freeList[n] < |t.cells| && t.cells[t.freeList[n]].None?)
    && NoDuplicates(t.freeList)
  }

  /** Cell i holds the pair (k, v). */
  ghost predicate CellIs<K, V>(t: Table<K, V>, i: int, k: K, v: V) {
    0 <= i < |t.cells| && t.cells[i] == Some((k, v))
  }

  /** The index of the live cell with key k, or -1. */
  function KeyIndex<K(==), V>(cells: seq<Option<(K, V)>>, k: K): (r: int)
    ensures -1 <= r < |cells|
    ensures r == -1 <==> forall i :: 0 <= i < |cells| && cells[i].Some? ==> cells[i].value.0 != k
    ensures 0 <= r ==> cells[r].Some? && cells[r].value.0 == k
  {
    if |cells| == 0 then -1
    else
      var rest := KeyIndex(cells[..|cells| - 1], k);
      if rest != -1 then rest
      else if cells[|cells| - 1].Some? && cells[|cells| - 1].value.0 == k then |cells| - 1
      else -1
  }

  /** The value stored under k (operator[] and Find), None when k is not a key. */
  function Get<K(==), V>(t: Table<K, V>, k: K): (r: Option<V>)
    ensures r.None? <==> KeyIndex(t.cells, k) == -1
  {
    var i := KeyIndex(t.cells, k);
    if i == -1 then None else Some(t.cells[i].value.1)
  }

  /** In a valid table, a cell's pair is exactly what Get reports for its key. */
  lemma GetFromCell<K, V>(t: Table<K, V>, i: int, k: K, v: V)
    requires Valid(t)
    requires CellIs(t, i, k, v)
    ensures KeyIndex(t.cells, k) == i
    ensures Get(t, k) == Some(v)
  {
  }

  /** Get is Some(v) exactly when some cell holds (k, v). */
  lemma GetMeansCell<K, V>(t: Table<K, V>, k: K, v: V)
    requires Valid(t)
    ensures Get(t, k) == Some(v) <==> exists i :: CellIs(t, i, k, v)
  {
    if Get(t, k) == Some(v) {
      assert CellIs(t, KeyIndex(t.cells, k), k, v);
    }
    if exists i :: CellIs(t, i, k, v) {
      var i :| CellIs(t, i, k, v);
      GetFromCell(t, i, k, v);
    }
  }

  function EmptyTable<K(!new), V>(): (r: Table<K, V>)
    ensures Valid(r)
    ensures forall k :: Get(r, k).None?
  {
    Table([], [])
  }

  /**
    TMap::Add: an existing key keeps its cell and takes the new value; a new key fills the most
    recently freed hole, or is appended when there is none. Every other key keeps its value and
    its cell.
   */
  function Add<K(==,!new), V(==,!new)>(t: Table<K, V>, k: K, v: V): (r: Table<K, V>)
    requires Valid(t)
    ensures Valid(r)
    ensures Get(r, k) == Some(v)
    ensures forall k' :: k' != k ==> Get(r, k') == Get(t, k')
    ensures forall i, k', v' :: k' != k ==> (CellIs(r, i, k', v') <==> CellIs(t, i, k', v'))
    ensures KeyIndex(t.cells, k) != -1 ==> KeyIndex(r.cells, k) == KeyIndex(t.cells, k)
    ensures KeyIndex(t.cells, k) == -1 && |t.freeList| > 0 ==> KeyIndex(r.cells, k) == t.freeList[0]
    ensures KeyIndex(t.cells, k) == -1 && |t.freeList| == 0 ==> KeyIndex(r.cells, k) == |t.cells|
    ensures r.freeList == if KeyIndex(t.cells, k) == -1 && |t.freeList| > 0 then t.freeList[1..] else t.freeList
  {
    var i := KeyIndex(t.cells, k);
    var r :=
      if i != -1 then Table(t.cells[i := Some((k, v))], t.freeList)
      else if |t.freeList| > 0 then Table(t.cells[t.freeList[0] := Some((k, v))], t.freeList[1..])
      else Table(t.cells + [Some((k, v))], t.freeList);
    var j := if i != -1 then i else if |t.freeList| > 0 then t.freeList[0] else |t.cells|;
    assert CellIs(r, j, k, v);
    assert Valid(r) by {
      if i == -1 && |t.freeList| > 0 {
        forall n | 0 <= n < |r.freeList|
          ensures r.freeList[n] < |r.cells| && r.cells[r.freeList[n]].None?
        {
          assert r.freeList[n] == t.freeList[n + 1] != t.freeList[0];
        }
      }
    }
    GetFromCell(r, j, k, v);
    forall k' | k' != k
      ensures Get(r, k') == Get(t, k')
    {
      if Get(t, k').Some? {
        GetFromCell(r, KeyIndex(t.cells, k'), k', Get(t, k').value);
      }
      if Get(r, k').Some? {
        GetFromCell(t, KeyIndex(r.cells, k'), k', Get(r, k').value);
      }
    }
    r
  }

  /** Two distinct keys added to a new map occupy the first two cells, in the order they were added. */
  lemma AddTwoToEmpty<K(!new), V(!new)>(k1: K, k2: K, v1: V, v2: V)
    requires k1 != k2
    ensures Add(Add(EmptyTable(), k1, v1), k2, v2) == Table([Some((k1, v1)), Some((k2, v2))], [])
  {
    var t0: Table<K, V> := EmptyTable();
    assert KeyIndex(t0.cells, k1) == -1;
    var t1 := Table([Some((k1, v1))], []);
    assert Add(t0, k1, v1) == t1;
    assert KeyIndex(t1.cells, k2) == -1 by {
      assert KeyIndex(t1.cells[..0], k2) == -1;
    }
  }

  /**
    TMap::Remove: the key's cell becomes a hole pushed on the front of the free list; no other
    cell changes and the rest of the free list is kept, so holes are reused last in, first out.
   */
  function Remove<K(==,!new), V(==,!new)>(t: Table<K, V>, k: K): (r: Table<K, V>)
    requires Valid(t)
    ensures Valid(r)
    ensures Get(r, k).None?
    ensures forall k' :: k' != k ==> Get(r, k') == Get(t, k')
    ensures forall i, k', v' :: k' != k ==> (CellIs(r, i, k', v') <==> CellIs(t, i, k', v'))
    ensures Get(t, k).None? ==> r == t
    ensures Get(t, k).Some? ==> r.freeList == [KeyIndex(t.cells, k)] + t.freeList
  {
    var i := KeyIndex(t.cells, k);
    if i == -1 then t
    else
      var r := Table(t.cells[i := None], [i] + t.freeList);
      assert Valid(r) by {
        forall n | 0 <= n < |r.freeList|
          ensures r.freeList[n] < |r.cells| && r.cells[r.freeList[n]].None?
        {
          if n > 0 {
            assert r.freeList[n] == t.freeList[n - 1];
          }
        }
        assert i !in t.freeList;
        forall a, b | 0 <= a < b < |r.freeList|
          ensures r.freeList[a] != r.freeList[b]
        {
          if a > 0 {
            assert r.freeList[a] == t.freeList[a - 1];
          }
          assert r.freeList[b] == t.freeList[b - 1];
        }
      }
      forall k' | k' != k
        ensures Get(r, k') == Get(t, k')
      {
        if Get(t, k').Some? {
          GetFromCell(r, KeyIndex(t.cells, k'), k', Get(t, k').value);
        }
        if Get(r, k').Some? {
          GetFromCell(t, KeyIndex(r.cells, k'), k', Get(r, k').value);
        }
      }
      r
  }

  /** The index of the first live cell whose value is v, or -1. */
  function ValueIndex<K, V(==)>(cells: seq<Option<(K, V)>>, v: V): (r: int)
    ensures -1 <= r < |cells|
    ensures r == -1 <==> forall i :: 0 <= i < |cells| && cells[i].Some? ==> cells[i].value.1 != v
    ensures 0 <= r ==> cells[r].Some? && cells[r].value.1 == v
    ensures 0 <= r ==> forall i :: 0 <= i < r && cells[i].Some? ==> cells[i].value.1 != v
  {
    if |cells| == 0 then -1
    else if cells[0].Some? && cells[0].value.1 == v then 0
    else
      var rest := ValueIndex(cells[1..], v);
      if rest == -1 then -1 else rest + 1
  }

  /**
    TMap::FindKey, and equally the first match of a ranged-for over the pairs: the key of the
    first cell, in iteration order, whose value is v; None when no key maps to v.
   */
  function FindKey<K(==,!new), V(==)>(t: Table<K, V>, v: V): (r: Option<K>)
    requires Valid(t)
    ensures r.None? <==> forall k :: Get(t, k) != Some(v)
    ensures r.Some? ==> Get(t, r.value) == Some(v)
    ensures r.Some? ==> forall i, k :: CellIs(t, i, k, v) ==> KeyIndex(t.cells, r.value) <= i
  {
    var i := ValueIndex(t.cells, v);
    if i == -1 then
      forall k | Get(t, k) == Some(v)
        ensures false
      {
        GetMeansCell(t, k, v);
      }
      None
    else
      var k := t.cells[i].value.0;
      GetFromCell(t, i, k, v);
      Some(k)
  }

  /** The keys that map to v. */
  ghost function KeysOf<K, V>(t: Table<K, V>, v: V): set<K> {
    set i | 0 <= i < |t.cells| && t.cells[i].Some? && t.cells[i].value.1 == v :: t.cells[i].value.0
  }

  lemma KeysOfIsGet<K, V>(t: Table<K, V>, v: V)
    requires Valid(t)
    ensures forall k :: k in KeysOf(t, v) <==> Get(t, k) == Some(v)
  {
    forall k
      ensures k in KeysOf(t, v) <==> Get(t, k) == Some(v)
    {
      GetMeansCell(t, k, v);
      if k in KeysOf(t, v) {
        var i :| 0 <= i < |t.cells| && t.cells[i].Some? && t.cells[i].value.1 == v && t.cells[i].value.0 == k;
        assert CellIs(t, i, k, v);
      }
    }
  }
}
