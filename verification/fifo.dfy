/**
 A byte-bounded key/value store that evicts in insertion order (fifo/fifo.go).

 The list `ll` fixes the eviction order (front = oldest, back = newest), the
 map `cache` is the key index, `usedBytes` the running total of value sizes
 (keys are not counted) and `maxBytes` the capacity, where a value that is not
 positive means "no limit". The eviction callback is modelled by the flag
 `hasCallback` and by `evictions`, the pairs it has been handed so far, in order.
 The size of a value (the external `cache.CalcLen`) is the parameter
 `size` of every operation that changes the store.
 */
module Fifo {
  import opened Wrappers
  import opened Entries

  datatype Store<K(==), V> = Store(
    maxBytes: int,
    hasCallback: bool,
    usedBytes: int,
    ll: seq<Entry<K, V>>,
    cache: map<K, V>,
    evictions: seq<Entry<K, V>>)

  /** List and index agree: keys are distinct, the index covers exactly the
      listed keys, and each indexed key leads to the value of its entry. */
  ghost predicate Indexed<K, V>(f: Store<K, V>)
  {
    && DistinctKeys(f.ll)
    && f.cache.Keys == KeySet(f.ll)
    && forall i :: 0 <= i < |f.ll| ==> f.cache[f.ll[i].key] == f.ll[i].value
  }

  /** Unlinking the entry at `i` and dropping its key from the index keeps
      list and index in agreement. */
  lemma IndexedRemoveAt<K, V>(f: Store<K, V>, i: nat)
    requires i < |f.ll|
    ensures Indexed(f) ==> Indexed(f.(ll := RemoveAt(f.ll, i), cache := f.cache - {f.ll[i].key}))
  {
    if !Indexed(f) {
      return;
    }
    RemoveAtKeys(f.ll, i);
    var s := RemoveAt(f.ll, i);
    forall j | 0 <= j < |s|
      ensures s[j].key != f.ll[i].key && f.cache[s[j].key] == s[j].value
    {
      var j' := if j < i then j else j + 1;
      assert s[j] == f.ll[j'];
    }
  }

  /** Appending an entry whose key is not indexed, and indexing it, keeps
      list and index in agreement. */
  lemma IndexedAppend<K, V>(f: Store<K, V>, e: Entry<K, V>)
    requires e.key !in f.cache
    ensures Indexed(f) ==> Indexed(f.(ll := f.ll + [e], cache := f.cache[e.key := e.value]))
  {
    if !Indexed(f) {
      return;
    }
    AppendKeys(f.ll, e);
    var s := f.ll + [e];
    forall j | 0 <= j < |s|
      ensures f.cache[e.key := e.value][s[j].key] == s[j].value
    {
      if j < |f.ll| {
        assert s[j] == f.ll[j];
      }
    }
  }

  /** The full representation invariant: `Indexed` plus exact byte accounting. */
  ghost predicate Valid<K, V>(f: Store<K, V>, size: V -> nat)
  {
    Indexed(f) && f.usedBytes == Sum(f.ll, size)
  }

  /** An empty store with capacity `maxBytes` (not positive: no limit). */
  function New<K(==), V>(maxBytes: int, hasCallback: bool): (r: Store<K, V>)
    ensures Indexed(r)
    ensures |r.ll| == 0 && r.usedBytes == 0 && r.evictions == []
    ensures r.maxBytes == maxBytes && r.hasCallback == hasCallback
  {
    Store(maxBytes, hasCallback, 0, [], map[], [])
  }

  /** Under list/index agreement the index holds one key per entry. */
  lemma IndexCountsEntries<K, V>(f: Store<K, V>)
    ensures Indexed(f) ==> |f.ll| == |f.cache|
  {
    if Indexed(f) {
      KeySetSize(f.ll);
      assert |f.cache| == |f.cache.Keys|;
    }
  }

  /** Number of live entries: the length of the list, which is also the
      number of indexed keys. */
  function Len<K(==), V>(f: Store<K, V>): (n: nat)
    ensures Indexed(f) ==> n == |f.cache|
  {
    IndexCountsEntries(f);
    |f.ll|
  }

  /** The capacity test of Set: a positive capacity is exceeded. */
  predicate Over<K(==), V>(f: Store<K, V>)
  {
    f.maxBytes > 0 && f.usedBytes > f.maxBytes
  }

  /** The front (oldest) element of the list, or nothing when it is empty. */
  function Front<K(==), V>(f: Store<K, V>): (e: Option<nat>)
    ensures e.Some? ==> e.value < |f.ll|
  {
    if |f.ll| == 0 then None else Some(0)
  }

  /** The shared removal path: unlink element `e` from the list, subtract its
      size, drop its key from the index and hand the pair to the callback.
      A missing element (`None`, a nil element in Go) is ignored. */
  function RemoveElement<K(==), V>(f: Store<K, V>, size: V -> nat, e: Option<nat>): (r: Store<K, V>)
    requires e.Some? ==> e.value < |f.ll|
    ensures e.None? ==> r == f
    ensures e.Some? ==> |r.ll| == |f.ll| - 1 && f.ll[e.value].key !in r.cache
    ensures Indexed(f) ==> Indexed(r)
    ensures r.maxBytes == f.maxBytes && r.hasCallback == f.hasCallback
  {
    match e
    case None => f
    case Some(i) =>
      var en := f.ll[i];
      IndexedRemoveAt(f, i);
      f.(ll := RemoveAt(f.ll, i),
         usedBytes := f.usedBytes - size(en.value),
         cache := f.cache - {en.key},
         evictions := if f.hasCallback then f.evictions + [en] else f.evictions)
  }

  /** Remove the oldest entry; a no-op on an empty store. */
  function DelOldest<K(==), V>(f: Store<K, V>, size: V -> nat): (r: Store<K, V>)
    ensures |f.ll| == 0 ==> r == f
    ensures |f.ll| > 0 ==> r.ll == f.ll[1..]
    ensures Indexed(f) ==> Indexed(r)
    ensures r.maxBytes == f.maxBytes && r.hasCallback == f.hasCallback
  {
    RemoveElement(f, size, Front(f))
  }

  /** Remove the entry for `key`; a no-op when the key is absent. */
  function Del<K(==), V>(f: Store<K, V>, size: V -> nat, key: K): (r: Store<K, V>)
    ensures key !in f.cache ==> r == f
    ensures Indexed(f) ==> Indexed(r) && key !in r.cache
    ensures Indexed(f) && key in f.cache ==> |r.ll| == |f.ll| - 1
    ensures r.maxBytes == f.maxBytes && r.hasCallback == f.hasCallback
  {
    if key in f.cache then
      PositionFindsKeySet(f.ll, key);
      RemoveElement(f, size, Position(f.ll, key))
    else
      f
  }

  /** The value stored under `key`, read through the index; the order is untouched. */
  function Get<K(==), V>(f: Store<K, V>, key: K): (r: Option<V>)
    ensures Indexed(f) ==> (r.None? <==> key !in KeySet(f.ll))
    ensures Indexed(f) ==> forall i :: 0 <= i < |f.ll| && f.ll[i].key == key ==> r == Some(f.ll[i].value)
  {
    if key in f.cache then Some(f.cache[key]) else None
  }

  /** What the Go `Get` hands its caller: the stored value, or `nil` when absent. */
  function GetOrNil<K(==), V>(f: Store<K, V>, key: K, nil: V): (r: V)
    ensures Indexed(f) && key !in KeySet(f.ll) ==> r == nil
    ensures Indexed(f) ==> forall i :: 0 <= i < |f.ll| && f.ll[i].key == key ==> r == f.ll[i].value
  {
    Get(f, key).GetOr(nil)
  }

  /** The update path of Set: the element at `i` moves to the back of the
      list with its new value, and the size difference is applied. The index
      keeps the key and reaches the new value. */
  function MoveToBack<K(==), V>(f: Store<K, V>, size: V -> nat, i: nat, value: V): (r: Store<K, V>)
    requires Indexed(f) && i < |f.ll|
    ensures Indexed(r)
    ensures |r.ll| == |f.ll| && r.cache.Keys == f.cache.Keys
    ensures r.ll[|r.ll| - 1] == Entry(f.ll[i].key, value) && Get(r, f.ll[i].key) == Some(value)
    ensures r.evictions == f.evictions
    ensures r.maxBytes == f.maxBytes && r.hasCallback == f.hasCallback
  {
    var key := f.ll[i].key;
    IndexedRemoveAt(f, i);
    IndexedAppend(f.(ll := RemoveAt(f.ll, i), cache := f.cache - {key}), Entry(key, value));
    assert (f.cache - {key})[key := value] == f.cache[key := value];
    f.(ll := RemoveAt(f.ll, i) + [Entry(key, value)],
       usedBytes := f.usedBytes - size(f.ll[i].value) + size(value),
       cache := f.cache[key := value])
  }

  /** The insert path of Set before the capacity test: a new key is appended
      at the back of the list and indexed, and its size is added. */
  function PushBack<K(==), V>(f: Store<K, V>, size: V -> nat, key: K, value: V): (r: Store<K, V>)
    requires Indexed(f) && key !in f.cache
    ensures Indexed(r)
    ensures |r.ll| == |f.ll| + 1 && r.cache.Keys == f.cache.Keys + {key}
    ensures r.ll[|r.ll| - 1] == Entry(key, value) && Get(r, key) == Some(value)
    ensures r.evictions == f.evictions
    ensures r.maxBytes == f.maxBytes && r.hasCallback == f.hasCallback
  {
    IndexedAppend(f, Entry(key, value));
    f.(ll := f.ll + [Entry(key, value)],
       cache := f.cache[key := value],
       usedBytes := f.usedBytes + size(value))
  }

  /** The part of Set before the capacity test: an existing key is moved to
      the back with its new value, a new key is appended at the back. */
  function Place<K(==), V>(f: Store<K, V>, size: V -> nat, key: K, value: V): (r: Store<K, V>)
    requires Indexed(f)
    ensures Indexed(r)
    ensures Get(r, key) == Some(value)
    ensures key in f.cache ==> |r.ll| == |f.ll|
    ensures key !in f.cache ==> |r.ll| == |f.ll| + 1
    ensures r.ll[|r.ll| - 1] == Entry(key, value)
    ensures r.evictions == f.evictions
    ensures r.maxBytes == f.maxBytes && r.hasCallback == f.hasCallback
  {
    if key in f.cache then
      PositionFindsKeySet(f.ll, key);
      MoveToBack(f, size, Position(f.ll, key).value, value)
    else
      PushBack(f, size, key, value)
  }

  /** Store `value` under `key`. Updating an existing key never evicts; a new
      key evicts the oldest entry once if the capacity is then exceeded. */
  function Set<K(==), V>(f: Store<K, V>, size: V -> nat, key: K, value: V): (r: Store<K, V>)
    requires Indexed(f)
    ensures Indexed(r)
    ensures key in f.cache ==> |r.ll| == |f.ll| && r.evictions == f.evictions && Get(r, key) == Some(value)
    ensures key !in f.cache ==> |f.ll| <= |r.ll| <= |f.ll| + 1
    ensures |f.evictions| <= |r.evictions| <= |f.evictions| + 1
    ensures r.maxBytes == f.maxBytes && r.hasCallback == f.hasCallback
  {
    var g := Place(f, size, key, value);
    if key !in f.cache && Over(g) then
      DelOldest(g, size)
    else
      g
  }
}
