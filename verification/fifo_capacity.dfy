/**
 The capacity bound. The store's Set evicts at most one entry after
 inserting a new key and none after an update, so a positive `maxBytes` can
 stay exceeded while several entries remain. `SetWithinCapacity` is the
 version that keeps evicting the oldest entry until the bound holds, for
 which the bound is proved.
 */
module FifoCapacity {
  import opened Wrappers
  import opened Entries
  import opened Fifo
  import opened FifoProperties

  /** Moving one element from the front of `s[n..]` to the end of `s[..n]`. */
  lemma PrefixGrows<T>(s: seq<T>, n: nat)
    requires n < |s|
    ensures s[..n + 1] == s[..n] + [s[n..][0]]
    ensures s[n + 1..] == s[n..][1..]
  {
  }

  /** The callback log after one more eviction from the front of `s[n..]`. */
  lemma LogGrows<T>(log: seq<T>, s: seq<T>, n: nat, on: bool)
    requires n < |s|
    ensures log + (if on then s[..n] else []) + (if on then [s[n]] else [])
         == log + (if on then s[..n + 1] else [])
  {
    if on {
      assert s[..n + 1] == s[..n] + [s[n]];
    }
  }

  /** Over a positive capacity a valid store is non-empty, and one
      eviction removes its front entry through the ordinary path. */
  lemma EvictOnce<K, V>(f: Store<K, V>, size: V -> nat)
    requires Valid(f, size)
    requires Over(f)
    ensures |f.ll| > 0
    ensures var g := DelOldest(f, size);
      && Valid(g, size)
      && g.ll == f.ll[1..]
      && g.evictions == f.evictions + (if f.hasCallback then [f.ll[0]] else [])
      && g.maxBytes == f.maxBytes && g.hasCallback == f.hasCallback
  {
    assert Sum(f.ll, size) > 0;
    DelOldestEffect(f, size);
  }

  /** Evict oldest entries while a positive capacity is exceeded, each
      through the ordinary removal path; `n` is how many were evicted. What
      is evicted is a prefix of the list, logged in list order, and a store
      already within its capacity is returned unchanged. */
  method EvictUntilFits<K(==), V>(f: Store<K, V>, size: V -> nat) returns (r: Store<K, V>, n: nat)
    requires Valid(f, size)
    ensures Valid(r, size)
    ensures !Over(r)
    ensures r.maxBytes == f.maxBytes && r.hasCallback == f.hasCallback
    ensures n <= |f.ll| && r.ll == f.ll[n..]
    ensures r.evictions == f.evictions + (if f.hasCallback then f.ll[..n] else [])
    ensures forall m :: 0 <= m < n ==> f.maxBytes > 0 && Sum(f.ll[m..], size) > f.maxBytes
    ensures !Over(f) ==> r == f
  {
    r, n := f, 0;
    if !Over(f) {
      return;
    }
    while Over(r)
      invariant n <= |f.ll| && Valid(r, size)
      invariant r.maxBytes == f.maxBytes && r.hasCallback == f.hasCallback
      invariant r.ll == f.ll[n..]
      invariant r.evictions == f.evictions + (if f.hasCallback then f.ll[..n] else [])
      invariant forall m :: 0 <= m < n ==> f.maxBytes > 0 && Sum(f.ll[m..], size) > f.maxBytes
      decreases |r.ll|
    {
      EvictOnce(r, size);
      PrefixGrows(f.ll, n);
      LogGrows(f.evictions, f.ll, n, f.hasCallback);
      r, n := DelOldest(r, size), n + 1;
    }
  }

  /** `Set` as the capacity bound intends it: after either path, evict
      oldest entries while a positive capacity is exceeded; `n` is how many
      were evicted. The bound always holds afterwards, the evicted entries
      are the oldest ones, and when the key survives it is the newest entry,
      holding the new value. */
  method SetWithinCapacity<K(==), V>(f: Store<K, V>, size: V -> nat, key: K, value: V) returns (r: Store<K, V>, n: nat)
    requires Valid(f, size)
    ensures Valid(r, size)
    ensures !Over(r)
    ensures r.maxBytes == f.maxBytes && r.hasCallback == f.hasCallback
    ensures var placed := Place(f, size, key, value).ll;
      n <= |placed| && r.ll == placed[n..]
      && r.evictions == f.evictions + (if f.hasCallback then placed[..n] else [])
      && forall m :: 0 <= m < n ==> f.maxBytes > 0 && Sum(placed[m..], size) > f.maxBytes
    ensures Get(r, key).Some? ==> Get(r, key) == Some(value) && r.ll[|r.ll| - 1] == Entry(key, value)
    ensures !Over(Place(f, size, key, value)) ==> r == Set(f, size, key, value)
  {
    PlaceValid(f, size, key, value);
    var g := Place(f, size, key, value);
    r, n := EvictUntilFits(g, size);
    if Get(r, key).Some? {
      assert r.ll[|r.ll| - 1] == g.ll[|g.ll| - 1];
    }
  }

  /** A size function for the example below: a value is its own size. */
  function Bytes(v: nat): nat
  {
    v
  }

  /** The first two steps of the example below: two new keys of size 4
      fit in a capacity of 10, and nothing is evicted. */
  lemma ExampleFirstTwo()
    ensures var f := Set(Set(New<int, nat>(10, false), Bytes, 1, 4), Bytes, 2, 4);
      Indexed(f) && f.ll == [Entry(1, 4), Entry(2, 4)] && f.usedBytes == 8
        && f.maxBytes == 10 && !f.hasCallback
  {
    var f0 := New<int, nat>(10, false);
    SetInsert(f0, Bytes, 1, 4);
    var f1 := Set(f0, Bytes, 1, 4);
    assert f1.ll == [Entry(1, 4)] && f1.usedBytes == 4;
    assert 2 !in KeySet(f1.ll);
    SetInsert(f1, Bytes, 2, 4);
  }

  /** Three new keys with sizes 4, 4 and 8 under a capacity of 10: the
      store's Set evicts only the first, leaving 12 bytes in two entries,
      above the capacity. */
  lemma SetMayExceedCapacity()
    ensures var f := Set(Set(Set(New<int, nat>(10, false), Bytes, 1, 4), Bytes, 2, 4), Bytes, 3, 8);
      |f.ll| == 2 && f.usedBytes == 12 && Over(f)
  {
    ExampleFirstTwo();
    var f2 := Set(Set(New<int, nat>(10, false), Bytes, 1, 4), Bytes, 2, 4);
    assert 3 !in KeySet(f2.ll);
    SetInsert(f2, Bytes, 3, 8);
  }
}
