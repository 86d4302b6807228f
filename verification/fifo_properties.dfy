/**
 Properties of the FIFO store: every operation keeps list, index and byte
 count consistent, and each operation changes exactly what the store's
 contract says and nothing else.
 */
module FifoProperties {
  import opened Wrappers
  import opened Entries
  import opened Fifo

  /** `a` is what remains of `b` after dropping some of its oldest elements. */
  ghost predicate IsSuffix<T>(a: seq<T>, b: seq<T>)
  {
    |a| <= |b| && a == b[|b| - |a|..]
  }

  /** A new store is consistent and accounts for zero bytes. */
  lemma NewValid<K, V>(maxBytes: int, hasCallback: bool, size: V -> nat)
    ensures Valid(New<K, V>(maxBytes, hasCallback), size)
  {
  }

  /** The removal path deletes exactly the entry at `i`, keeps the others in
      order, subtracts its size and logs it once when a callback is set. */
  lemma RemoveElementEffect<K, V>(f: Store<K, V>, size: V -> nat, i: nat)
    requires Valid(f, size)
    requires i < |f.ll|
    ensures var r := RemoveElement(f, size, Some(i));
      && Valid(r, size)
      && r.ll == Without(f.ll, f.ll[i].key)
      && r.usedBytes == f.usedBytes - size(f.ll[i].value)
      && r.evictions == f.evictions + (if f.hasCallback then [f.ll[i]] else [])
      && Get(r, f.ll[i].key) == None
      && (forall k :: k != f.ll[i].key ==> Get(r, k) == Get(f, k))
  {
    var key := f.ll[i].key;
    var r := RemoveElement(f, size, Some(i));
    assert r.ll == RemoveAt(f.ll, i) && r.cache == f.cache - {key};
    SumRemoveAt(f.ll, i, size);
    RemoveAtIsWithout(f.ll, i);
    forall k | k != key
      ensures Get(r, k) == Get(f, k)
    {
    }
  }

  /** `DelOldest` on a non-empty store removes the front entry only, logs it
      once, and leaves every other key's value in place. */
  lemma DelOldestEffect<K, V>(f: Store<K, V>, size: V -> nat)
    requires Valid(f, size)
    requires |f.ll| > 0
    ensures var r := DelOldest(f, size);
      && Valid(r, size)
      && r.usedBytes == f.usedBytes - size(f.ll[0].value)
      && r.evictions == f.evictions + (if f.hasCallback then [f.ll[0]] else [])
      && Get(r, f.ll[0].key) == None
      && (forall k :: k != f.ll[0].key ==> Get(r, k) == Get(f, k))
  {
    RemoveElementEffect(f, size, 0);
  }

  /** `DelOldest` keeps the accounting invariant, on empty and non-empty stores. */
  lemma DelOldestValid<K, V>(f: Store<K, V>, size: V -> nat)
    requires Valid(f, size)
    ensures Valid(DelOldest(f, size), size)
  {
    if |f.ll| > 0 {
      DelOldestEffect(f, size);
    }
  }

  /** `Del` of a present key removes exactly that entry, keeps the others in
      order, subtracts its size, logs the pair once and leaves other keys alone. */
  lemma DelPresent<K, V>(f: Store<K, V>, size: V -> nat, key: K)
    requires Valid(f, size)
    requires key in f.cache
    ensures var r := Del(f, size, key);
      && Valid(r, size)
      && r.ll == Without(f.ll, key)
      && r.usedBytes == f.usedBytes - size(f.cache[key])
      && r.evictions == f.evictions + (if f.hasCallback then [Entry(key, f.cache[key])] else [])
      && Get(r, key) == None
      && (forall k :: k != key ==> Get(r, k) == Get(f, k))
  {
    PositionFindsKeySet(f.ll, key);
    var i := Position(f.ll, key).value;
    RemoveElementEffect(f, size, i);
  }

  /** `Del` keeps the accounting invariant, whether or not the key is present. */
  lemma DelValid<K, V>(f: Store<K, V>, size: V -> nat, key: K)
    requires Valid(f, size)
    ensures Valid(Del(f, size, key), size)
  {
    if key in f.cache {
      DelPresent(f, size, key);
    }
  }

  /** `Set` on an existing key moves it to the back with the new value,
      keeps the other entries in order, adjusts the byte count by the size
      difference and neither evicts nor calls back. */
  lemma SetUpdate<K, V>(f: Store<K, V>, size: V -> nat, key: K, value: V)
    requires Indexed(f)
    requires key in f.cache
    ensures var r := Set(f, size, key, value);
      && r.ll == Without(f.ll, key) + [Entry(key, value)]
      && r.usedBytes == f.usedBytes - size(f.cache[key]) + size(value)
      && r.evictions == f.evictions
      && Get(r, key) == Some(value)
      && (forall k :: k != key ==> Get(r, k) == Get(f, k))
  {
    PositionFindsKeySet(f.ll, key);
    var i := Position(f.ll, key).value;
    RemoveAtIsWithout(f.ll, i);
  }

  /** `Set` on a new key appends it at the back; when the capacity is positive
      and now exceeded, exactly one entry, the front, is then removed and
      logged; otherwise nothing is removed. */
  lemma SetInsert<K, V>(f: Store<K, V>, size: V -> nat, key: K, value: V)
    requires Indexed(f)
    requires key !in f.cache
    ensures var r := Set(f, size, key, value);
      var grown := f.ll + [Entry(key, value)];
      var over := f.maxBytes > 0 && f.usedBytes + size(value) > f.maxBytes;
      && (!over ==> r.ll == grown && r.evictions == f.evictions
                    && r.usedBytes == f.usedBytes + size(value))
      && (over ==> r.ll == grown[1..]
                   && r.evictions == f.evictions + (if f.hasCallback then [grown[0]] else [])
                   && r.usedBytes == f.usedBytes + size(value) - size(grown[0].value))
  {
    var grown := f.ll + [Entry(key, value)];
    var g := Place(f, size, key, value);
    assert g == PushBack(f, size, key, value);
    assert g.ll == grown && g.usedBytes == f.usedBytes + size(value);
    if Over(g) {
      assert RemoveAt(grown, 0) == grown[1..];
      assert Set(f, size, key, value) == RemoveElement(g, size, Some(0));
    } else {
      assert Set(f, size, key, value) == g;
    }
  }

  /** The part of `Set` before the capacity test keeps the accounting invariant. */
  lemma PlaceValid<K, V>(f: Store<K, V>, size: V -> nat, key: K, value: V)
    requires Valid(f, size)
    ensures Valid(Place(f, size, key, value), size)
  {
    PositionFindsKeySet(f.ll, key);
    if key in f.cache {
      var i := Position(f.ll, key).value;
      SumRemoveAt(f.ll, i, size);
      SumAppend(RemoveAt(f.ll, i), Entry(key, value), size);
    } else {
      SumAppend(f.ll, Entry(key, value), size);
    }
  }

  /** `Set` keeps the accounting invariant on both paths. */
  lemma SetValid<K, V>(f: Store<K, V>, size: V -> nat, key: K, value: V)
    requires Valid(f, size)
    ensures Valid(Set(f, size, key, value), size)
  {
    PlaceValid(f, size, key, value);
    DelOldestValid(Place(f, size, key, value), size);
  }

  /** With no capacity limit, `Set` never evicts: the value is stored, the
      count grows by one for a new key, other keys are untouched and the
      callback log is unchanged. */
  lemma SetUnbounded<K, V>(f: Store<K, V>, size: V -> nat, key: K, value: V)
    requires Indexed(f)
    requires f.maxBytes <= 0
    ensures var r := Set(f, size, key, value);
      && r.evictions == f.evictions
      && Get(r, key) == Some(value)
      && |r.ll| == |f.ll| + (if key in f.cache then 0 else 1)
      && (forall k :: k != key ==> Get(r, k) == Get(f, k))
  {
    if key in f.cache {
      SetUpdate(f, size, key, value);
    }
  }

  /** Into an empty store, a value larger than a positive capacity is
      evicted at once: the store stays empty and the new pair is logged. */
  lemma SetLoneOversized<K, V>(f: Store<K, V>, size: V -> nat, key: K, value: V)
    requires Valid(f, size)
    requires |f.ll| == 0
    requires 0 < f.maxBytes < size(value)
    ensures var r := Set(f, size, key, value);
      && |r.ll| == 0
      && r.usedBytes == 0
      && Get(r, key) == None
      && r.evictions == f.evictions + (if f.hasCallback then [Entry(key, value)] else [])
  {
    SetInsert(f, size, key, value);
  }

  /** Insertion order is kept: apart from `key` itself, the entries after
      `Set` are the entries before it, less possibly some of the oldest. */
  lemma SetKeepsOrder<K, V>(f: Store<K, V>, size: V -> nat, key: K, value: V)
    requires Indexed(f)
    ensures IsSuffix(Without(Set(f, size, key, value).ll, key), Without(f.ll, key))
  {
    if key in f.cache {
      SetKeepsOrderUpdate(f, size, key, value);
    } else {
      SetKeepsOrderInsert(f, size, key, value);
    }
  }

  lemma SetKeepsOrderUpdate<K, V>(f: Store<K, V>, size: V -> nat, key: K, value: V)
    requires Indexed(f)
    requires key in f.cache
    ensures Without(Set(f, size, key, value).ll, key) == Without(f.ll, key)
  {
    var e := Entry(key, value);
    var rest := Without(f.ll, key);
    SetUpdate(f, size, key, value);
    WithoutConcat(rest, [e], key);
    WithoutAbsent(rest, key);
    assert Without([e], key) == [];
  }

  lemma SetKeepsOrderInsert<K, V>(f: Store<K, V>, size: V -> nat, key: K, value: V)
    requires Indexed(f)
    requires key !in f.cache
    ensures IsSuffix(Without(Set(f, size, key, value).ll, key), f.ll)
    ensures Without(f.ll, key) == f.ll
  {
    SetInsert(f, size, key, value);
    assert forall j :: 0 <= j < |f.ll| ==> f.ll[j].key != key;
    WithoutAbsent(f.ll, key);
    AppendedSuffix(f.ll, Entry(key, value), Set(f, size, key, value).ll);
  }

  /** After appending an entry with a fresh key, and possibly dropping the
      front entry, dropping that key again leaves a suffix of the original. */
  lemma AppendedSuffix<K, V>(s: seq<Entry<K, V>>, e: Entry<K, V>, t: seq<Entry<K, V>>)
    requires forall j :: 0 <= j < |s| ==> s[j].key != e.key
    requires t == s + [e] || t == (s + [e])[1..]
    ensures IsSuffix(Without(t, e.key), s)
  {
    assert Without([e], e.key) == [];
    if t == s + [e] {
      WithoutConcat(s, [e], e.key);
      WithoutAbsent(s, e.key);
    } else if |s| > 0 {
      assert t == s[1..] + [e];
      WithoutAbsent(s[1..], e.key);
      WithoutConcat(s[1..], [e], e.key);
    } else {
      assert t == [];
    }
  }

  /** The Go `Get` cannot tell a stored `nil` from an absent key, although
      the two stores differ. */
  lemma NilIsAmbiguous<K, V>(f: Store<K, V>, i: nat, absent: K, nil: V)
    requires Indexed(f)
    requires i < |f.ll| && f.ll[i].value == nil
    requires absent !in KeySet(f.ll)
    ensures GetOrNil(f, f.ll[i].key, nil) == GetOrNil(f, absent, nil)
    ensures Get(f, f.ll[i].key) == Some(nil) && Get(f, absent) == None
  {
  }
}
