/**
 The ordered list of a FIFO store, seen as a sequence of entries (front = oldest),
 together with the facts about sequences of entries that the store's proofs need:
 the set of keys, key distinctness, the byte sum of the values, removal at a
 position and removal by key.
 */
module Entries {
  import opened Wrappers

  /** The payload of one list element: a key and the value stored under it. */
  datatype Entry<K, V> = Entry(key: K, value: V)

  /** The keys occurring in `s`. */
  ghost function KeySet<K, V>(s: seq<Entry<K, V>>): set<K>
  {
    set i | 0 <= i < |s| :: s[i].key
  }

  /** No key occurs twice in `s`. */
  ghost predicate DistinctKeys<K, V>(s: seq<Entry<K, V>>)
  {
    forall i, j :: 0 <= i < j < |s| ==> s[i].key != s[j].key
  }

  /** Summed byte size of the values in `s`; keys are not counted. */
  function Sum<K, V>(s: seq<Entry<K, V>>, size: V -> nat): nat
  {
    if |s| == 0 then 0 else size(s[0].value) + Sum(s[1..], size)
  }

  /** `s` with the element at position `i` unlinked; the others keep their order. */
  function RemoveAt<T>(s: seq<T>, i: nat): (r: seq<T>)
    requires i < |s|
    ensures |r| == |s| - 1
    ensures forall j :: 0 <= j < i ==> r[j] == s[j]
    ensures forall j :: i <= j < |r| ==> r[j] == s[j + 1]
  {
    s[..i] + s[i + 1..]
  }

  /** The position of the first entry whose key is `k`, if any. */
  function Position<K(==), V>(s: seq<Entry<K, V>>, k: K): (r: Option<nat>)
    ensures r.Some? ==> r.value < |s| && s[r.value].key == k
    ensures r.Some? ==> forall j :: 0 <= j < r.value ==> s[j].key != k
    ensures r.None? ==> forall j :: 0 <= j < |s| ==> s[j].key != k
  {
    if |s| == 0 then None
    else if s[0].key == k then Some(0)
    else match Position(s[1..], k)
      case Some(i) => Some(i + 1)
      case None => None
  }

  /** Reference definition of deletion by key: every entry whose key is `k` is dropped. */
  function Without<K(==), V>(s: seq<Entry<K, V>>, k: K): (r: seq<Entry<K, V>>)
    ensures forall j :: 0 <= j < |r| ==> r[j].key != k
    ensures |r| <= |s|
  {
    if |s| == 0 then []
    else if s[0].key == k then Without(s[1..], k)
    else [s[0]] + Without(s[1..], k)
  }

  /** A key is in `KeySet(s)` exactly when `Position` finds it. */
  lemma PositionFindsKeySet<K, V>(s: seq<Entry<K, V>>, k: K)
    ensures k in KeySet(s) <==> Position(s, k).Some?
  {
    if Position(s, k).Some? {
      assert s[Position(s, k).value].key == k;
    }
  }

  /** Dropping a key that does not occur changes nothing. */
  lemma {:induction false} WithoutAbsent<K, V>(s: seq<Entry<K, V>>, k: K)
    requires forall j :: 0 <= j < |s| ==> s[j].key != k
    ensures Without(s, k) == s
  {
    if |s| > 0 {
      assert s[0].key != k;
      WithoutAbsent(s[1..], k);
      assert s == [s[0]] + s[1..];
    }
  }

  /** Deletion by key distributes over concatenation. */
  lemma {:induction false} WithoutConcat<K, V>(a: seq<Entry<K, V>>, b: seq<Entry<K, V>>, k: K)
    ensures Without(a + b, k) == Without(a, k) + Without(b, k)
  {
    if |a| == 0 {
      assert a + b == b;
    } else {
      assert (a + b)[0] == a[0];
      assert (a + b)[1..] == a[1..] + b;
      WithoutConcat(a[1..], b, k);
    }
  }

  /** Unlinking the element that holds key `s[i].key` is deletion by that key. */
  lemma {:induction false} RemoveAtIsWithout<K, V>(s: seq<Entry<K, V>>, i: nat)
    requires DistinctKeys(s)
    requires i < |s|
    ensures RemoveAt(s, i) == Without(s, s[i].key)
  {
    var k := s[i].key;
    if i == 0 {
      WithoutAbsent(s[1..], k);
      assert RemoveAt(s, 0) == s[1..];
    } else {
      assert s[0].key != k;
      assert s[1..][i - 1] == s[i];
      RemoveAtIsWithout(s[1..], i - 1);
      assert RemoveAt(s, i) == [s[0]] + RemoveAt(s[1..], i - 1);
    }
  }

  /** The byte sum is additive over concatenation. */
  lemma {:induction false} SumConcat<K, V>(a: seq<Entry<K, V>>, b: seq<Entry<K, V>>, size: V -> nat)
    ensures Sum(a + b, size) == Sum(a, size) + Sum(b, size)
  {
    if |a| == 0 {
      assert a + b == b;
    } else {
      assert (a + b)[0] == a[0];
      assert (a + b)[1..] == a[1..] + b;
      SumConcat(a[1..], b, size);
    }
  }

  /** Appending an entry adds exactly its value's size. */
  lemma SumAppend<K, V>(s: seq<Entry<K, V>>, e: Entry<K, V>, size: V -> nat)
    ensures Sum(s + [e], size) == Sum(s, size) + size(e.value)
  {
    SumConcat(s, [e], size);
  }

  /** Unlinking an entry subtracts exactly its value's size. */
  lemma {:induction false} SumRemoveAt<K, V>(s: seq<Entry<K, V>>, i: nat, size: V -> nat)
    requires i < |s|
    ensures Sum(RemoveAt(s, i), size) == Sum(s, size) - size(s[i].value)
  {
    var t := RemoveAt(s, i);
    if i == 0 {
      assert t == s[1..];
    } else {
      SumRemoveAt(s[1..], i - 1, size);
      assert t[0] == s[0];
      assert t[1..] == RemoveAt(s[1..], i - 1);
    }
  }

  /** Unlinking one entry keeps keys distinct and removes exactly its key. */
  lemma RemoveAtKeys<K, V>(s: seq<Entry<K, V>>, i: nat)
    requires i < |s|
    ensures DistinctKeys(s) ==> DistinctKeys(RemoveAt(s, i))
    ensures DistinctKeys(s) ==> KeySet(RemoveAt(s, i)) == KeySet(s) - {s[i].key}
  {
    if !DistinctKeys(s) {
      return;
    }
    var r := RemoveAt(s, i);
    forall a, b | 0 <= a < b < |r|
      ensures r[a].key != r[b].key
    {
      var a' := if a < i then a else a + 1;
      var b' := if b < i then b else b + 1;
      assert r[a] == s[a'] && r[b] == s[b'];
    }
    forall k | k in KeySet(s) - {s[i].key}
      ensures k in KeySet(r)
    {
      var j :| 0 <= j < |s| && s[j].key == k;
      if j < i {
        assert r[j] == s[j];
      } else {
        assert r[j - 1] == s[j];
      }
    }
    forall k | k in KeySet(r)
      ensures k in KeySet(s) - {s[i].key}
    {
      var j :| 0 <= j < |r| && r[j].key == k;
      var j' := if j < i then j else j + 1;
      assert r[j] == s[j'];
    }
  }

  /** Appending an entry with a fresh key keeps keys distinct and adds its key. */
  lemma AppendKeys<K, V>(s: seq<Entry<K, V>>, e: Entry<K, V>)
    requires DistinctKeys(s)
    requires e.key !in KeySet(s)
    ensures DistinctKeys(s + [e])
    ensures KeySet(s + [e]) == KeySet(s) + {e.key}
  {
    var r := s + [e];
    forall a, b | 0 <= a < b < |r|
      ensures r[a].key != r[b].key
    {
      if b == |s| {
        assert r[a] == s[a];
      } else {
        assert r[a] == s[a] && r[b] == s[b];
      }
    }
    forall k | k in KeySet(s)
      ensures k in KeySet(r)
    {
      var j :| 0 <= j < |s| && s[j].key == k;
      assert r[j] == s[j];
    }
    assert r[|s|] == e;
  }

  /** With distinct keys, there are exactly as many keys as entries. */
  lemma {:induction false} KeySetSize<K, V>(s: seq<Entry<K, V>>)
    requires DistinctKeys(s)
    ensures |KeySet(s)| == |s|
  {
    if |s| > 0 {
      var init := s[..|s| - 1];
      var last := s[|s| - 1];
      assert s == init + [last];
      assert DistinctKeys(init) by {
        forall a, b | 0 <= a < b < |init|
          ensures init[a].key != init[b].key
        {
          assert init[a] == s[a] && init[b] == s[b];
        }
      }
      assert last.key !in KeySet(init) by {
        forall j | 0 <= j < |init|
          ensures init[j].key != last.key
        {
          assert init[j] == s[j];
        }
      }
      KeySetSize(init);
      AppendKeys(init, last);
    }
  }
}
