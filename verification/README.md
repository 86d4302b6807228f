# FIFO byte-bounded cache: a Dafny model

This project models the FIFO store of `fifo/fifo.go`. The store is a key/value cache bounded by bytes. Its parts are:

- `ll`, a list of entries. Its order is the eviction order: the front is the oldest entry, the back the newest.
- `cache`, a map from each key to its list element.
- `usedBytes`, the summed size of the stored values. Keys are not counted.
- `maxBytes`, the capacity. A value that is not positive means there is no limit.
- `onEvicted`, an optional callback. It is called on every removal.

The model keeps that layout in `Fifo.Store`:

- The list is a `seq<Entry<K, V>>`.
- The element index is `cache: map<K, V>`, the value reachable through each key's element. The element itself is its position in the list.
- The callback is a flag `hasCallback` plus `evictions`, the (key, value) pairs handed to it so far, in order.
- The external size function `cache.CalcLen` becomes a parameter `size: V -> nat`. Every operation that changes the store receives it. The Go method `entry.Len` (fifo/fifo.go:30-32) is `size` applied to the entry's value; `Fifo.PushBack`, `Fifo.MoveToBack` and `Fifo.RemoveElement` all use it.

Each operation is a pure function, mirroring one Go method:

| Go | Dafny |
|---|---|
| `New` | `Fifo.New` |
| `Set` | `Fifo.Set`, with the part before the capacity test as `Fifo.Place`, whose two paths are `Fifo.MoveToBack` (update) and `Fifo.PushBack` (new key) |
| `Get` | `Fifo.Get` returns `Option<V>`; `Fifo.GetOrNil` is Go's result, with `nil` for absent |
| `Del` | `Fifo.Del` |
| `DelOldest` | `Fifo.DelOldest` |
| `removeElement` | `Fifo.RemoveElement`, the element being `Option<nat>` with `None` for nil |
| `Len` | `Fifo.Len` |

Two invariants tie the parts together:

- `Fifo.Indexed`: list and map agree. Keys are distinct, the map's domain is the set of listed keys, and each key's entry in the list holds the value the map gives.
- `Fifo.Valid`: `Indexed`, plus `usedBytes` equals the summed value sizes of the live entries (`Entries.Sum`).

The module `Entries` holds the facts about sequences of entries that these invariants need: key sets, distinctness, sums, removal at a position and removal by key. `Entries.Without` is an independent reference definition of "drop the entry with this key". It is used to state what `Set` and `Del` leave behind.

The code evicts at most once per `Set`. It uses an `if` (fifo/fifo.go:58-60), and the update path returns before any eviction (fifo/fifo.go:50). The field comment at fifo/fifo.go:10 calls `maxBytes` the maximum capacity in bytes, which one eviction does not always restore. The model's `Set` follows the code. The repeated eviction is modelled separately in `FifoCapacity` (see Findings).

## Model

| member | source | states |
|---|---|---|
| Fifo.New | fifo/fifo.go:34-42 | a new store is empty and consistent, uses 0 bytes, has an empty callback log, and keeps the given capacity and callback choice |
| FifoProperties.NewValid | fifo/fifo.go:34-42 | a new store satisfies the full invariant, including byte accounting |
| Fifo.Len | fifo/fifo.go:99-102 | the number of live entries, the length of the list; when list and index agree, it is also the number of keys in the map |
| Fifo.Get | fifo/fifo.go:63-70 | the result is absent exactly when no live entry has the key; when an entry has the key, the result is that entry's value |
| Fifo.GetOrNil | fifo/fifo.go:63-70 | Go's result: `nil` for an absent key, otherwise the live entry's value |
| FifoProperties.NilIsAmbiguous | fifo/fifo.go:63-69 | a stored `nil` and an absent key give the same Go result, though the store tells them apart |
| Fifo.RemoveElement | fifo/fifo.go:84-97 | a nil element changes nothing; otherwise one entry fewer, its key leaves the map, list/map consistency is kept and the configuration is unchanged |
| FifoProperties.RemoveElementEffect | fifo/fifo.go:84-97 | removal deletes exactly the entry with that key, keeps the others in order, subtracts its value's size, logs the pair once when a callback is set, and leaves every other key's value unchanged |
| Entries.SumRemoveAt | fifo/fifo.go:89-91 | unlinking an entry lowers the byte sum by exactly the size of its value |
| Entries.SumAppend | fifo/fifo.go:53-57 | appending an entry raises the byte sum by exactly the size of its value |
| Fifo.DelOldest | fifo/fifo.go:79-82 | an empty store is unchanged; otherwise the list loses its first element and nothing else |
| FifoProperties.DelOldestEffect | fifo/fifo.go:79-97 | on a non-empty store the oldest entry is removed and logged once, its size is subtracted, and the other keys keep their values |
| FifoProperties.DelOldestValid | fifo/fifo.go:79-97 | `DelOldest` preserves byte accounting and list/map consistency |
| Fifo.Del | fifo/fifo.go:72-77 | an absent key leaves the store unchanged; a present key is gone afterwards and the count drops by one |
| FifoProperties.DelPresent | fifo/fifo.go:72-77 | deleting a present key removes exactly its entry, keeps the others in order, subtracts its size, logs the pair once and leaves the other keys alone |
| FifoProperties.DelValid | fifo/fifo.go:72-77 | `Del` preserves byte accounting and list/map consistency |
| Fifo.MoveToBack | fifo/fifo.go:45-50 | the update path: the count and the indexed keys are unchanged, the key's entry is now the last one and holds the new value, consistency is kept and nothing is logged |
| Fifo.PushBack | fifo/fifo.go:53-57 | the insert path before the capacity test: one entry more, the new key joins the index, its entry is the last one with the given value, consistency is kept and nothing is logged |
| Fifo.Place | fifo/fifo.go:44-57 | before the capacity test, the key is stored with the new value at the back of the list; the count is unchanged for an existing key and one higher for a new key; nothing is logged |
| Fifo.Set | fifo/fifo.go:44-61 | consistency is kept; an update keeps the count and does not log; an insert grows the count by at most one; at most one pair is logged |
| FifoProperties.SetUpdate | fifo/fifo.go:44-50 | updating a key moves it to the back with the new value, keeps the others in order, adjusts the byte count by the size difference, and does not evict or log |
| FifoProperties.SetInsert | fifo/fifo.go:53-60 | a new key is appended at the back; if the capacity is positive and now exceeded, exactly the front entry is removed and logged; otherwise nothing is removed |
| FifoProperties.PlaceValid | fifo/fifo.go:44-57 | both paths before the capacity test keep byte accounting exact |
| FifoProperties.SetValid | fifo/fifo.go:44-61 | `Set` preserves byte accounting and list/map consistency |
| FifoProperties.SetUnbounded | fifo/fifo.go:34-60 | with a capacity that is not positive, `Set` never evicts: the value is stored, a new key adds one entry, other keys are untouched and the log is unchanged |
| FifoProperties.SetLoneOversized | fifo/fifo.go:53-60 | in an empty store, a value larger than a positive capacity evicts itself: the store stays empty and the pair is logged |
| FifoProperties.SetKeepsOrder | fifo/fifo.go:44-60 | apart from the key being set, the entries after `Set` are the entries before it, possibly minus some of the oldest, in the same order |
| FifoCapacity.EvictOnce | fifo/fifo.go:58-60 | a consistent store over a positive capacity is not empty, and one `DelOldest` removes exactly its front entry, logs it once, and keeps byte accounting and consistency |
| FifoCapacity.EvictUntilFits | fifo/fifo.go:58-60 | repeated oldest-first eviction: it ends within a positive capacity and keeps consistency; what it evicts is a prefix of the list, logged in list order; it stops at the shortest such prefix, since before each eviction the remaining entries still exceed the capacity; a store already within its capacity comes back unchanged |
| FifoCapacity.SetWithinCapacity | fifo/fifo.go:44-61 | `Set` with repeated eviction: consistency is kept and a positive capacity always holds afterwards; the evicted entries are the oldest after placing the key, and no more are evicted than needed, since before each eviction the remaining entries still exceed the capacity; if the key survives it is the newest entry, with the new value; when placing the key does not exceed the capacity, the result is the code's `Set` |
| FifoCapacity.SetMayExceedCapacity | fifo/fifo.go:58-60 | with capacity 10 and new keys of sizes 4, 4, 8, the code's `Set` leaves 12 bytes in two entries |

## Findings

| source | as written | input that shows it | evidently intended | confidence | as-written member | corrected member |
|---|---|---|---|---|---|---|
| fifo/fifo.go:58-60 | after inserting a new key, the oldest entry is evicted once (`if`); an update never evicts | capacity 10; new keys with value sizes 4, 4, 8; after the third `Set`, 12 bytes remain in two entries | `maxBytes` is the capacity ceiling (fifo/fifo.go:10), so oldest entries are evicted repeatedly until `usedBytes <= maxBytes` | medium; not executed | FifoCapacity.SetMayExceedCapacity | FifoCapacity.SetWithinCapacity |

The model of `fifo.go` (`Fifo.Set` and the lemmas about it) keeps the code's behaviour. `SetWithinCapacity` states the intended bound. Whenever placing the key leaves the store within its capacity, `SetWithinCapacity` returns exactly the store the code's `Set` returns.

## Left out

- The load-coalescing `TourCache`, its `Stat` counters, the `Getter` loader and the LRU store are not part of this model: they lie outside `fifo/fifo.go`, and `tour_cache_test.go` exercises only those parts and their concurrency.
- `cache.CalcLen` is not part of this model. It is the parameter `size: V -> nat`. A negative size from Go is not modelled.
- `container/list` pointers: a list element is modelled as its position in the sequence. The map gives the value reachable through the element.
- Side effects of `onEvicted`, including any re-entrant call into the store, are not modelled. Only the pairs it receives are recorded.
- Go `int` is 64 bits; `usedBytes` and `maxBytes` are unbounded integers here, so overflow is not modelled.
- Concurrency: the store is not concurrency-safe (fifo/fifo.go:8). The model is sequential.
- The `cache.Cache` interface declaration is not modelled. The model has one concrete store.
- Fifo.Set: requires `Indexed`, the list/map consistency. Every store built by `New` and the operations satisfies it. The Go code reads the element through the map and relies on that consistency.
- Fifo.Place, Fifo.MoveToBack and Fifo.PushBack: require `Indexed` for the same reason; `PushBack` also requires the key to be new, as the insert path is only reached then.
