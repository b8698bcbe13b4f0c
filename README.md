# Chained hash table and quicksort, modelled in Dafny

This project models two independent in-place algorithms and proves their
contracts.

**`ChainedHashTable`** (`hashtable.dfy`) models the separate-chaining hash
map `HashTable` of `hashtable.py`:
- The class `HashTable` keeps the source's fields:
  - `buckets`, a sequence of buckets; each bucket is a sequence of (key, value) entries, oldest first;
  - `elementCount`, the number of entries;
  - `maxSize`, the number of buckets.
- The hash function is a constant `hash: K -> int`, fixed when the table is built.
- A ghost field `Contents: map<K, V>` holds the map the table stands for.
- The invariant `Valid()` says:
  - every entry sits in bucket `hash(key) % maxSize`;
  - the entries are exactly the graph of `Contents`, each pair once, so no key occurs twice;
  - `elementCount` is both the number of entries and the number of keys;
  - the load factor is at most 0.7.
- `Add`, `Get` and `Remove` are proved to be map update, lookup and removal on `Contents`. Their postconditions also state the new bucket array exactly.
- `ExpandTable` is proved to double the number of buckets and redistribute the old entries, in order, as the pure function `Distribute` does. `DistributeCorrect` shows that this keeps every entry exactly once, in its new slot.

**`Quicksort`** (`quicksort.dfy`) models `random_quicksort.py` on an `array<int>`:
- `ClassicDivide` is the two-pointer partition around `a[start]`.
- `ClassicQuicksort` and `RandomQuicksort` are the recursive sorts of the closed range `[start, end]`.
- `RandomDivide` swaps a freely chosen index of the range to the front, then partitions.
- Both sorts are proved to leave the range sorted and a permutation of the original, with nothing outside the range changed.
- `SortedPermutationUnique` shows that the result is therefore the ascending sort of the input, whichever pivots are drawn.

Other modelling choices:
- Python's `%` with a positive modulus is non-negative, as Dafny's `%` is, so `Slot` is `h(key) % n` unchanged.
- The test `element_count / max_size > 0.7` is written as the exact comparison `10 * elementCount > 7 * maxSize`.

## Model

| member | source | states |
|---|---|---|
| ChainedHashTable.Slot | hashtable.py:16 | The bucket index lies in `[0, n)` for any integer hash, given at least one bucket. |
| ChainedHashTable.Find | hashtable.py:45-48 | A reported value is stored with the key in the bucket. `None` is reported exactly when no entry of the bucket has the key. |
| ChainedHashTable.SetValue | hashtable.py:26-29 | Overwriting keeps the bucket's length and the key at every position. A bucket without the key is left as it is. |
| ChainedHashTable.Delete | hashtable.py:56-58 | Removal keeps only entries of the bucket. A bucket without the key is unchanged; otherwise it loses exactly one entry. |
| ChainedHashTable.FindPosition | hashtable.py:45-47 | A key that the lookup reports sits at a position holding that key and value, with no earlier entry having the key. |
| ChainedHashTable.FindAt | hashtable.py:45-47 | When `j` is the first position holding the key, the lookup returns the value at `j`. |
| ChainedHashTable.SetValueAt | hashtable.py:26-28 | When `j` is the first position holding the key, the update replaces exactly the entry at `j` by `(key, value)`. |
| ChainedHashTable.DeleteAt | hashtable.py:56-58 | When `j` is the first position holding the key, removal cuts out exactly the entry at `j`. |
| ChainedHashTable.EmptyBuckets | hashtable.py:9 | Exactly `n` buckets, all empty. |
| ChainedHashTable.EntriesAreGraph | hashtable.py:32-33 | Entries that store every key with its value, and are as many as the keys, are exactly the map's graph: nothing else is stored and nothing is stored twice. |
| ChainedHashTable.AbstractsGraph | hashtable.py:7-9 | Under the table invariant, the multiset of all entries is exactly the graph of the abstract map. |
| ChainedHashTable.LookupAgrees | hashtable.py:44-48 | Scanning only the key's own bucket finds `Some(m[key])` exactly when the key is in the map, and `None` otherwise. |
| ChainedHashTable.KeysUnique | hashtable.py:26-33 | Under the invariant, two positions anywhere in the table holding the same key are the same position. |
| ChainedHashTable.InsertPreserves | hashtable.py:32-33 | Appending `(key, value)` for a new key to its bucket keeps the invariant, for the map extended by the key and the count plus one. |
| ChainedHashTable.UpdatePreserves | hashtable.py:26-29 | Overwriting a present key's entry in its bucket keeps the invariant, for the map with that key's value replaced and the same count. |
| ChainedHashTable.RemovePreserves | hashtable.py:56-59 | Deleting a present key's entry from its bucket keeps the invariant, for the map without the key and the count minus one. |
| ChainedHashTable.FirstPosition | hashtable.py:56-58 | A present key sits, with its value, at a first position of its own bucket. |
| ChainedHashTable.DistributeCorrect | hashtable.py:72-75 | Redistribution puts every entry into the bucket of its slot for the new size, and keeps the multiset of entries. |
| ChainedHashTable.RehashPreserves | hashtable.py:68-78 | Rehashing into any positive number of buckets keeps the invariant, with the same map and count. |
| ChainedHashTable.Scan | hashtable.py:26-27 | The bucket walk returns the first position holding the key, or the bucket's length exactly when the lookup finds nothing. |
| ChainedHashTable.Rehash | hashtable.py:68-75 | The nested redistribution loop yields exactly `Distribute` of the old entries, taken bucket by bucket. |
| ChainedHashTable.HashTable.constructor | hashtable.py:2-9 | A new table is valid and empty: `initialSize` empty buckets, count 0, empty map. |
| ChainedHashTable.HashTable.GetIndex | hashtable.py:11-16 | The index lies in `[0, maxSize)`. |
| ChainedHashTable.HashTable.Get | hashtable.py:39-48 | Returns `Some(Contents[key])` when the key is present and `None` otherwise, without changing the table. |
| ChainedHashTable.HashTable.Add | hashtable.py:18-37 | The map becomes `old(Contents)[key := value]` and the invariant, including load factor at most 0.7, holds again. A present key has its entry overwritten, with count, size and other entries unchanged. A new key is appended and counted, and the table doubles exactly when `10 * count > 7 * maxSize`, into `Distribute` of the grown buckets. |
| ChainedHashTable.HashTable.Replace | hashtable.py:26-29 | The present key's first entry is overwritten in place, and count, size and invariant are kept. |
| ChainedHashTable.HashTable.Append | hashtable.py:31-37 | A new key's entry goes at the end of its bucket and the count rises by one. The table doubles exactly when the load factor passes 0.7, and the invariant holds afterwards. |
| ChainedHashTable.HashTable.Remove | hashtable.py:50-61 | Returns true exactly when the key was present. The map loses the key, the count drops by one exactly then, and the key's bucket loses exactly that entry. The number of buckets never changes. |
| ChainedHashTable.HashTable.ExpandTable | hashtable.py:63-78 | The number of buckets doubles and the buckets become `Distribute` of the old entries in order. Count and map are unchanged, and the invariant holds for the new size. |
| Quicksort.Swap | random_quicksort.py:23 | Exactly two positions exchange their elements, and the array's multiset is kept. |
| Quicksort.SkipNotGreater | random_quicksort.py:18-19 | The left pointer passes only elements not greater than the pivot, and stops at a greater one or just past the right pointer. |
| Quicksort.SkipGreater | random_quicksort.py:20-21 | The right pointer passes only greater elements, and stops at one that is not greater or just before the left pointer. |
| Quicksort.ClassicDivide | random_quicksort.py:12-28 | Returns `p` in `[start, end]` holding the original `a[start]`. Nothing greater lies before `p` in the range, and only greater elements lie after it. The range keeps its multiset and nothing outside it changes. |
| Quicksort.PivotPlaced | random_quicksort.py:27-28 | The closing swap puts the pivot between the two sides, and the range keeps its original multiset. |
| Quicksort.ClassicQuicksort | random_quicksort.py:5-10 | When `start < end`, the range ends sorted and a permutation of itself. Nothing outside the range changes, and for `start >= end` nothing changes at all. |
| Quicksort.RandomDivide | random_quicksort.py:38-42 | For any drawn index, returns a `p` whose element came from the range, with the same split, multiset and frame guarantees as `ClassicDivide`. |
| Quicksort.RandomQuicksort | random_quicksort.py:31-36 | Sorted, a permutation of the range, and nothing outside it changed, whatever pivots are drawn. |
| Quicksort.SortedAfterDivide | random_quicksort.py:8-10 | A partition followed by in-place sorts of both sides leaves the whole range sorted and a permutation of the original. |
| Quicksort.SortedPermutationUnique | random_quicksort.py:80-81 | Two sorted sequences with the same elements are equal. So both sorts leave exactly `sorted(data)`, whichever pivots were drawn. |

## Left out

- `print_table` and the demonstration under `__main__` in `hashtable.py` only print.
- `compare_quicksorts` and its `__main__` only time the sorts with the clock and print the timings. Its sortedness assertions are what `SortedPermutationUnique` and the two quicksorts' postconditions state.
- `random.randint` is a free choice (`:|`) of an index in `[start, end]`. The contracts hold for every choice, but no distribution is modelled.
- Python's built-in `hash` is the abstract function `hash: K -> int`. String hashing and per-process hash randomisation are not modelled. Keys are compared with Dafny equality, which assumes the key's `==` is an equivalence consistent with its hash.
- The load-factor test divides in floating point. The model compares `10 * elementCount > 7 * maxSize` exactly. The two differ only when the quotient rounds across 0.7, which needs bucket counts far beyond any real table.
- Buckets are values:
  - The bucket array and each bucket are sequences that the methods reassign, and entries are immutable pairs.
  - Python's in-place `append`, `list.remove` and `item[1] = value` become replacing the affected bucket.
  - Aliasing of the `[key, value]` lists, or of a bucket shared outside the table, is not modelled.
  - `list.remove(item)` is modelled as removing the first entry with the key; `item` is that entry, and no earlier entry equals it.
- `get` returns `None` both for a missing key and for a key stored with the value `None`. The model returns an `Option`, which keeps the two apart.
- ChainedHashTable.HashTable.constructor: requires `initialSize >= 1`. Python constructs a table of size 0 or less, but then every `add`, `get` and `remove` fails (`ZeroDivisionError` for 0, an index error for negative sizes). The model does not describe those failures.
- The loop that walks a bucket, shared by `add`, `get` and `remove`, is the method `Scan`. The redistribution loop of `_expand_table` is the method `Rehash`. The two branches of `add` are the methods `Replace` and `Append`. The order of operations is the source's.
- The quicksorts sort integers only. Python sorts any mutually comparable elements.
- The quicksorts require `0 <= start` and `end < a.Length` when `start < end`. Python would also accept negative indices counted from the end of the list.
