/**
 A hash map with separate chaining: an array of buckets, each an ordered
 sequence of (key, value) entries, a count of live entries and the number
 of buckets. A key lives in bucket `hash(key) % capacity`; inserting a new
 key that pushes the load factor above 0.7 doubles the number of buckets
 and redistributes every entry.

 The value-level part of the module (`Slot`, `Find`, `SetValue`, `Delete`,
 `Flatten`, `Distribute`, `Abstracts` and the lemmas about them) says what a
 bucket array means; the class `HashTable` is the mutable table, whose
 methods are proved against it.
 */
module ChainedHashTable {

  datatype Option<T> = None | Some(value: T)

  /** Bucket index of `key` among `n` buckets: the non-negative remainder of its hash. */
  function Slot<K>(h: K -> int, key: K, n: int): (i: int)
    requires n >= 1
    ensures 0 <= i < n
  {
    h(key) % n
  }

  // ---------------------------------------------------------------------------
  // One bucket: a scan from the oldest entry, stopping at the first equal key.
  // ---------------------------------------------------------------------------

  /** The value of the first entry of `b` with key `key`, if any. */
  ghost function Find<K, V>(b: seq<(K, V)>, key: K): (r: Option<V>)
    ensures r.Some? ==> (key, r.value) in b
    ensures r.None? <==> forall j :: 0 <= j < |b| ==> b[j].0 != key
  {
    if b == [] then None
    else if b[0].0 == key then Some(b[0].1)
    else Find(b[1..], key)
  }

  /** `b` with the value of its first entry with key `key` replaced by `value`. */
  ghost function SetValue<K, V>(b: seq<(K, V)>, key: K, value: V): (r: seq<(K, V)>)
    ensures |r| == |b|
    ensures forall j :: 0 <= j < |b| ==> r[j].0 == b[j].0
    ensures Find(b, key).None? ==> r == b
  {
    if b == [] then []
    else if b[0].0 == key then [(key, value)] + b[1..]
    else [b[0]] + SetValue(b[1..], key, value)
  }

  /** `b` without its first entry with key `key`. */
  ghost function Delete<K, V>(b: seq<(K, V)>, key: K): (r: seq<(K, V)>)
    ensures forall j :: 0 <= j < |r| ==> r[j] in b
    ensures Find(b, key).None? ==> r == b
    ensures Find(b, key).Some? ==> |r| == |b| - 1
  {
    if b == [] then []
    else if b[0].0 == key then b[1..]
    else [b[0]] + Delete(b[1..], key)
  }

  /** A key that `Find` reports sits at a first position, with the value reported. */
  lemma {:induction false} FindPosition<K, V>(b: seq<(K, V)>, key: K) returns (j: int)
    requires Find(b, key).Some?
    ensures 0 <= j < |b| && b[j] == (key, Find(b, key).value)
    ensures forall m :: 0 <= m < j ==> b[m].0 != key
  {
    if b[0].0 == key {
      j := 0;
    } else {
      var j' := FindPosition(b[1..], key);
      j := j' + 1;
    }
  }

  /*
   What the loops of `get`, `add` and `remove` find: when `j` is the first
   position of `b` holding `key`, each first-match function acts at `j`.
   */

  /** `Find` reports the value at the first position holding the key. */
  lemma {:induction false} FindAt<K, V>(b: seq<(K, V)>, key: K, j: int)
    requires 0 <= j < |b| && b[j].0 == key
    requires forall m :: 0 <= m < j ==> b[m].0 != key
    ensures Find(b, key) == Some(b[j].1)
  {
    if j > 0 {
      FindAt(b[1..], key, j - 1);
    }
  }

  /** `SetValue` overwrites the entry at the first position holding the key. */
  lemma {:induction false} SetValueAt<K, V>(b: seq<(K, V)>, key: K, j: int, value: V)
    requires 0 <= j < |b| && b[j].0 == key
    requires forall m :: 0 <= m < j ==> b[m].0 != key
    ensures SetValue(b, key, value) == b[j := (key, value)]
  {
    if j == 0 {
      assert [(key, value)] + b[1..] == b[0 := (key, value)];
    } else {
      SetValueAt(b[1..], key, j - 1, value);
      UpdateAfterHead(b, j, (key, value));
    }
  }

  /** Overwriting a position after the head is overwriting in the tail. */
  lemma UpdateAfterHead<T>(b: seq<T>, j: int, x: T)
    requires 0 < j < |b|
    ensures [b[0]] + b[1..][j - 1 := x] == b[j := x]
  {
    var l, r := [b[0]] + b[1..][j - 1 := x], b[j := x];
    assert forall k :: 0 <= k < |b| ==> l[k] == r[k];
  }

  /** `Delete` cuts out the entry at the first position holding the key. */
  lemma {:induction false} DeleteAt<K, V>(b: seq<(K, V)>, key: K, j: int)
    requires 0 <= j < |b| && b[j].0 == key
    requires forall m :: 0 <= m < j ==> b[m].0 != key
    ensures Delete(b, key) == b[..j] + b[j + 1..]
  {
    if j > 0 {
      var tail := b[1..];
      DeleteAt(tail, key, j - 1);
      assert tail[..j - 1] == b[1..j] && tail[j..] == b[j + 1..];
      assert b[..j] == [b[0]] + b[1..j];
    }
  }

  /** Overwriting position `j` swaps one entry for another in the bucket's multiset. */
  lemma ReplaceMultiset<T>(b: seq<T>, j: int, x: T)
    requires 0 <= j < |b|
    ensures multiset(b[j := x]) + multiset{b[j]} == multiset(b) + multiset{x}
  {
    assert b == b[..j] + [b[j]] + b[j + 1..];
    assert b[j := x] == b[..j] + [x] + b[j + 1..];
  }

  /** Cutting out position `j` takes exactly that entry out of the bucket's multiset. */
  lemma RemoveAtMultiset<T>(b: seq<T>, j: int)
    requires 0 <= j < |b|
    ensures multiset(b[..j] + b[j + 1..]) + multiset{b[j]} == multiset(b)
  {
    assert b == b[..j] + [b[j]] + b[j + 1..];
  }

  /** An entry at two positions of a bucket is counted at least twice. */
  lemma CountedTwice<T>(b: seq<T>, j1: int, j2: int)
    requires 0 <= j1 < j2 < |b| && b[j1] == b[j2]
    ensures multiset(b)[b[j1]] >= 2
  {
    assert b == b[..j2] + b[j2..];
    assert b[j1] == b[..j2][j1];
    assert b[j2] == b[j2..][0];
  }

  /** Multiset bookkeeping: a bucket edit that trades `x` for `y` does the same to the whole. */
  lemma Rebalance<T>(whole': multiset<T>, whole: multiset<T>, part: multiset<T>, part': multiset<T>,
                     x: multiset<T>, y: multiset<T>)
    requires whole' + part == whole + part'
    requires part' + x == part + y
    ensures whole' + x == whole + y
  {
    forall e
      ensures (whole' + x)[e] == (whole + y)[e]
    {
      assert (whole' + part)[e] == (whole + part')[e];
      assert (part' + x)[e] == (part + y)[e];
    }
  }

  /** Multiset bookkeeping: the same entries added to both sides of a balance keep it. */
  lemma AddBoth<T>(X: multiset<T>, Y: multiset<T>, x: multiset<T>, y: multiset<T>, extra: multiset<T>)
    requires X + x == Y + y
    ensures X + extra + x == Y + extra + y
  {
    forall e
      ensures (X + extra + x)[e] == (Y + extra + y)[e]
    {
      assert (X + x)[e] == (Y + y)[e];
    }
  }

  // ---------------------------------------------------------------------------
  // A bucket array: its entries, where they sit, and the map it stands for.
  // ---------------------------------------------------------------------------

  /** All entries of a bucket array, bucket after bucket, each bucket in its own order. */
  ghost function Flatten<K, V>(bs: seq<seq<(K, V)>>): seq<(K, V)>
  {
    if bs == [] then [] else Flatten(bs[..|bs| - 1]) + bs[|bs| - 1]
  }

  /** Replacing one bucket replaces its entries in the whole: nothing else is gained or lost. */
  lemma {:induction false} FlattenUpdate<K, V>(bs: seq<seq<(K, V)>>, i: int, b: seq<(K, V)>)
    requires 0 <= i < |bs|
    ensures multiset(Flatten(bs[i := b])) + multiset(bs[i]) == multiset(Flatten(bs)) + multiset(b)
  {
    var n := |bs| - 1;
    var bs' := bs[i := b];
    assert Flatten(bs) == Flatten(bs[..n]) + bs[n];
    if i == n {
      assert bs'[..n] == bs[..n];
      assert Flatten(bs') == Flatten(bs[..n]) + b;
    } else {
      assert bs'[..n] == bs[..n][i := b];
      assert Flatten(bs') == Flatten(bs[..n][i := b]) + bs[n];
      assert bs[..n][i] == bs[i];
      FlattenUpdate(bs[..n], i, b);
      var X, Y := multiset(Flatten(bs[..n][i := b])), multiset(Flatten(bs[..n]));
      assert multiset(Flatten(bs')) == X + multiset(bs[n]);
      assert multiset(Flatten(bs)) == Y + multiset(bs[n]);
      AddBoth(X, Y, multiset(bs[i]), multiset(b), multiset(bs[n]));
    }
  }

  /** Taking one more bucket appends its entries. */
  lemma FlattenStep<K, V>(bs: seq<seq<(K, V)>>, i: int)
    requires 0 <= i < |bs|
    ensures Flatten(bs[..i + 1]) == Flatten(bs[..i]) + bs[i]
  {
    assert bs[..i + 1][..i] == bs[..i];
  }

  /** Buckets that are all empty hold no entries. */
  lemma {:induction false} FlattenEmpty<K, V>(bs: seq<seq<(K, V)>>)
    requires forall i :: 0 <= i < |bs| ==> bs[i] == []
    ensures Flatten(bs) == []
  {
    if bs != [] {
      FlattenEmpty(bs[..|bs| - 1]);
    }
  }

  /** Every entry of a bucket is an entry of the whole, as often as it occurs there. */
  lemma {:induction false} FlattenContains<K, V>(bs: seq<seq<(K, V)>>, i: int)
    requires 0 <= i < |bs|
    ensures multiset(bs[i]) <= multiset(Flatten(bs))
  {
    if i < |bs| - 1 {
      FlattenContains(bs[..|bs| - 1], i);
    }
  }

  /** Every entry of the whole sits at some position of some bucket. */
  lemma {:induction false} FlattenMember<K, V>(bs: seq<seq<(K, V)>>, e: (K, V)) returns (i: int, j: int)
    requires e in Flatten(bs)
    ensures 0 <= i < |bs| && 0 <= j < |bs[i]| && bs[i][j] == e
  {
    var n := |bs| - 1;
    if e in bs[n] {
      i := n;
      j :| 0 <= j < |bs[n]| && bs[n][j] == e;
    } else {
      i, j := FlattenMember(bs[..n], e);
    }
  }

  /** Every entry sits in the bucket its key's slot names. */
  ghost predicate Placed<K, V>(h: K -> int, bs: seq<seq<(K, V)>>)
  {
    forall i, j {:trigger Slot(h, bs[i][j].0, |bs|)} :: 0 <= i < |bs| && 0 <= j < |bs[i]| ==> Slot(h, bs[i][j].0, |bs|) == i
  }

  /** Replacing a bucket by entries that all belong there keeps every entry placed. */
  lemma PlacedUpdate<K, V>(h: K -> int, bs: seq<seq<(K, V)>>, i: int, b: seq<(K, V)>)
    requires Placed(h, bs) && 0 <= i < |bs|
    requires forall j :: 0 <= j < |b| ==> Slot(h, b[j].0, |bs|) == i
    ensures Placed(h, bs[i := b])
  {
  }

  /** The entry that stores key `k` of `m`. */
  ghost function Entry<K, V>(m: map<K, V>, k: K): (K, V)
    requires k in m
  {
    (k, m[k])
  }

  /**
   Every key of `m` is stored with its value. The quantifier fires only on
   `Entry` terms, so that the invariant stays out of the way of proofs that
   do not ask about it.
   */
  ghost predicate Covers<K, V>(entries: multiset<(K, V)>, m: map<K, V>)
  {
    forall k {:trigger Entry(m, k)} :: k in m ==> Entry(m, k) in entries
  }

  /**
   The entries are exactly the graph of `m`, each pair once: so no key
   appears with two values, nor twice with the same one.
   */
  ghost predicate Represents<K, V>(entries: multiset<(K, V)>, m: map<K, V>)
  {
    (forall e :: e in entries ==> e.0 in m && m[e.0] == e.1 && entries[e] == 1) &&
    Covers(entries, m)
  }

  /** Adding the pair of a new key represents the map extended by that key. */
  lemma RepresentsInsert<K, V>(E: multiset<(K, V)>, m: map<K, V>, key: K, value: V)
    requires Represents(E, m) && key !in m
    ensures Represents(E + multiset{(key, value)}, m[key := value])
  {
    var E' := E + multiset{(key, value)};
    assert (key, value) !in E;
    forall e | e in E'
      ensures e.0 in m[key := value] && m[key := value][e.0] == e.1 && E'[e] == 1
    {
      if e != (key, value) {
        assert e in E;
      }
    }
    var m' := m[key := value];
    forall k | k in m'
      ensures Entry(m', k) in E'
    {
      if k != key {
        assert Entry(m, k) in E;
      }
    }
  }

  /** Trading a key's old pair for a new one represents the map with that key's value replaced. */
  lemma RepresentsUpdate<K, V>(E: multiset<(K, V)>, E': multiset<(K, V)>, m: map<K, V>, key: K, value: V)
    requires Represents(E, m) && key in m
    requires E' + multiset{(key, m[key])} == E + multiset{(key, value)}
    ensures Represents(E', m[key := value])
  {
    var o, n := (key, m[key]), (key, value);
    var m' := m[key := value];
    assert Entry(m, key) in E;
    assert E[o] == 1;
    assert E[n] == if n == o then 1 else 0;
    forall e | e in E'
      ensures e.0 in m' && m'[e.0] == e.1 && E'[e] == 1
    {
      assert (E' + multiset{o})[e] == (E + multiset{n})[e];
      assert E'[e] + multiset{o}[e] == E[e] + multiset{n}[e];
      if e != n {
        assert e in E && E[e] == 1;
        assert e != o;
      }
    }
    forall k | k in m'
      ensures Entry(m', k) in E'
    {
      var p := Entry(m', k);
      if k != key {
        assert Entry(m, k) == p;
      }
      assert (E' + multiset{o})[p] == (E + multiset{n})[p];
      assert E'[p] + multiset{o}[p] == E[p] + multiset{n}[p];
    }
  }

  /** Taking a key's pair out represents the map without that key. */
  lemma RepresentsRemove<K, V>(E: multiset<(K, V)>, E': multiset<(K, V)>, m: map<K, V>, key: K)
    requires Represents(E, m) && key in m
    requires E' + multiset{(key, m[key])} == E
    ensures Represents(E', m - {key})
  {
    var m' := m - {key};
    forall e | e in E'
      ensures e.0 in m' && m'[e.0] == e.1 && E'[e] == 1
    {
      assert e in E;
    }
    forall k | k in m'
      ensures Entry(m', k) in E'
    {
      assert Entry(m, k) in E;
    }
  }

  /** How many keys a map has after one key is set or taken out. */
  lemma MapSize<K, V>(m: map<K, V>, key: K, value: V)
    ensures |m[key := value]| == if key in m then |m| else |m| + 1
    ensures |m - {key}| == if key in m then |m| - 1 else |m|
  {
    if key in m {
      assert m[key := value].Keys == m.Keys;
      assert (m - {key}).Keys + {key} == m.Keys;
    } else {
      assert m[key := value].Keys == m.Keys + {key};
      assert (m - {key}).Keys == m.Keys;
    }
  }

  /**
   Entries that cover a map and are no more numerous than its keys are
   exactly its graph: nothing else is stored, and nothing is stored twice.
   */
  lemma {:induction false} EntriesAreGraph<K, V>(E: multiset<(K, V)>, m: map<K, V>)
    requires Covers(E, m) && |E| == |m|
    ensures Represents(E, m)
    decreases |m|
  {
    if m == map[] {
      assert |E| == 0;
    } else {
      var k :| k in m;
      var p := Entry(m, k);
      var E', m' := E - multiset{p}, m - {k};
      assert E' + multiset{p} == E;
      MapSize(m, k, m[k]);
      forall k' | k' in m'
        ensures Entry(m', k') in E'
      {
        assert Entry(m, k') in E;
      }
      EntriesAreGraph(E', m');
      forall e | e in E
        ensures e.0 in m && m[e.0] == e.1 && E[e] == 1
      {
        if e != p {
          assert e in E';
        }
      }
    }
  }

  /**
   The representation invariant of the table: `bs` is a non-empty bucket
   array whose entries are placed by `h` and cover the map `m`, and they
   number `count`, which is also the number of keys of `m`. By
   `EntriesAreGraph`, the entries are then exactly the graph of `m`.
   */
  ghost predicate Abstracts<K, V>(h: K -> int, bs: seq<seq<(K, V)>>, m: map<K, V>, count: int)
  {
    |bs| >= 1 &&
    Placed(h, bs) &&
    Covers(multiset(Flatten(bs)), m) &&
    count == |Flatten(bs)| &&
    count == |m|
  }

  /** The invariant, read as the entries being the map's graph. */
  lemma AbstractsGraph<K, V>(h: K -> int, bs: seq<seq<(K, V)>>, m: map<K, V>, count: int)
    requires Abstracts(h, bs, m, count)
    ensures Represents(multiset(Flatten(bs)), m)
  {
    EntriesAreGraph(multiset(Flatten(bs)), m);
  }

  /** A lookup scans only the key's own bucket and finds exactly what the map holds. */
  lemma LookupAgrees<K, V>(h: K -> int, bs: seq<seq<(K, V)>>, m: map<K, V>, count: int, key: K)
    requires Abstracts(h, bs, m, count)
    ensures Find(bs[Slot(h, key, |bs|)], key) == if key in m then Some(m[key]) else None
  {
    AbstractsGraph(h, bs, m, count);
    var s := Slot(h, key, |bs|);
    var b := bs[s];
    FlattenContains(bs, s);
    if key in m {
      assert Entry(m, key) in multiset(Flatten(bs));
      var i, j := FlattenMember(bs, (key, m[key]));
      assert Slot(h, bs[i][j].0, |bs|) == i;
      assert b[j].0 == key;
      assert (key, Find(b, key).value) in multiset(Flatten(bs));
    }
  }

  /**
   No key occurs twice anywhere in the table: two positions holding the
   same key are the same position.
   */
  lemma KeysUnique<K, V>(h: K -> int, bs: seq<seq<(K, V)>>, m: map<K, V>, count: int,
                         i1: int, j1: int, i2: int, j2: int)
    requires Abstracts(h, bs, m, count)
    requires 0 <= i1 < |bs| && 0 <= j1 < |bs[i1]|
    requires 0 <= i2 < |bs| && 0 <= j2 < |bs[i2]|
    requires bs[i1][j1].0 == bs[i2][j2].0
    ensures i1 == i2 && j1 == j2
  {
    AbstractsGraph(h, bs, m, count);
    var E := multiset(Flatten(bs));
    assert Slot(h, bs[i1][j1].0, |bs|) == i1;
    assert Slot(h, bs[i2][j2].0, |bs|) == i2;
    var b := bs[i1];
    FlattenContains(bs, i1);
    assert b[j1] in E && b[j2] in E;
    assert b[j1] == b[j2];
    if j1 < j2 {
      CountedTwice(b, j1, j2);
    } else if j2 < j1 {
      CountedTwice(b, j2, j1);
    }
  }

  /** Inserting a new key appends one entry to its bucket, and the invariant carries over. */
  lemma InsertPreserves<K, V>(h: K -> int, bs: seq<seq<(K, V)>>, m: map<K, V>, count: int, key: K, value: V)
    requires Abstracts(h, bs, m, count)
    requires key !in m
    ensures Abstracts(h, bs[Slot(h, key, |bs|) := bs[Slot(h, key, |bs|)] + [(key, value)]], m[key := value], count + 1)
  {
    var i := Slot(h, key, |bs|);
    var b' := bs[i] + [(key, value)];
    PlacedUpdate(h, bs, i, b');
    AppendEntries(bs, i, (key, value));
    AbstractsGraph(h, bs, m, count);
    RepresentsInsert(multiset(Flatten(bs)), m, key, value);
    MapSize(m, key, value);
  }

  /** Appending an entry to one bucket adds exactly that entry to the whole. */
  lemma AppendEntries<K, V>(bs: seq<seq<(K, V)>>, i: int, e: (K, V))
    requires 0 <= i < |bs|
    ensures multiset(Flatten(bs[i := bs[i] + [e]])) == multiset(Flatten(bs)) + multiset{e}
  {
    var b' := bs[i] + [e];
    FlattenUpdate(bs, i, b');
    Rebalance(multiset(Flatten(bs[i := b'])), multiset(Flatten(bs)), multiset(bs[i]), multiset(b'),
              multiset{}, multiset{e});
  }

  /** Updating a present key rewrites its entry in place, and the invariant carries over. */
  lemma UpdatePreserves<K, V>(h: K -> int, bs: seq<seq<(K, V)>>, m: map<K, V>, count: int, key: K, value: V)
    requires Abstracts(h, bs, m, count)
    requires key in m
    ensures Abstracts(h, bs[Slot(h, key, |bs|) := SetValue(bs[Slot(h, key, |bs|)], key, value)], m[key := value], count)
  {
    var i := Slot(h, key, |bs|);
    var b := bs[i];
    var j := FirstPosition(h, bs, m, count, key);
    var b' := b[j := (key, value)];
    assert SetValue(b, key, value) == b' by {
      SetValueAt(b, key, j, value);
    }
    var bs' := bs[i := b'];
    var E, E' := multiset(Flatten(bs)), multiset(Flatten(bs'));
    assert Placed(h, bs') by {
      PlacedUpdate(h, bs, i, b');
    }
    assert E' + multiset{(key, m[key])} == E + multiset{(key, value)} by {
      FlattenUpdate(bs, i, b');
      ReplaceMultiset(b, j, (key, value));
      Rebalance(E', E, multiset(b), multiset(b'), multiset{(key, m[key])}, multiset{(key, value)});
    }
    assert Represents(E', m[key := value]) by {
      AbstractsGraph(h, bs, m, count);
      RepresentsUpdate(E, E', m, key, value);
    }
    assert |E'| + 1 == |E' + multiset{(key, m[key])}| == |E + multiset{(key, value)}| == |E| + 1;
    assert |Flatten(bs')| == |E'|;
    MapSize(m, key, value);
  }

  /** Removing a present key deletes its one entry, and the invariant carries over. */
  lemma RemovePreserves<K, V>(h: K -> int, bs: seq<seq<(K, V)>>, m: map<K, V>, count: int, key: K)
    requires Abstracts(h, bs, m, count)
    requires key in m
    ensures Abstracts(h, bs[Slot(h, key, |bs|) := Delete(bs[Slot(h, key, |bs|)], key)], m - {key}, count - 1)
  {
    var i := Slot(h, key, |bs|);
    var b := bs[i];
    var j := FirstPosition(h, bs, m, count, key);
    var b' := b[..j] + b[j + 1..];
    assert Delete(b, key) == b' by {
      DeleteAt(b, key, j);
    }
    var bs' := bs[i := b'];
    var E, E' := multiset(Flatten(bs)), multiset(Flatten(bs'));
    assert Placed(h, bs') by {
      PlacedUpdate(h, bs, i, b');
    }
    assert E' + multiset{(key, m[key])} == E by {
      FlattenUpdate(bs, i, b');
      RemoveAtMultiset(b, j);
      Rebalance(E', E, multiset(b), multiset(b'), multiset{(key, m[key])}, multiset{});
    }
    assert Represents(E', m - {key}) by {
      AbstractsGraph(h, bs, m, count);
      RepresentsRemove(E, E', m, key);
    }
    assert |E'| + 1 == |E' + multiset{(key, m[key])}| == |E|;
    assert |Flatten(bs')| == |E'|;
    MapSize(m, key, m[key]);
  }

  /** A present key sits at a first position of its own bucket, with its value. */
  lemma FirstPosition<K, V>(h: K -> int, bs: seq<seq<(K, V)>>, m: map<K, V>, count: int, key: K) returns (j: int)
    requires Abstracts(h, bs, m, count)
    requires key in m
    ensures 0 <= j < |bs[Slot(h, key, |bs|)]| && bs[Slot(h, key, |bs|)][j] == (key, m[key])
    ensures forall l :: 0 <= l < j ==> bs[Slot(h, key, |bs|)][l].0 != key
  {
    LookupAgrees(h, bs, m, count, key);
    j := FindPosition(bs[Slot(h, key, |bs|)], key);
  }

  /** `n` empty buckets. */
  function EmptyBuckets<K, V>(n: int): (r: seq<seq<(K, V)>>)
    requires n >= 0
    ensures |r| == n && forall i :: 0 <= i < n ==> r[i] == []
  {
    seq(n, _ => [])
  }

  /**
   The rehash of `_expand_table`: the entries of `entries`, taken in order,
   each appended to bucket `Slot(h, key, n)` of `n` initially empty buckets.
   */
  ghost function Distribute<K, V>(h: K -> int, entries: seq<(K, V)>, n: int): (r: seq<seq<(K, V)>>)
    requires n >= 1
    ensures |r| == n
  {
    if entries == [] then EmptyBuckets(n)
    else
      var e := entries[|entries| - 1];
      var r' := Distribute(h, entries[..|entries| - 1], n);
      var i := Slot(h, e.0, n);
      r'[i := r'[i] + [e]]
  }

  /** Walking one more entry of a bucket extends what has been walked by that entry. */
  lemma PrefixStep<T>(before: seq<T>, chain: seq<T>, j: int)
    requires 0 <= j < |chain|
    ensures before + chain[..j + 1] == before + chain[..j] + [chain[j]]
  {
    assert chain[..j + 1] == chain[..j] + [chain[j]];
  }

  /** One more entry lands at the end of its slot's bucket. */
  lemma DistributeStep<K, V>(h: K -> int, entries: seq<(K, V)>, e: (K, V), n: int)
    requires n >= 1
    ensures Distribute(h, entries + [e], n) ==
            Distribute(h, entries, n)[Slot(h, e.0, n) := Distribute(h, entries, n)[Slot(h, e.0, n)] + [e]]
  {
    assert (entries + [e])[..|entries|] == entries;
  }

  /** Redistribution keeps every entry exactly once and puts each in its slot for the new size. */
  lemma {:induction false} DistributeCorrect<K, V>(h: K -> int, entries: seq<(K, V)>, n: int)
    requires n >= 1
    ensures Placed(h, Distribute(h, entries, n))
    ensures multiset(Flatten(Distribute(h, entries, n))) == multiset(entries)
  {
    if entries == [] {
      FlattenEmpty(Distribute(h, entries, n));
    } else {
      var front, e := entries[..|entries| - 1], entries[|entries| - 1];
      DistributeCorrect(h, front, n);
      var r' := Distribute(h, front, n);
      var i := Slot(h, e.0, n);
      assert Distribute(h, entries, n) == r'[i := r'[i] + [e]];
      PlacedUpdate(h, r', i, r'[i] + [e]);
      AppendEntries(r', i, e);
      assert entries == front + [e];
      assert multiset(entries) == multiset(front) + multiset{e};
    }
  }

  /** Rehashing into any number of buckets keeps the invariant, the map and the count. */
  lemma RehashPreserves<K, V>(h: K -> int, bs: seq<seq<(K, V)>>, m: map<K, V>, count: int, n: int)
    requires Abstracts(h, bs, m, count)
    requires n >= 1
    ensures Abstracts(h, Distribute(h, Flatten(bs), n), m, count)
  {
    DistributeCorrect(h, Flatten(bs), n);
    var bs' := Distribute(h, Flatten(bs), n);
    assert |Flatten(bs')| == |multiset(Flatten(bs'))| == |multiset(Flatten(bs))| == |Flatten(bs)|;
  }

  // ---------------------------------------------------------------------------
  // The mutable table.
  // ---------------------------------------------------------------------------

  /**
   The walk along one bucket that `get`, `add` and `remove` share: the
   position of the first entry with `key`, or the bucket's length when there
   is none.
   */
  method Scan<K(==), V>(chain: seq<(K, V)>, key: K) returns (j: int)
    ensures 0 <= j <= |chain|
    ensures forall m :: 0 <= m < j ==> chain[m].0 != key
    ensures j < |chain| ==> chain[j].0 == key && Find(chain, key) == Some(chain[j].1)
    ensures j == |chain| <==> Find(chain, key).None?
  {
    j := 0;
    while j < |chain| && chain[j].0 != key
      invariant 0 <= j <= |chain|
      invariant forall m :: 0 <= m < j ==> chain[m].0 != key
    {
      j := j + 1;
    }
    if j < |chain| {
      FindAt(chain, key, j);
    }
  }

  /**
   The redistribution loop of `_expand_table`: walks the old buckets in
   order, and each bucket in its own order, appending every entry to its
   slot among `expandedSize` fresh buckets.
   */
  method Rehash<K, V>(hash: K -> int, table: seq<seq<(K, V)>>, expandedSize: int) returns (newBuckets: seq<seq<(K, V)>>)
    requires expandedSize >= 1
    ensures newBuckets == Distribute(hash, Flatten(table), expandedSize)
  {
    newBuckets := EmptyBuckets(expandedSize);
    var i := 0;
    while i < |table|
      invariant 0 <= i <= |table|
      invariant newBuckets == Distribute(hash, Flatten(table[..i]), expandedSize)
    {
      var chain := table[i];
      ghost var before := Flatten(table[..i]);
      assert before + chain[..0] == before;
      var j := 0;
      while j < |chain|
        invariant 0 <= j <= |chain|
        invariant newBuckets == Distribute(hash, before + chain[..j], expandedSize)
      {
        var (key, value) := chain[j];
        var newIdx := Slot(hash, key, expandedSize);
        DistributeStep(hash, before + chain[..j], (key, value), expandedSize);
        newBuckets := newBuckets[newIdx := newBuckets[newIdx] + [(key, value)]];
        PrefixStep(before, chain, j);
        j := j + 1;
      }
      assert chain[..|chain|] == chain;
      FlattenStep(table, i);
      i := i + 1;
    }
    assert table[..|table|] == table;
  }

  class HashTable<K(==), V> {
    /** The key hash, deterministic; it may return any integer. */
    const hash: K -> int
    /** One bucket per slot, each holding its entries oldest first. */
    var buckets: seq<seq<(K, V)>>
    /** The number of live entries. */
    var elementCount: nat
    /** The number of buckets. */
    var maxSize: nat

    /** The map the table stands for. */
    ghost var Contents: map<K, V>

    /** The representation invariant, without the load-factor bound. */
    ghost predicate WellFormed()
      reads this
    {
      |buckets| == maxSize && Abstracts(hash, buckets, Contents, elementCount)
    }

    /** The full invariant: well formed, and a load factor of at most 0.7. */
    ghost predicate Valid()
      reads this
    {
      WellFormed() && 10 * elementCount <= 7 * maxSize
    }

    /** A table of `initialSize` empty buckets. */
    constructor (hash: K -> int, initialSize: int := 10)
      requires initialSize >= 1
      ensures Valid()
      ensures this.hash == hash && maxSize == initialSize && elementCount == 0
      ensures Contents == map[]
      ensures forall i :: 0 <= i < maxSize ==> buckets[i] == []
    {
      this.hash := hash;
      maxSize := initialSize;
      elementCount := 0;
      buckets := EmptyBuckets(initialSize);
      Contents := map[];
      new;
      FlattenEmpty(buckets);
    }

    /** The bucket a key belongs to under the current number of buckets. */
    function GetIndex(key: K): (i: int)
      reads this
      requires maxSize >= 1
      ensures 0 <= i < maxSize
    {
      Slot(hash, key, maxSize)
    }

    /** The value stored with `key`, or `None`; the table is not changed. */
    method Get(key: K) returns (r: Option<V>)
      requires Valid()
      ensures r == Find(buckets[GetIndex(key)], key)
      ensures r == if key in Contents then Some(Contents[key]) else None
    {
      var bucketIdx := GetIndex(key);
      var chain := buckets[bucketIdx];
      LookupAgrees(hash, buckets, Contents, elementCount, key);
      var j := Scan(chain, key);
      if j == |chain| {
        return None;
      }
      return Some(chain[j].1);
    }

    /**
     Inserts or updates. A present key has its value replaced in place and
     nothing else changes; a new key is appended to its bucket and counted,
     and the table is then expanded exactly when the load factor exceeds 0.7.
     */
    method Add(key: K, value: V)
      requires Valid()
      modifies this
      ensures Valid()
      ensures Contents == old(Contents)[key := value]
      ensures key in old(Contents) ==>
                elementCount == old(elementCount) && maxSize == old(maxSize) &&
                buckets == old(buckets)[Slot(hash, key, old(maxSize)) := SetValue(old(buckets)[Slot(hash, key, old(maxSize))], key, value)]
      ensures key !in old(Contents) ==> elementCount == old(elementCount) + 1
      ensures key !in old(Contents) && 10 * elementCount <= 7 * old(maxSize) ==>
                maxSize == old(maxSize) &&
                buckets == old(buckets)[Slot(hash, key, old(maxSize)) := old(buckets)[Slot(hash, key, old(maxSize))] + [(key, value)]]
      ensures key !in old(Contents) && 10 * elementCount > 7 * old(maxSize) ==>
                maxSize == 2 * old(maxSize) &&
                buckets == Distribute(hash, Flatten(old(buckets)[Slot(hash, key, old(maxSize)) := old(buckets)[Slot(hash, key, old(maxSize))] + [(key, value)]]), maxSize)
    {
      var bucketIdx := GetIndex(key);
      var chain := buckets[bucketIdx];
      LookupAgrees(hash, buckets, Contents, elementCount, key);
      var j := Scan(chain, key);
      if j < |chain| {
        Replace(bucketIdx, j, key, value);
      } else {
        Append(key, value);
      }
    }

    /**
     The branch of `add` where the scan met `key` at position `j` of bucket
     `i`: that entry gets the new value in place.
     */
    method Replace(i: int, j: int, key: K, value: V)
      requires Valid()
      requires i == Slot(hash, key, maxSize)
      requires 0 <= j < |buckets[i]| && buckets[i][j].0 == key
      requires forall m :: 0 <= m < j ==> buckets[i][m].0 != key
      modifies this
      ensures Valid()
      ensures key in old(Contents)
      ensures Contents == old(Contents)[key := value]
      ensures elementCount == old(elementCount) && maxSize == old(maxSize)
      ensures buckets == old(buckets)[i := SetValue(old(buckets)[i], key, value)]
    {
      var chain := buckets[i];
      LookupAgrees(hash, buckets, Contents, elementCount, key);
      FindAt(chain, key, j);
      SetValueAt(chain, key, j, value);
      UpdatePreserves(hash, buckets, Contents, elementCount, key, value);
      buckets := buckets[i := chain[j := (key, value)]];
      Contents := Contents[key := value];
    }

    /**
     The rest of `add` once the scan found no entry with `key`: the entry
     goes at the end of its bucket, is counted, and the table doubles when
     the load factor has gone above 0.7.
     */
    method Append(key: K, value: V)
      requires Valid()
      requires key !in Contents
      modifies this
      ensures Valid()
      ensures Contents == old(Contents)[key := value]
      ensures elementCount == old(elementCount) + 1
      ensures 10 * elementCount <= 7 * old(maxSize) ==>
                maxSize == old(maxSize) &&
                buckets == old(buckets)[Slot(hash, key, old(maxSize)) := old(buckets)[Slot(hash, key, old(maxSize))] + [(key, value)]]
      ensures 10 * elementCount > 7 * old(maxSize) ==>
                maxSize == 2 * old(maxSize) &&
                buckets == Distribute(hash, Flatten(old(buckets)[Slot(hash, key, old(maxSize)) := old(buckets)[Slot(hash, key, old(maxSize))] + [(key, value)]]), maxSize)
    {
      var bucketIdx := GetIndex(key);
      InsertPreserves(hash, buckets, Contents, elementCount, key, value);
      buckets := buckets[bucketIdx := buckets[bucketIdx] + [(key, value)]];
      elementCount := elementCount + 1;
      Contents := Contents[key := value];
      if 10 * elementCount > 7 * maxSize {
        ExpandTable();
      }
    }

    /**
     Removes the entry with `key` and reports whether there was one. The
     number of buckets never shrinks.
     */
    method Remove(key: K) returns (removed: bool)
      requires Valid()
      modifies this
      ensures Valid()
      ensures removed <==> key in old(Contents)
      ensures Contents == old(Contents) - {key}
      ensures elementCount == if removed then old(elementCount) - 1 else old(elementCount)
      ensures maxSize == old(maxSize)
      ensures buckets == old(buckets)[Slot(hash, key, old(maxSize)) := Delete(old(buckets)[Slot(hash, key, old(maxSize))], key)]
    {
      var bucketIdx := GetIndex(key);
      var chain := buckets[bucketIdx];
      LookupAgrees(hash, buckets, Contents, elementCount, key);
      var j := Scan(chain, key);
      if j == |chain| {
        assert buckets == buckets[bucketIdx := chain];
        assert Contents - {key} == Contents;
        return false;
      }
      DeleteAt(chain, key, j);
      RemovePreserves(hash, buckets, Contents, elementCount, key);
      buckets := buckets[bucketIdx := chain[..j] + chain[j + 1..]];
      elementCount := elementCount - 1;
      Contents := Contents - {key};
      return true;
    }

    /**
     Doubles the number of buckets and redistributes every entry. The count
     and the map are unchanged. Runs only from `Append`, when the load
     factor has just gone above 0.7, so it requires the invariant without
     that bound.
     */
    method ExpandTable()
      requires WellFormed()
      modifies this
      ensures WellFormed()
      ensures maxSize == 2 * old(maxSize) && elementCount == old(elementCount) && Contents == old(Contents)
      ensures buckets == Distribute(hash, Flatten(old(buckets)), maxSize)
    {
      var expandedSize := maxSize * 2;
      RehashPreserves(hash, buckets, Contents, elementCount, expandedSize);
      var newBuckets := Rehash(hash, buckets, expandedSize);
      maxSize := expandedSize;
      buckets := newBuckets;
    }
  }
}
