/** Ordered association lists: what a map that remembers insertion order means.

    A list of entries with distinct keys is read two ways, as the finite map it stands for
    and as the order its keys came in. Each operation is defined on the list, and proved to
    do to the map and to the order what a reference keeping those two apart would do. */
module AssocLists {
  import opened Bits
  import opened Wrappers
  import opened HashTables
  import opened RobinHood

  type Entries<V> = seq<(Key, V)>

  function Keys<V>(entries: Entries<V>): (r: seq<Key>)
    ensures |r| == |entries|
  {
    seq<Key>(|entries|, i requires 0 <= i < |entries| => entries[i].0)
  }

  ghost predicate DistinctKeys(keys: seq<Key>) {
    forall i, j | 0 <= i < j < |keys| :: keys[i] != keys[j]
  }

  ghost predicate Distinct<V>(entries: Entries<V>) {
    DistinctKeys(Keys(entries))
  }

  /** The first position of `key`. */
  function Position(keys: seq<Key>, key: Key): (r: Option<nat>)
    ensures r.Some? ==> r.value < |keys| && keys[r.value] == key && key !in keys[..r.value]
    ensures r.None? <==> key !in keys
  {
    if keys == [] then None
    else if keys[0] == key then Some(0)
    else match Position(keys[1..], key)
      case Some(p) =>
        assert keys[..p + 1] == [keys[0]] + keys[1..][..p];
        Some(p + 1)
      case None => None
  }

  lemma PositionUnique(keys: seq<Key>, p: nat)
    requires DistinctKeys(keys) && p < |keys|
    ensures Position(keys, keys[p]) == Some(p)
  {
  }

  /** The map a list stands for. */
  function ToMap<V>(entries: Entries<V>): map<Key, V> {
    map k | k in Keys(entries) :: entries[Position(Keys(entries), k).value].1
  }

  lemma ToMapAt<V>(entries: Entries<V>, i: nat)
    requires Distinct(entries) && i < |entries|
    ensures entries[i].0 in ToMap(entries) && ToMap(entries)[entries[i].0] == entries[i].1
  {
    assert Keys(entries)[i] in Keys(entries);
    PositionUnique(Keys(entries), i);
  }

  lemma ToMapIs<V>(entries: Entries<V>, m: map<Key, V>)
    requires Distinct(entries)
    requires m.Keys == set k | k in Keys(entries)
    requires forall i | 0 <= i < |entries| :: Keys(entries)[i] in m && m[entries[i].0] == entries[i].1
    ensures ToMap(entries) == m
  {
    forall k | k in m ensures ToMap(entries)[k] == m[k] {
      var i :| 0 <= i < |entries| && Keys(entries)[i] == k;
      ToMapAt(entries, i);
    }
  }

  // ---------------------------------------------------------------------
  // The operations, on the list
  // ---------------------------------------------------------------------

  function Lookup<V>(entries: Entries<V>, key: Key): Option<V> {
    match Position(Keys(entries), key)
    case Some(p) => Some(entries[p].1)
    case None => None
  }

  /** A duplicate keeps its place and takes the new value; a new key goes last. */
  function Inserted<V>(entries: Entries<V>, key: Key, value: V): Entries<V> {
    match Position(Keys(entries), key)
    case Some(p) => entries[p := (entries[p].0, value)]
    case None => entries + [(key, value)]
  }

  function InsertedAll<V>(entries: Entries<V>, items: seq<(Key, V)>): Entries<V> {
    if items == [] then entries
    else
      var last := items[|items| - 1];
      Inserted(InsertedAll(entries, items[..|items| - 1]), last.0, last.1)
  }

  lemma InsertedOneMore<V>(entries: Entries<V>, items: seq<(Key, V)>, i: nat)
    requires i < |items|
    ensures InsertedAll(entries, items[..i + 1]) == Inserted(InsertedAll(entries, items[..i]), items[i].0, items[i].1)
  {
    assert items[..i + 1][..i] == items[..i];
  }

  /** The last of a run of pairs last, or the first first. */
  lemma {:induction false} InsertedAllFirst<V>(entries: Entries<V>, items: seq<(Key, V)>)
    requires items != []
    ensures InsertedAll(entries, items) == InsertedAll(Inserted(entries, items[0].0, items[0].1), items[1..])
    decreases |items|
  {
    hide Inserted;
    if |items| > 1 {
      var front := items[..|items| - 1];
      InsertedAllFirst(entries, front);
      assert front[1..] == items[1..][..|items| - 2];
    }
  }

  function Removed<V>(entries: Entries<V>, key: Key): Entries<V> {
    match Position(Keys(entries), key)
    case Some(p) => Without(entries, p)
    case None => entries
  }

  /** What a retaining closure answers for the `i`th entry it is shown: the value the entry
      keeps, or `None` to drop it. The index lets the closure carry state between calls. */
  type Verdict<!V> = (nat, Key, V) -> Option<V>

  /** The entries `f` keeps, the first of `entries` being the `i`th it is shown. */
  function Retained<V>(entries: Entries<V>, f: Verdict<V>, i: nat): (r: Entries<V>)
    ensures |r| <= |entries|
  {
    if entries == [] then []
    else
      (match f(i, entries[0].0, entries[0].1)
       case Some(v) => [(entries[0].0, v)]
       case None => []) + Retained(entries[1..], f, i + 1)
  }

  // ---------------------------------------------------------------------
  // Sorting by key
  // ---------------------------------------------------------------------

  /** Byte-wise lexicographic order, which is how keys compare. */
  predicate KeyLess(a: Key, b: Key) {
    if b == [] then false
    else if a == [] then true
    else a[0] < b[0] || (a[0] == b[0] && KeyLess(a[1..], b[1..]))
  }

  lemma {:induction false} KeyLessTotal(a: Key, b: Key)
    ensures !(KeyLess(a, b) && KeyLess(b, a))
    ensures KeyLess(a, b) || KeyLess(b, a) || a == b
    ensures KeyLess(a, b) ==> a != b
  {
    if a != [] && b != [] && a[0] == b[0] {
      KeyLessTotal(a[1..], b[1..]);
      assert a == [a[0]] + a[1..] && b == [b[0]] + b[1..];
    }
  }

  lemma {:induction false} KeyLessTransitive(a: Key, b: Key, c: Key)
    requires KeyLess(a, b) && KeyLess(b, c)
    ensures KeyLess(a, c)
  {
    if a != [] && a[0] == b[0] == c[0] {
      KeyLessTransitive(a[1..], b[1..], c[1..]);
    }
  }

  /** `a` comes before `b`: it is the beginning of it, or holds the lesser byte where they
      first part. */
  ghost predicate Precedes(a: Key, b: Key) {
    || (|a| < |b| && a == b[..|a|])
    || exists i | 0 <= i < |a| && i < |b| :: a[..i] == b[..i] && a[i] < b[i]
  }

  lemma KeyLessIsPrecedes(a: Key, b: Key)
    ensures KeyLess(a, b) <==> Precedes(a, b)
  {
    if KeyLess(a, b) { LessPrecedes(a, b); }
    if |a| < |b| && a == b[..|a|] {
      PartedLess(a, b, |a|);
    } else if Precedes(a, b) {
      var i :| 0 <= i < |a| && i < |b| && a[..i] == b[..i] && a[i] < b[i];
      PartedLess(a, b, i);
    }
  }

  lemma {:induction false} LessPrecedes(a: Key, b: Key)
    requires KeyLess(a, b)
    ensures Precedes(a, b)
  {
    if a != [] && a[0] == b[0] {
      var a', b' := a[1..], b[1..];
      LessPrecedes(a', b');
      if |a'| < |b'| && a' == b'[..|a'|] {
        assert a == [a[0]] + a' == b[..|a|];
      } else {
        var i :| 0 <= i < |a'| && i < |b'| && a'[..i] == b'[..i] && a'[i] < b'[i];
        assert a[..i + 1] == [a[0]] + a'[..i] == b[..i + 1] && a[i + 1] < b[i + 1];
      }
    } else if a != [] {
      assert a[..0] == b[..0] && a[0] < b[0];
    }
  }

  /** Alike up to `i`, where `a` ends or holds the lesser byte. */
  lemma {:induction false} PartedLess(a: Key, b: Key, i: nat)
    requires i <= |a| && i < |b| && a[..i] == b[..i] && (i == |a| || a[i] < b[i])
    ensures KeyLess(a, b)
    decreases i
  {
    if i > 0 {
      assert a[..i][0] == b[..i][0];
      assert a[1..][..i - 1] == a[..i][1..] == b[..i][1..] == b[1..][..i - 1];
      PartedLess(a[1..], b[1..], i - 1);
    }
  }

  ghost predicate SortedKeys(keys: seq<Key>) {
    forall i, j | 0 <= i < j < |keys| :: KeyLess(keys[i], keys[j])
  }

  function Placed<V>(sorted: Entries<V>, e: (Key, V)): Entries<V> {
    if sorted == [] || KeyLess(e.0, sorted[0].0) then [e] + sorted
    else [sorted[0]] + Placed(sorted[1..], e)
  }

  function Sorted<V>(entries: Entries<V>): Entries<V> {
    if entries == [] then [] else Placed(Sorted(entries[1..]), entries[0])
  }

  function PlacedKey(sorted: seq<Key>, k: Key): seq<Key> {
    if sorted == [] || KeyLess(k, sorted[0]) then [k] + sorted
    else [sorted[0]] + PlacedKey(sorted[1..], k)
  }

  /** The order sorting gives a list of keys. */
  function SortedOrder(keys: seq<Key>): seq<Key> {
    if keys == [] then [] else PlacedKey(SortedOrder(keys[1..]), keys[0])
  }

  lemma {:induction false} KeysOfPlaced<V>(sorted: Entries<V>, e: (Key, V))
    ensures Keys(Placed(sorted, e)) == PlacedKey(Keys(sorted), e.0)
  {
    if sorted != [] && !KeyLess(e.0, sorted[0].0) {
      KeysOfPlaced(sorted[1..], e);
      assert Keys(sorted)[1..] == Keys(sorted[1..]);
      assert Keys(Placed(sorted, e)) == [sorted[0].0] + Keys(Placed(sorted[1..], e));
    } else {
      assert Keys([e] + sorted) == [e.0] + Keys(sorted);
    }
  }

  lemma {:induction false} KeysOfSorted<V>(entries: Entries<V>)
    ensures Keys(Sorted(entries)) == SortedOrder(Keys(entries))
  {
    if entries != [] {
      KeysOfSorted(entries[1..]);
      KeysOfPlaced(Sorted(entries[1..]), entries[0]);
      assert Keys(entries)[1..] == Keys(entries[1..]);
    }
  }

  lemma {:induction false} PlacedPermutes<V>(sorted: Entries<V>, e: (Key, V))
    ensures multiset(Placed(sorted, e)) == multiset(sorted) + multiset{e}
    ensures |Placed(sorted, e)| == |sorted| + 1
  {
    if sorted != [] && !KeyLess(e.0, sorted[0].0) {
      PlacedPermutes(sorted[1..], e);
      assert sorted == [sorted[0]] + sorted[1..];
    }
  }

  lemma {:induction false} SortedPermutes<V>(entries: Entries<V>)
    ensures multiset(Sorted(entries)) == multiset(entries) && |Sorted(entries)| == |entries|
  {
    if entries != [] {
      SortedPermutes(entries[1..]);
      PlacedPermutes(Sorted(entries[1..]), entries[0]);
      assert entries == [entries[0]] + entries[1..];
    }
  }

  lemma PlacedKeyMembers(sorted: seq<Key>, k: Key)
    ensures forall x :: x in PlacedKey(sorted, k) <==> x == k || x in sorted
  {
  }

  lemma {:induction false} PlacedKeySorted(sorted: seq<Key>, k: Key)
    requires SortedKeys(sorted) && k !in sorted
    ensures SortedKeys(PlacedKey(sorted, k))
  {
    if sorted == [] {
    } else if KeyLess(k, sorted[0]) {
      forall x | x in sorted ensures KeyLess(k, x) {
        if x != sorted[0] { KeyLessTransitive(k, sorted[0], x); }
      }
      ConsSorted(k, sorted);
    } else {
      PlacedKeySorted(sorted[1..], k);
      PlacedKeyMembers(sorted[1..], k);
      KeyLessTotal(k, sorted[0]);
      ConsSorted(sorted[0], PlacedKey(sorted[1..], k));
    }
  }

  lemma ConsSorted(k: Key, rest: seq<Key>)
    requires SortedKeys(rest) && forall x | x in rest :: KeyLess(k, x)
    ensures SortedKeys([k] + rest)
  {
  }

  lemma {:induction false} SortedOrderIsSorted(keys: seq<Key>)
    requires DistinctKeys(keys)
    ensures SortedKeys(SortedOrder(keys))
    ensures forall x :: x in SortedOrder(keys) <==> x in keys
  {
    if keys != [] {
      SortedOrderIsSorted(keys[1..]);
      PlacedKeyMembers(SortedOrder(keys[1..]), keys[0]);
      PlacedKeySorted(SortedOrder(keys[1..]), keys[0]);
    }
  }

  /** What sorting leaves: the same entries, each key before the next. */
  lemma SortedIsInOrder<V>(entries: Entries<V>)
    requires Distinct(entries)
    ensures multiset(Sorted(entries)) == multiset(entries)
    ensures forall i, j | 0 <= i < j < |Sorted(entries)| :: Precedes(Sorted(entries)[i].0, Sorted(entries)[j].0)
  {
    var sorted := Sorted(entries);
    SortedPermutes(entries);
    KeysOfSorted(entries);
    SortedOrderIsSorted(Keys(entries));
    forall i, j | 0 <= i < j < |sorted| ensures Precedes(sorted[i].0, sorted[j].0) {
      assert KeyLess(Keys(sorted)[i], Keys(sorted)[j]);
      KeyLessIsPrecedes(sorted[i].0, sorted[j].0);
    }
  }

  lemma SortedMeansDistinct(keys: seq<Key>)
    requires SortedKeys(keys)
    ensures DistinctKeys(keys)
  {
    forall i, j | 0 <= i < j < |keys| ensures keys[i] != keys[j] {
      KeyLessTotal(keys[i], keys[j]);
    }
  }

  /** There is one sorted arrangement, so an unstable sort has nothing to choose. */
  lemma {:induction false} SortedUnique<V>(a: Entries<V>, b: Entries<V>)
    requires SortedKeys(Keys(a)) && SortedKeys(Keys(b)) && multiset(a) == multiset(b)
    ensures a == b
  {
    hide KeyLess;
    assert |a| == |multiset(a)| == |multiset(b)| == |b|;
    if a != [] {
      var x, y := a[1..], b[1..];
      FirstIsLeast(a, b);
      FirstIsLeast(b, a);
      KeyLessTotal(a[0].0, b[0].0);
      TailSorted(a);
      TailSorted(b);
      assert a == [a[0]] + x && b == [b[0]] + y;
      assert multiset(x) == multiset(a) - multiset{a[0]} == multiset(b) - multiset{b[0]} == multiset(y);
      SortedUnique(x, y);
    }
  }

  lemma TailSorted<V>(a: Entries<V>)
    requires a != [] && SortedKeys(Keys(a))
    ensures SortedKeys(Keys(a[1..]))
  {
    assert forall i | 0 <= i < |a| - 1 :: Keys(a[1..])[i] == Keys(a)[i + 1];
  }

  lemma FirstIsLeast<V>(a: Entries<V>, b: Entries<V>)
    requires a != [] && b != [] && SortedKeys(Keys(a)) && multiset(a) == multiset(b)
    ensures b[0] == a[0] || KeyLess(a[0].0, b[0].0)
  {
    assert b[0] in multiset(a);
    var i :| 0 <= i < |a| && a[i] == b[0];
    assert i == 0 || KeyLess(Keys(a)[0], Keys(a)[i]);
  }

  // ---------------------------------------------------------------------
  // What the operations do to the map and to the order
  // ---------------------------------------------------------------------

  lemma LookupRefines<V>(entries: Entries<V>, key: Key)
    requires Distinct(entries)
    ensures Lookup(entries, key) == if key in ToMap(entries) then Some(ToMap(entries)[key]) else None
  {
  }

  lemma InsertedRefines<V>(entries: Entries<V>, key: Key, value: V)
    requires Distinct(entries)
    ensures var r := Inserted(entries, key, value);
            && Distinct(r)
            && ToMap(r) == ToMap(entries)[key := value]
            && Keys(r) == if key in Keys(entries) then Keys(entries) else Keys(entries) + [key]
  {
    var keys, r := Keys(entries), Inserted(entries, key, value);
    assert Keys(r) == if key in keys then keys else keys + [key];
    forall i | 0 <= i < |r|
      ensures Keys(r)[i] in ToMap(entries)[key := value] && ToMap(entries)[key := value][r[i].0] == r[i].1
    {
      if i < |entries| {
        ToMapAt(entries, i);
        PositionUnique(keys, i);
      }
    }
    ToMapIs(r, ToMap(entries)[key := value]);
  }

  lemma RemovedAtRefines<V>(entries: Entries<V>, p: nat)
    requires Distinct(entries) && p < |entries|
    ensures var r := Without(entries, p);
            && Distinct(r)
            && ToMap(r) == ToMap(entries) - {entries[p].0}
            && Keys(r) == Keys(entries)[..p] + Keys(entries)[p + 1..]
  {
    var keys, r := Keys(entries), Without(entries, p);
    assert Keys(r) == keys[..p] + keys[p + 1..];
    hide Position, ToMap, Without;
    RemovedKeys(keys, p);
    var m := ToMap(entries) - {entries[p].0};
    forall i | 0 <= i < |r| ensures Keys(r)[i] in m && m[r[i].0] == r[i].1 {
      RemovedEntry(entries, p, i);
    }
    KeysButOne(entries, p);
    ToMapIs(r, m);
  }

  lemma RemovedEntry<V>(entries: Entries<V>, p: nat, i: nat)
    requires Distinct(entries) && p < |entries| && i < |Without(entries, p)|
    ensures var (k, v), m := Without(entries, p)[i], ToMap(entries);
            k == Keys(Without(entries, p))[i] && k != entries[p].0 && k in m && m[k] == v
  {
    var j := if i < p then i else i + 1;
    assert Without(entries, p)[i] == entries[j] && Keys(entries)[j] != Keys(entries)[p];
    ToMapAt(entries, j);
  }

  lemma KeysButOne<V>(entries: Entries<V>, p: nat)
    requires Distinct(entries) && p < |entries|
    ensures (ToMap(entries) - {entries[p].0}).Keys == set k | k in Keys(Without(entries, p))
  {
    var keys := Keys(entries);
    RemovedKeys(keys, p);
    assert Keys(Without(entries, p)) == keys[..p] + keys[p + 1..];
    assert ToMap(entries).Keys == set k | k in keys;
  }

  lemma RemovedKeys(keys: seq<Key>, p: nat)
    requires DistinctKeys(keys) && p < |keys|
    ensures var r := keys[..p] + keys[p + 1..];
            DistinctKeys(r) && forall k :: k in r <==> k in keys && k != keys[p]
  {
    var r := keys[..p] + keys[p + 1..];
    forall k | k in keys && k != keys[p] ensures k in r {
      var i :| 0 <= i < |keys| && keys[i] == k;
      assert r[if i < p then i else i - 1] == k;
    }
  }

  lemma SortedRefines<V>(entries: Entries<V>)
    requires Distinct(entries)
    ensures var r := Sorted(entries);
            && SortedKeys(Keys(r)) && Distinct(r)
            && ToMap(r) == ToMap(entries)
            && Keys(r) == SortedOrder(Keys(entries))
  {
    var r := Sorted(entries);
    SortedPermutes(entries);
    KeysOfSorted(entries);
    SortedOrderIsSorted(Keys(entries));
    SortedMeansDistinct(Keys(r));
    forall i | 0 <= i < |r| ensures Keys(r)[i] in ToMap(entries) && ToMap(entries)[r[i].0] == r[i].1 {
      assert r[i] in multiset(entries);
      var j :| 0 <= j < |entries| && entries[j] == r[i];
      ToMapAt(entries, j);
    }
    ToMapIs(r, ToMap(entries));
  }
}
