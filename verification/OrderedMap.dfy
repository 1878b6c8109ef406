/** `OrderedMap` of src/map.rs: entries in insertion order, scanned while there are few of
    them and found through a bucket table once there are more. */
module OrderedMaps {
  import opened Bits
  import opened Wrappers
  import opened RobinHood
  import opened HashTables
  import opened AssocLists
  import opened MapScripts

  /** Entry count at or below which no table is built and lookups scan. */
  const LINEAR_MAX: nat := 8

  /** Whether a map of `n` entries has a table. */
  predicate Indexed(n: nat) {
    LINEAR_MAX < n <= MAX_INDEXED
  }

  datatype Found = Occupied(pos: nat) | Vacant(hash: Option<u32>)

  class OrderedMap<V(==)> {
    var entries: Entries<V>
    var table: HashTable?
    /** The map's hash function, whatever it is: nothing here depends on its quality. */
    const hashKey: Key -> u32
    /** Buckets placed by building and doubling tables, over the map's life; a new entry's own
        is not one of them. */
    ghost var moved: nat

    ghost function Repr(): set<object>
      reads this, table
    {
      if table == null then {this} else (var t: HashTable := table; {this, t, t.buckets})
    }

    /** Keys are distinct, a table exists exactly when the size calls for one, and it then
        describes every entry exactly once with its current hash. */
    ghost predicate Valid()
      reads this, table, if table == null then {} else {table.buckets}
    {
      && Distinct(entries)
      && (table != null <==> Indexed(|entries|))
      && (table != null ==> table.Valid(Hashes(entries, hashKey)))
    }

    constructor (hashKey: Key -> u32)
      ensures Valid() && fresh(Repr()) && this.hashKey == hashKey
      ensures entries == [] && moved == 0
    {
      this.hashKey := hashKey;
      entries := [];
      table := null;
      moved := 0;
    }

    method Clear()
      modifies this
      ensures Valid() && Repr() <= old(Repr()) && entries == [] && moved == old(moved)
    {
      entries := [];
      table := null;
    }

    // -------------------------------------------------------------------
    // Looking up
    // -------------------------------------------------------------------

    method Scan(key: Key) returns (r: Option<nat>)
      requires Distinct(entries)
      ensures r == Position(Keys(entries), key)
    {
      for i := 0 to |entries|
        invariant key !in Keys(entries)[..i]
      {
        if entries[i].0 == key {
          assert Keys(entries)[i] == key;
          PositionUnique(Keys(entries), i);
          return Some(i);
        }
        assert Keys(entries)[..i + 1] == Keys(entries)[..i] + [Keys(entries)[i]];
      }
      assert Keys(entries)[..|entries|] == Keys(entries);
      return None;
    }

    /** By scan or by probe, a key is found exactly where a scan of the entries finds it. */
    method Locate(key: Key) returns (r: Found)
      requires Valid()
      ensures r.Occupied? ==> Position(Keys(entries), key) == Some(r.pos)
      ensures r.Vacant? ==> key !in Keys(entries)
      ensures r.Vacant? && r.hash.Some? ==> r.hash.value == hashKey(key)
    {
      if table == null {
        var pos := Scan(key);
        return match pos case Some(p) => Occupied(p) case None => Vacant(None);
      }
      var hash := hashKey(key);
      var pos := table.Find(entries, key, hash, hashKey);
      match pos {
        case Some(p) =>
          assert Keys(entries)[p] == key;
          PositionUnique(Keys(entries), p);
          return Occupied(p);
        case None =>
          assert forall k | k in Keys(entries) :: k != key;
          return Vacant(Some(hash));
      }
    }

    /** A map that scans is small enough or too large to index. One that does not has a table
        of a size a table can have, within its load limit, that describes the entries bucket by
        bucket. */
    lemma IndexIsConsistent()
      requires Valid()
      ensures table == null ==> |entries| <= LINEAR_MAX || |entries| > MAX_INDEXED
      ensures table != null ==>
                && |entries| > LINEAR_MAX
                && Sized(table.buckets.Length) && |entries| <= LoadLimit(table.buckets.Length)
                && Consistent(table.Live(), Hashes(entries, hashKey))
                && forall i | |table.Live()| <= i < table.buckets.Length :: table.buckets[i] == VACANT
    {
      if table != null { IndexConsistent(table.Live(), Hashes(entries, hashKey)); }
    }

    /** A probe for each key in turn finds it where it is. */
    method FindEach() returns (found: seq<Option<nat>>)
      requires Valid() && table != null
      ensures |found| == |entries| && forall i | 0 <= i < |entries| :: found[i] == Some(i)
    {
      found := [];
      for i := 0 to |entries|
        invariant |found| == i && forall j | 0 <= j < i :: found[j] == Some(j)
      {
        var key := entries[i].0;
        var pos := table.Find(entries, key, hashKey(key), hashKey);
        assert pos.Some? && Keys(entries)[pos.value] == Keys(entries)[i];
        found := found + [pos];
      }
    }

    method Get(key: Key) returns (r: Option<V>)
      requires Valid()
      ensures r == Lookup(entries, key)
    {
      var found := Locate(key);
      return match found case Occupied(p) => Some(entries[p].1) case Vacant(_) => None;
    }

    /** Equality is over the entries, not over their order. */
    method Equals(other: OrderedMap<V>) returns (r: bool)
      requires Valid() && other.Valid()
      ensures r <==> ToMap(entries) == ToMap(other.entries)
    {
      hide ToMap, Lookup, Position, Distinct;
      MapsDiffer(entries, other.entries);
      if |entries| != |other.entries| { return false; }
      for i := 0 to |entries|
        invariant forall j | 0 <= j < i :: Lookup(other.entries, entries[j].0) == Some(entries[j].1)
      {
        var value := other.Get(entries[i].0);
        if value != Some(entries[i].1) { return false; }
      }
      SameSizeCover(entries, other.entries);
      return true;
    }

    // -------------------------------------------------------------------
    // Inserting
    // -------------------------------------------------------------------

    /** Append an entry whose key is known to be absent, and give it a bucket. */
    method PushNew(key: Key, value: V, hash: Option<u32>) returns (pos: nat)
      requires Valid() && key !in Keys(entries)
      requires hash.Some? ==> hash.value == hashKey(key)
      modifies Repr()
      ensures Valid() && fresh(Repr() - old(Repr()))
      ensures entries == old(entries) + [(key, value)] && pos == |old(entries)|
      ensures moved == old(moved) + Moves(old(|entries|), old(Buckets()))
      ensures Buckets() == BucketsAfter(old(|entries|), old(Buckets()))
    {
      hide Distinct, Sized, Ordered, Describes, LoadLimit;
      pos := |entries|;
      ghost var before := Hashes(entries, hashKey);
      entries := entries + [(key, value)];
      AppendKeepsDistinct(old(entries), key, value);
      HashesAppend(old(entries), key, value, hashKey);
      var len := |entries|;
      if len <= LINEAR_MAX {
      } else if len > MAX_INDEXED {
        table := null;
      } else if table != null {
        if len > LoadLimit(table.buckets.Length) {
          ghost var placed := table.placed;
          LimitGrows(table.buckets.Length);
          table.Grow(before);
          moved := moved + (table.placed - placed);
        }
        table.PlaceEntry(pos, if hash.Some? then hash.value else hashKey(entries[pos].0), before);
      } else {
        Reindex();
        SmallestTable(table.buckets.Length);
      }
    }

    /** Rebuild or discard the table, whatever the entries now are. */
    method Reindex()
      requires Distinct(entries)
      modifies this, table
      ensures Valid() && entries == old(entries) && fresh(Repr() - {this} - (if old(table) == null then {} else {old(table)}))
      ensures Indexed(|entries|) ==> table != null && Fitted(table.buckets.Length, |entries|)
      ensures moved == old(moved) + if Indexed(|entries|) then |entries| else 0
    {
      var len := |entries|;
      if len <= LINEAR_MAX || len > MAX_INDEXED {
        table := null;
      } else if table != null {
        ghost var placed := table.placed;
        table.Rebuild(entries, hashKey);
        moved := moved + (table.placed - placed);
      } else {
        table := new HashTable.Build(entries, hashKey);
        moved := moved + table.placed;
      }
    }

    /** The table's bucket count, or zero for a map that scans. */
    ghost function Buckets(): nat
      reads this, table
    {
      if table == null then 0 else table.buckets.Length
    }

    method Insert(key: Key, value: V) returns (previous: Option<V>)
      requires Valid()
      modifies Repr()
      ensures Valid() && fresh(Repr() - old(Repr()))
      ensures entries == Inserted(old(entries), key, value)
      ensures previous == Lookup(old(entries), key)
      ensures if key in Keys(old(entries)) then moved == old(moved) && Buckets() == old(Buckets())
              else moved == old(moved) + Moves(old(|entries|), old(Buckets()))
                   && Buckets() == BucketsAfter(old(|entries|), old(Buckets()))
    {
      var found := Locate(key);
      match found {
        case Occupied(pos) =>
          previous := Some(entries[pos].1);
          SetValue(pos, value);
        case Vacant(hash) =>
          previous := None;
          var _ := PushNew(key, value, hash);
      }
    }

    /** The entry for `key`, put to use according to whether it is occupied. */
    method Entry(key: Key, occupied: Use<V>, vacant: Option<V>) returns (answer: Option<V>)
      requires Valid()
      modifies Repr()
      ensures Valid() && fresh(Repr() - old(Repr()))
      ensures (entries, answer) == Apply(old(entries), Op.Entry(key, occupied, vacant))
    {
      hide Distinct, Position, Hashes, Apply, ApplyEntry;
      var found := Locate(key);
      EntryCases(entries, key, occupied, vacant);
      match found {
        case Vacant(hash) =>
          answer := vacant;
          if vacant.Some? { var _ := PushNew(key, vacant.value, hash); }
        case Occupied(pos) =>
          answer := UseOccupied(pos, occupied);
      }
    }

    /** What is done with an occupied entry. */
    method UseOccupied(pos: nat, occupied: Use<V>) returns (answer: Option<V>)
      requires Valid() && pos < |entries|
      modifies Repr()
      ensures Valid() && fresh(Repr() - old(Repr()))
      ensures (entries, answer) == Used(old(entries), pos, occupied)
    {
      answer := Some(entries[pos].1);
      match occupied {
        case Leave =>
        case Modify(f) =>
          answer := Some(f(entries[pos].1));
          SetValue(pos, answer.value);
        case Replace(value) => SetValue(pos, value);
        case Take => var _ := RemoveAt(pos);
      }
    }

    /** Write a value in place: no key moves, so the table describes the entries still. */
    method SetValue(pos: nat, value: V)
      requires Valid() && pos < |entries|
      modifies `entries
      ensures Valid() && entries == old(entries)[pos := (old(entries)[pos].0, value)]
    {
      entries := entries[pos := (entries[pos].0, value)];
      assert Keys(entries) == Keys(old(entries));
      HashesOfKeys(entries, old(entries), hashKey);
    }

    /** Insert every item in turn. Filling an empty map carries over at most two buckets
        for each entry it ends with, however many doublings that took. */
    method Extend(items: seq<(Key, V)>)
      requires Valid()
      modifies Repr()
      ensures Valid() && fresh(Repr() - old(Repr()))
      ensures entries == InsertedAll(old(entries), items)
      ensures old(entries) == [] ==> moved - old(moved) <= 2 * |entries|
    {
      ghost var filling := entries == [];
      assert filling ==> FillState(|entries|, Buckets(), 0);
      hide Distinct, Inserted, FillState, Sized, Describes, Ordered;
      for i := 0 to |items|
        invariant Valid() && fresh(Repr() - old(Repr()))
        invariant entries == InsertedAll(old(entries), items[..i])
        invariant filling ==> FillState(|entries|, Buckets(), moved - old(moved))
      {
        if filling {
          FillInserts(entries, items[i].0, items[i].1, Buckets(), moved - old(moved));
        }
        var _ := Insert(items[i].0, items[i].1);
        InsertedOneMore(old(entries), items, i);
      }
      assert items[..|items|] == items;
      if filling {
        FillIsLinear(|entries|, Buckets(), moved - old(moved));
      }
    }

    // -------------------------------------------------------------------
    // Removing and reordering
    // -------------------------------------------------------------------

    /** Remove the entry at `pos`, shifting the rest down and repairing the table. */
    method RemoveAt(pos: nat) returns (removed: (Key, V))
      requires Valid() && pos < |entries|
      modifies Repr()
      ensures Valid() && fresh(Repr() - old(Repr()))
      ensures removed == old(entries)[pos] && entries == Without(old(entries), pos)
    {
      removed := entries[pos];
      RemovedKeepsDistinct(entries, pos);
      if |entries| - 1 > LINEAR_MAX && table != null {
        ghost var hashes := Hashes(entries, hashKey);
        var bucket := table.BucketOf(entries, pos, hashKey);
        table.Forget(bucket, pos, hashes);
        entries := entries[..pos] + entries[pos + 1..];
        HashesOfRemoved(old(entries), pos, hashKey);
        return;
      }
      entries := entries[..pos] + entries[pos + 1..];
      Reindex();
    }

    method Remove(key: Key) returns (value: Option<V>)
      requires Valid()
      modifies Repr()
      ensures Valid() && fresh(Repr() - old(Repr()))
      ensures (entries, value) == Apply(old(entries), Op.Remove(key))
    {
      var found := Locate(key);
      match found {
        case Occupied(pos) =>
          var removed := RemoveAt(pos);
          value := Some(removed.1);
        case Vacant(_) =>
          value := None;
      }
    }

    /** Keep the entries `f` keeps, in order. */
    method Retain(f: Verdict<V>)
      requires Valid()
      modifies Repr()
      ensures Valid() && fresh(Repr() - old(Repr()))
      ensures entries == Retained(old(entries), f, 0)
    {
      ghost var all := entries;
      RetainedContents(entries, f, 0);
      var before := |entries|;
      entries := RetainMut(entries, f);
      if |entries| != before {
        Reindex();
      } else {
        NothingDropped(all, f, 0);
        HashesOfKeys(entries, all, hashKey);
      }
    }

    static lemma RetainedStep(left: Entries<V>, f: Verdict<V>, i: nat)
      requires left != []
      ensures Retained(left, f, i)
              == match f(i, left[0].0, left[0].1)
                 case Some(v) => [(left[0].0, v)] + Retained(left[1..], f, i + 1)
                 case None => Retained(left[1..], f, i + 1)
    {
    }

    /** The vector's own in-order `retain_mut`. */
    static method RetainMut(all: Entries<V>, f: Verdict<V>) returns (kept: Entries<V>)
      ensures kept == Retained(all, f, 0)
    {
      kept := [];
      for i := 0 to |all|
        invariant kept + Retained(all[i..], f, i) == Retained(all, f, 0)
      {
        ghost var left := all[i..];
        assert left[0] == all[i] && left[1..] == all[i + 1..];
        RetainedStep(left, f, i);
        hide Retained;
        match f(i, all[i].0, all[i].1) {
          case Some(v) => kept := kept + [(all[i].0, v)];
          case None =>
        }
      }
    }

    /** Reorder the entries by key. */
    method SortKeys()
      requires Valid()
      modifies Repr()
      ensures Valid() && fresh(Repr() - old(Repr()))
      ensures entries == Sorted(old(entries)) && multiset(entries) == multiset(old(entries))
      ensures forall i, j | 0 <= i < j < |entries| :: Precedes(entries[i].0, entries[j].0)
    {
      SortedRefines(entries);
      SortedIsInOrder(entries);
      entries := Sorted(entries);
      Reindex();
    }

    // -------------------------------------------------------------------
    // Every run
    // -------------------------------------------------------------------

    /** Any script of operations keeps the invariant and does what the list model does. */
    method Replay(ops: seq<Op<V>>) returns (answers: seq<Option<V>>)
      requires Valid()
      modifies Repr()
      ensures Valid() && fresh(Repr() - old(Repr()))
      ensures (entries, answers) == Run(old(entries), ops)
    {
      answers := [];
      for i := 0 to |ops|
        invariant Valid() && fresh(Repr() - old(Repr()))
        invariant (entries, answers) == Run(old(entries), ops[..i])
      {
        assert ops[..i + 1][..i] == ops[..i];
        var answer := Perform(ops[i]);
        answers := answers + [answer];
      }
      assert ops[..|ops|] == ops;
    }

    method Perform(op: Op<V>) returns (answer: Option<V>)
      requires Valid()
      modifies Repr()
      ensures Valid() && fresh(Repr() - old(Repr()))
      ensures (entries, answer) == Apply(old(entries), op)
    {
      answer := None;
      match op
      case Insert(k, v) => answer := Insert(k, v);
      case Get(k) => answer := Get(k);
      case Remove(k) => answer := Remove(k);
      case Extend(items) => Extend(items);
      case Entry(k, occupied, vacant) => answer := Entry(k, occupied, vacant);
      case Retain(f) => Retain(f);
      case SortKeys => SortKeys();
      case Clear => Clear();
    }
  }

  lemma EntryCases<V>(entries: Entries<V>, k: Key, occupied: Use<V>, vacant: Option<V>)
    ensures Apply(entries, Op.Entry(k, occupied, vacant)) ==
            match Position(Keys(entries), k)
            case None => if vacant.Some? then (entries + [(k, vacant.value)], vacant) else (entries, None)
            case Some(p) => Used(entries, p, occupied)
  {
  }

  lemma HashesOfKeys<V>(a: Entries<V>, b: Entries<V>, hashKey: Key -> u32)
    requires Keys(a) == Keys(b)
    ensures Hashes(a, hashKey) == Hashes(b, hashKey)
  {
    assert |a| == |Keys(a)| == |b|;
    forall i | 0 <= i < |a| ensures hashKey(a[i].0) == hashKey(b[i].0) {
      assert Keys(a)[i] == Keys(b)[i];
    }
  }

  lemma HashesAppend<V>(entries: Entries<V>, key: Key, value: V, hashKey: Key -> u32)
    ensures Hashes(entries + [(key, value)], hashKey) == Hashes(entries, hashKey) + [hashKey(key)]
  {
  }

  lemma HashesOfRemoved<V>(entries: Entries<V>, pos: nat, hashKey: Key -> u32)
    requires pos < |entries|
    ensures Hashes(Without(entries, pos), hashKey) == Without(Hashes(entries, hashKey), pos)
  {
  }

  lemma RemovedKeepsDistinct<V>(entries: Entries<V>, pos: nat)
    requires Distinct(entries) && pos < |entries|
    ensures Distinct(Without(entries, pos))
  {
    var keys := Keys(Without(entries, pos));
    assert forall i | 0 <= i < |keys| :: keys[i] == Keys(entries)[if i < pos then i else i + 1];
  }

  lemma AppendKeepsDistinct<V>(entries: Entries<V>, key: Key, value: V)
    requires Distinct(entries) && key !in Keys(entries)
    ensures Distinct(entries + [(key, value)])
  {
    assert Keys(entries + [(key, value)]) == Keys(entries) + [key];
  }

  // ---------------------------------------------------------------------
  // What filling costs
  // ---------------------------------------------------------------------

  /** Buckets carried over when a new key joins `n` entries indexed by `buckets` buckets. */
  function Moves(n: nat, buckets: nat): nat {
    if !Indexed(n + 1) then 0
    else if buckets == 0 then n + 1
    else if n + 1 > LoadLimit(buckets) then n
    else 0
  }

  function BucketsAfter(n: nat, buckets: nat): nat {
    if !Indexed(n + 1) then 0
    else if buckets == 0 then MIN_BUCKETS
    else if n + 1 > LoadLimit(buckets) then 2 * buckets
    else buckets
  }

  /** What filling an empty map has come to: all the work is in the first table and its
      doublings, and amounts to three quarters of the buckets there now are. */
  ghost predicate FillState(n: nat, buckets: nat, moved: int) {
    if n <= LINEAR_MAX then buckets == 0 && moved == 0
    else if n <= MAX_INDEXED then
      buckets >= MIN_BUCKETS && buckets % 16 == 0 && Fitted(buckets, n) && moved == LoadLimit(buckets) - 3
    else
      buckets == 0 && moved <= 2 * n
  }

  lemma FillStays(n: nat, buckets: nat, moved: int)
    requires FillState(n, buckets, moved)
    ensures FillState(n + 1, BucketsAfter(n, buckets), moved + Moves(n, buckets))
  {
    hide LoadLimit;
    if LINEAR_MAX < n <= MAX_INDEXED {
      var q := buckets / 16;
      LoadLimits(q);
      assert buckets == 16 * q && buckets / 2 == 8 * q && 2 * buckets == 32 * q && 2 * buckets / 2 == 16 * q;
    } else {
      LoadLimits(1);
      assert LoadLimit(MIN_BUCKETS) == 12;
    }
  }

  lemma LimitGrows(buckets: nat)
    requires Sized(buckets)
    ensures LoadLimit(2 * buckets) > LoadLimit(buckets)
  {
  }

  lemma LoadLimits(q: nat)
    ensures LoadLimit(16 * q) == 12 * q && LoadLimit(32 * q) == 24 * q && LoadLimit(8 * q) == 6 * q
  {
  }

  lemma FillIsLinear(n: nat, buckets: nat, moved: int)
    requires FillState(n, buckets, moved)
    ensures moved <= 2 * n
  {
    if Indexed(n) && buckets > MIN_BUCKETS {
      assert LoadLimit(buckets) == 2 * LoadLimit(buckets / 2);
    }
  }

  // ---------------------------------------------------------------------
  // What the filling test adds up
  // ---------------------------------------------------------------------

  /** The buckets of a map after `n` new keys. */
  function BucketsFilled(n: nat): nat {
    if n == 0 then 0 else BucketsAfter(n - 1, BucketsFilled(n - 1))
  }

  /** The entries there are after each insertion that changed the bucket count, added up. */
  function RebuiltEntries(n: nat): nat {
    if n == 0 then 0 else RebuiltEntries(n - 1) + if BucketsFilled(n) != BucketsFilled(n - 1) then n else 0
  }

  /** How often the bucket count changed. */
  function Rebuilds(n: nat): nat {
    if n == 0 then 0 else Rebuilds(n - 1) + if BucketsFilled(n) != BucketsFilled(n - 1) then 1 else 0
  }

  /** The first table has been doubled `k` times by the time it holds `n` entries. */
  predicate Doublings(n: nat, k: nat) {
    n <= 12 * Pow2(k) && if k == 0 then n > LINEAR_MAX else n > 12 * Pow2(k - 1)
  }

  /** What filling up to `n` keys has come to, `k` doublings being behind it. */
  predicate FilledTo(n: nat, k: nat) {
    BucketsFilled(n) == 16 * Pow2(k) && Rebuilds(n) == k + 1 && RebuiltEntries(n) == 12 * Pow2(k) - 3 + k
  }

  lemma {:induction false} FillingCounts(n: nat, k: nat)
    requires Doublings(n, k) && n <= MAX_INDEXED
    ensures FilledTo(n, k)
    decreases n
  {
    hide FilledTo;
    if n == LINEAR_MAX + 1 {
      FirstTable(k);
    } else if k > 0 && n == 12 * Pow2(k - 1) + 1 {
      HalfwayDoublings(n - 1, k - 1);
      FillingCounts(n - 1, k - 1);
      OneDoubled(n, k - 1);
    } else {
      FillingCounts(n - 1, k);
      OneKept(n, k);
    }
  }

  lemma FirstTable(k: nat)
    requires Doublings(LINEAR_MAX + 1, k)
    ensures FilledTo(LINEAR_MAX + 1, k)
  {
    NothingBuilt(LINEAR_MAX);
    OneMore(LINEAR_MAX + 1);
    assert BucketsFilled(LINEAR_MAX + 1) == MIN_BUCKETS;
  }

  lemma OneDoubled(n: nat, k: nat)
    requires n == 12 * Pow2(k) + 1 && n <= MAX_INDEXED && FilledTo(n - 1, k)
    ensures FilledTo(n, k + 1)
  {
    NextBuckets(n - 1, Pow2(k));
    OneMore(n);
    assert Pow2(k + 1) == 2 * Pow2(k);
    hide BucketsFilled, Rebuilds, RebuiltEntries, Pow2;
  }

  lemma OneKept(n: nat, k: nat)
    requires LINEAR_MAX + 1 < n <= 12 * Pow2(k) && n <= MAX_INDEXED && FilledTo(n - 1, k)
    ensures FilledTo(n, k)
  {
    NextBuckets(n - 1, Pow2(k));
    OneMore(n);
    hide BucketsFilled, Rebuilds, RebuiltEntries, Pow2;
  }

  lemma OneMore(n: nat)
    requires n > 0
    ensures var built := BucketsFilled(n) != BucketsFilled(n - 1);
            && RebuiltEntries(n) == RebuiltEntries(n - 1) + (if built then n else 0)
            && Rebuilds(n) == Rebuilds(n - 1) + (if built then 1 else 0)
  {
    hide BucketsFilled;
  }

  lemma NextBuckets(n: nat, q: nat)
    requires BucketsFilled(n) == 16 * q > 0 && LINEAR_MAX < n < MAX_INDEXED
    ensures BucketsFilled(n + 1) == if n + 1 > 12 * q then 32 * q else 16 * q
  {
    LoadLimits(q);
    hide LoadLimit;
  }

  lemma HalfwayDoublings(n: nat, k: nat)
    requires n == 12 * Pow2(k)
    ensures Doublings(n, k)
  {
    if k > 0 { assert Pow2(k) == 2 * Pow2(k - 1) && Pow2(k - 1) >= 1; }
  }

  lemma {:induction false} NothingBuilt(n: nat)
    requires n <= LINEAR_MAX
    ensures BucketsFilled(n) == 0 && Rebuilds(n) == 0 && RebuiltEntries(n) == 0
  {
    if n > 0 { NothingBuilt(n - 1); }
  }

  /** The sum is past twice the entries exactly when the last doubling is recent: when fewer
      than half of `k - 3` entries have come since the table it doubled was full. */
  lemma CountsPastTwice(n: nat, k: nat)
    requires Doublings(n, k) && n <= MAX_INDEXED
    ensures RebuiltEntries(n) > 2 * n <==> k > 0 && 2 * (n - LoadLimit(BucketsFilled(n) / 2)) < k - 3
    ensures Rebuilds(n) == k + 1 && Pow2(k) <= n
  {
    FillingCounts(n, k);
    var q := Pow2(k);
    LoadLimits(q);
    if k > 0 { assert q == 2 * Pow2(k - 1); }
    hide Pow2, LoadLimit, BucketsFilled, RebuiltEntries, Rebuilds;
    assert 16 * q / 2 == 8 * q;
  }

  /** The smallest map the sum is past twice of. */
  lemma PastTwiceAt385()
    ensures RebuiltEntries(385) == 771
    ensures forall n: nat | n < 385 :: RebuiltEntries(n) <= 2 * n
  {
    assert Pow2(5) == 32 && Pow2(6) == 64;
    FillingCounts(385, 6);
    forall n: nat | n < 385 ensures RebuiltEntries(n) <= 2 * n {
      if n <= LINEAR_MAX {
        NothingBuilt(n);
      } else {
        assert Pow2(3) == 8 && Pow2(4) == 16;
        var k := if n <= 12 then 0 else if n <= 24 then 1 else if n <= 48 then 2 else if n <= 96 then 3
                 else if n <= 192 then 4 else 5;
        FillingCounts(n, k);
      }
    }
  }

  /** One insertion of a fill, whether or not its key is new. */
  lemma FillInserts<V>(entries: Entries<V>, key: Key, value: V, buckets: nat, moved: int)
    requires FillState(|entries|, buckets, moved)
    ensures var n := |entries|;
            if key in Keys(entries) then FillState(|Inserted(entries, key, value)|, buckets, moved)
            else FillState(|Inserted(entries, key, value)|, BucketsAfter(n, buckets), moved + Moves(n, buckets))
  {
    FillStays(|entries|, buckets, moved);
  }

  lemma {:induction false} NothingDropped<V>(entries: Entries<V>, f: Verdict<V>, i: nat)
    requires |Retained(entries, f, i)| == |entries|
    ensures Keys(Retained(entries, f, i)) == Keys(entries)
  {
    if entries != [] {
      NothingDropped(entries[1..], f, i + 1);
      assert Keys(entries) == [entries[0].0] + Keys(entries[1..]);
    }
  }

  lemma {:induction false} DistinctCount(keys: seq<Key>)
    requires DistinctKeys(keys)
    ensures |set k | k in keys| == |keys|
  {
    if keys != [] {
      var init, last := keys[..|keys| - 1], keys[|keys| - 1];
      DistinctCount(init);
      assert keys == init + [last];
      assert last !in init;
      assert (set k | k in keys) == (set k | k in init) + {last};
    }
  }

  lemma SizeOfMap<V>(entries: Entries<V>)
    requires Distinct(entries)
    ensures |ToMap(entries)| == |entries|
  {
    DistinctCount(Keys(entries));
    assert ToMap(entries).Keys == set k | k in Keys(entries);
  }

  lemma KeysCover(a: seq<Key>, b: seq<Key>)
    requires DistinctKeys(a) && DistinctKeys(b) && |a| == |b|
    requires forall k | k in a :: k in b
    ensures forall k | k in b :: k in a
  {
    var sa, sb := set k | k in a, set k | k in b;
    DistinctCount(a);
    DistinctCount(b);
    SubsetOfSameSize(sa, sb);
    forall k | k in b ensures k in a {
      assert k in sb;
    }
  }

  lemma SameSizeCover<V>(a: Entries<V>, b: Entries<V>)
    requires Distinct(a) && Distinct(b) && |a| == |b|
    requires forall j | 0 <= j < |a| :: Lookup(b, a[j].0) == Some(a[j].1)
    ensures ToMap(a) == ToMap(b)
  {
    forall k | k in Keys(a) ensures k in Keys(b) && ToMap(b)[k] == ToMap(a)[k] {
      var j := Position(Keys(a), k).value;
      assert Lookup(b, a[j].0) == Some(a[j].1);
    }
    KeysCover(Keys(a), Keys(b));
  }

  lemma MapsDiffer<V>(a: Entries<V>, b: Entries<V>)
    requires Distinct(a) && Distinct(b)
    ensures |a| != |b| ==> ToMap(a) != ToMap(b)
    ensures forall j | 0 <= j < |a| :: Lookup(b, a[j].0) != Some(a[j].1) ==> ToMap(a) != ToMap(b)
  {
    SizeOfMap(a);
    SizeOfMap(b);
    forall j | 0 <= j < |a| && Lookup(b, a[j].0) != Some(a[j].1) ensures ToMap(a) != ToMap(b) {
      ToMapAt(a, j);
      LookupRefines(b, a[j].0);
    }
  }

  lemma SubsetOfSameSize<T>(a: set<T>, b: set<T>)
    requires a <= b && |a| == |b|
    ensures a == b
  {
    assert b == a + (b - a);
  }

  lemma SmallestTable(buckets: nat)
    requires Sized(buckets) && Fitted(buckets, LINEAR_MAX + 1)
    ensures buckets == MIN_BUCKETS
  {
    var k: nat :| buckets == Pow2(k);
    Pow2Values();
    if k < 4 { Pow2Monotone(k, 3); } else if k > 4 { Pow2Monotone(5, k); }
  }
}
