/** The bucket table behind an ordered map: `HashTable` of src/map.rs. */
module HashTables {
  import opened Bits
  import opened RobinHood
  import opened Wrappers

  /** The UTF-8 bytes of a key. */
  type Key = seq<u8>

  const MIN_BUCKETS: nat := 16

  /** Widest map a table can address, a bucket storing its entry's position as a `u32`. */
  const MAX_INDEXED: nat := TWO_TO_THE_32 - 1

  function LoadLimit(buckets: nat): nat {
    buckets / 4 * 3
  }

  /** A bucket count a table can have: a power of two, and at least the smallest one. */
  ghost predicate Sized(buckets: nat) {
    IsPow2(buckets) && buckets >= MIN_BUCKETS
  }

  /** How many buckets a probe can reach. The mask is a `u32`, so a table of more than
      `2^32` buckets is only ever addressed in its first `2^32`. */
  function Ring(buckets: nat): (r: nat)
    requires buckets > 0
    ensures 1 <= r <= TWO_TO_THE_32
  {
    (buckets - 1) % TWO_TO_THE_32 + 1
  }

  lemma {:induction false} RingIsPow2(buckets: nat) returns (k: nat)
    requires Sized(buckets)
    ensures k <= 32 && Ring(buckets) == Pow2(k) >= MIN_BUCKETS
    ensures Ring(buckets) == if buckets <= TWO_TO_THE_32 then buckets else TWO_TO_THE_32
  {
    var n: nat :| buckets == Pow2(n);
    Pow2Values();
    if n <= 32 {
      k := n;
      Pow2Monotone(n, 32);
    } else {
      k := 32;
      Pow2Monotone(32, n);
      Pow2Add(n - 32, 32);
      ModuloUnique(buckets - 1, TWO_TO_THE_32, Pow2(n - 32) - 1, TWO_TO_THE_32 - 1);
    }
  }

  lemma CyclicDifference(m: nat, at: nat, ideal: nat)
    requires at < m && ideal < m
    ensures (at - ideal) % m == Gap(m, ideal, at)
  {
    if at < ideal {
      ModuloUnique(at - ideal, m, -1, at - ideal + m);
    } else {
      ModuloUnique(at - ideal, m, 0, at - ideal);
    }
  }

  lemma CyclicNext(m: nat, at: nat)
    requires at < m
    ensures (at + 1) % m == Next(m, at)
  {
    if at + 1 == m { ModuloUnique(m, m, 1, 0); } else { ModuloUnique(at + 1, m, 0, at + 1); }
  }

  function Mask(buckets: nat): u32
    requires buckets > 0
  {
    (buckets - 1) % TWO_TO_THE_32
  }

  function WrappingAdd(a: u32, b: u32): u32 { (a + b) % TWO_TO_THE_32 }

  function WrappingSub(a: u32, b: u32): u32 { (a - b) % TWO_TO_THE_32 }

  /** Masked, wrapping `u32` steps are the cyclic steps of the ring. */
  lemma MaskedIsCyclic(buckets: nat, at: u32, hash: u32)
    requires Sized(buckets) && at < Ring(buckets)
    ensures And(hash, Mask(buckets)) == hash % Ring(buckets)
    ensures And(WrappingSub(at, hash % Ring(buckets)), Mask(buckets)) == Distance(Ring(buckets), at, hash)
    ensures And(WrappingAdd(at, 1), Mask(buckets)) == Next(Ring(buckets), at)
  {
    var k := RingIsPow2(buckets);
    assert Mask(buckets) == Pow2(k) - 1;
    MaskIsModulo(hash, k);
    MaskedDifference(k, at, hash % Pow2(k));
    MaskedNext(k, at);
  }

  lemma MaskedDifference(k: nat, at: u32, ideal: u32)
    requires k <= 32 && at < Pow2(k) && ideal < Pow2(k)
    ensures And(WrappingSub(at, ideal), Pow2(k) - 1) == Gap(Pow2(k), ideal, at)
  {
    MaskIsModulo(WrappingSub(at, ideal), k);
    WrapThenModulo(at - ideal, k);
    CyclicDifference(Pow2(k), at, ideal);
  }

  lemma MaskedNext(k: nat, at: u32)
    requires k <= 32 && at < Pow2(k)
    ensures And(WrappingAdd(at, 1), Pow2(k) - 1) == Next(Pow2(k), at)
  {
    MaskIsModulo(WrappingAdd(at, 1), k);
    WrapThenModulo(at + 1, k);
    CyclicNext(Pow2(k), at);
  }

  /** The smallest doubling of `MIN_BUCKETS` that holds `entries` under the load limit. */
  method BucketsFor(entries: nat) returns (buckets: nat)
    ensures Sized(buckets)
    ensures entries <= LoadLimit(buckets)
    ensures buckets == MIN_BUCKETS || entries > LoadLimit(buckets / 2)
  {
    buckets := MIN_BUCKETS;
    Pow2Values();
    ghost var k := 4;
    while entries > LoadLimit(buckets)
      invariant buckets == Pow2(k) >= MIN_BUCKETS
      invariant buckets == MIN_BUCKETS || entries > LoadLimit(buckets / 2)
      decreases entries - LoadLimit(buckets)
    {
      buckets := buckets * 2;
      k := k + 1;
      assert buckets == Pow2(k);
    }
  }

  /** Neither too few buckets for `entries` nor twice as many as that takes. */
  ghost predicate Fitted(buckets: nat, entries: nat) {
    && entries <= LoadLimit(buckets)
    && (buckets == MIN_BUCKETS || entries > LoadLimit(buckets / 2))
  }

  /** The load limit leaves at least one bucket a probe can reach vacant. */
  lemma LoadBelowRing(buckets: nat, entries: nat)
    requires Sized(buckets) && entries <= LoadLimit(buckets) && entries <= MAX_INDEXED
    ensures entries < Ring(buckets) && Ring(buckets) <= Ring(2 * buckets)
  {
    var k := RingIsPow2(buckets);
    DoublingIsSized(buckets);
    var k2 := RingIsPow2(2 * buckets);
  }

  lemma DoublingIsSized(buckets: nat)
    requires Sized(buckets)
    ensures Sized(2 * buckets)
  {
    var k: nat :| buckets == Pow2(k);
    assert 2 * buckets == Pow2(k + 1);
  }

  function Hashes<V>(entries: seq<(Key, V)>, hashKey: Key -> u32): (r: seq<u32>)
    ensures |r| == |entries|
  {
    seq<u32>(|entries|, i requires 0 <= i < |entries| => hashKey(entries[i].0))
  }

  /** A probe for `key` has met an occupied bucket at each of its first `t` steps, and none
      of them was the key's. */
  ghost predicate PassedBy<V>(b: seq<Bucket>, entries: seq<(Key, V)>, key: Key, hash: u32, t: nat)
    requires 0 < |b| && t <= |b|
  {
    forall s: nat | s < t ::
      var x := b[Ahead(|b|, hash % |b|, s)];
      !x.IsEmpty() && !(x.hash == hash && x.index < |entries| && entries[x.index].0 == key)
  }

  /** Stopping at an empty bucket, or at one nearer home than the probe has travelled,
      proves the key absent. */
  lemma MissIsFinal<V>(b: seq<Bucket>, entries: seq<(Key, V)>, hashKey: Key -> u32, key: Key, t: nat)
    requires Ordered(b) && Describes(b, Hashes(entries, hashKey)) && t < |b|
    requires PassedBy(b, entries, key, hashKey(key), t)
    requires var x := Ahead(|b|, hashKey(key) % |b|, t); b[x].IsEmpty() || D(b, x) < t
    ensures forall i | 0 <= i < |entries| :: entries[i].0 != key
  {
    forall i | 0 <= i < |entries| ensures entries[i].0 != key {
      if entries[i].0 == key {
        var a := HoldsEntry(b, Hashes(entries, hashKey), i);
        assert Ahead(|b|, hashKey(key) % |b|, D(b, a)) == a;
        if t <= D(b, a) {
          ProbeGoesOn(b, a, t);
        }
      }
    }
  }

  lemma ProbeNeverLaps<V>(b: seq<Bucket>, entries: seq<(Key, V)>, hashKey: Key -> u32, key: Key, t: nat)
    requires Describes(b, Hashes(entries, hashKey)) && t <= |b|
    requires PassedBy(b, entries, key, hashKey(key), t)
    ensures t < |b|
  {
    var e := HasVacancy(b, Hashes(entries, hashKey));
    var home := hashKey(key) % |b|;
    assert Ahead(|b|, home, Gap(|b|, home, e)) == e;
  }

  /** An entry at the bucket its hash asks for has gone no distance and may stand there. */
  lemma AtHome(b: seq<Bucket>, at: u32, entry: Bucket, e: nat)
    requires |b| >= MIN_BUCKETS && at == entry.hash % |b| && !entry.IsEmpty()
    requires e < |b| && b[e] == VACANT && Ordered(b) && Clean(b)
    ensures Carrying(b, at, entry, e, multiset(b) + multiset{entry}) && Distance(|b|, at, entry.hash) == 0
  {
  }

  /** One turn of a displacement chain: `x` goes into the bucket at `at` if what is there is
      nearer home, and one or the other goes on. */
  lemma Turn(b: seq<Bucket>, at: nat, x: Bucket, e: nat, all: multiset<Bucket>)
    requires Carrying(b, at, x, e, all) && !b[at].IsEmpty()
    ensures var nx, theirs, mine := Next(|b|, at), Distance(|b|, at, b[at].hash), Distance(|b|, at, x.hash);
            && nx < |b| && Gap(|b|, nx, e) < Gap(|b|, at, e)
            && (theirs < mine ==>
                  Carrying(b[at := x], nx, b[at], e, all) && Distance(|b|, nx, b[at].hash) == theirs + 1)
            && (theirs >= mine ==> Carrying(b, nx, x, e, all) && Distance(|b|, nx, x.hash) == mine + 1)
  {
    hide Carrying, Distance, Gap;
    CarryingIsPlaced(b, at, x, e, all);
    if D(b, at) < Distance(|b|, at, x.hash) { SwapStep(b, at, x, e, all); } else { PassStep(b, at, x, e, all); }
  }

  lemma CarryingIsPlaced(b: seq<Bucket>, at: nat, x: Bucket, e: nat, all: multiset<Bucket>)
    requires Carrying(b, at, x, e, all)
    ensures at < |b| && e < |b| && !x.IsEmpty()
  {
  }

  lemma BeginPulling(b: seq<Bucket>, at: nat, e: nat)
    requires |b| >= MIN_BUCKETS && Occupied(b, at) && e < |b| && b[e] == VACANT && Ordered(b)
    ensures Pulling(b, at, e, multiset(b) - multiset{b[at]})
  {
    hide Ordered;
  }

  class HashTable {
    var buckets: array<Bucket>
    /** Buckets placed since the table was made: how often `Place` has been called. */
    ghost var placed: nat

    // -------------------------------------------------------------------
    // Addressing, in the table's own u32 arithmetic
    // -------------------------------------------------------------------

    /** The bucket a hash asks for, before any probing. */
    method Ideal(hash: u32) returns (r: u32)
      requires Sized(buckets.Length)
      ensures r == hash % Ring(buckets.Length)
    {
      MaskedIsCyclic(buckets.Length, 0, hash);
      r := And(hash, Mask(buckets.Length));
    }

    /** How far the bucket at `at` sits from the one its hash asked for. */
    method DistanceAt(at: u32, hash: u32) returns (r: u32)
      requires Sized(buckets.Length) && at < Ring(buckets.Length)
      ensures r == Distance(Ring(buckets.Length), at, hash)
    {
      MaskedIsCyclic(buckets.Length, at, hash);
      var ideal := Ideal(hash);
      r := And(WrappingSub(at, ideal), Mask(buckets.Length));
    }

    /** The next bucket in a probe, wrapping at the end of the table. */
    method NextAt(at: u32) returns (r: u32)
      requires Sized(buckets.Length) && at < Ring(buckets.Length)
      ensures r == Next(Ring(buckets.Length), at)
    {
      MaskedIsCyclic(buckets.Length, at, 0);
      r := And(WrappingAdd(at, 1), Mask(buckets.Length));
    }

    // -------------------------------------------------------------------
    // The invariant
    // -------------------------------------------------------------------

    /** The buckets a probe can reach. */
    ghost function Live(): (r: seq<Bucket>)
      requires buckets.Length > 0
      reads `buckets, buckets
      ensures |r| == Ring(buckets.Length) <= buckets.Length
    {
      assert Ring(buckets.Length) <= buckets.Length;
      buckets[..Ring(buckets.Length)]
    }

    ghost predicate Framed()
      reads `buckets, buckets
    {
      && Sized(buckets.Length)
      && forall i | Ring(buckets.Length) <= i < buckets.Length :: buckets[i] == VACANT
    }

    ghost predicate Shaped()
      reads `buckets, buckets
    {
      Framed() && Ordered(Live())
    }

    /** The table describes the entries whose hashes, in order, are `hashes`. */
    ghost predicate Valid(hashes: seq<u32>)
      reads `buckets, buckets
    {
      && Shaped()
      && Describes(Live(), hashes)
      && |hashes| <= LoadLimit(buckets.Length)
    }

    // -------------------------------------------------------------------
    // Looking up
    // -------------------------------------------------------------------

    method Find<V>(entries: seq<(Key, V)>, key: Key, hash: u32, ghost hashKey: Key -> u32)
      returns (r: Option<nat>)
      requires hash == hashKey(key)
      requires Valid(Hashes(entries, hashKey))
      ensures r.Some? ==> r.value < |entries| && entries[r.value].0 == key
      ensures r.None? ==> forall i | 0 <= i < |entries| :: entries[i].0 != key
    {
      ghost var b, hashes := Live(), Hashes(entries, hashKey);
      ghost var m := |b|;
      var at: u32 := Ideal(hash);
      var travelled: u32 := 0;
      ghost var home := at;
      while true
        invariant travelled < m && at == Ahead(m, home, travelled)
        invariant PassedBy(b, entries, key, hash, travelled)
        decreases m - travelled
      {
        var bucket := buckets[at];
        assert bucket == b[at];
        var theirs := DistanceAt(at, bucket.hash);
        if bucket.IsEmpty() || theirs < travelled {
          MissIsFinal(b, entries, hashKey, key, travelled);
          return None;
        }
        Member(b, hashes, bucket);
        if bucket.hash == hash {
          var pos := bucket.index;
          if entries[pos].0 == key {
            return Some(pos);
          }
        }
        ProbeNeverLaps(b, entries, hashKey, key, travelled + 1);
        at := NextAt(at);
        travelled := travelled + 1;
      }
    }

    /** The bucket holding the entry at `pos`. */
    method BucketOf<V>(entries: seq<(Key, V)>, pos: u32, hashKey: Key -> u32) returns (at: u32)
      requires Valid(Hashes(entries, hashKey)) && pos < |entries|
      ensures at < |Live()| && Live()[at] == Bucket(pos, hashKey(entries[pos].0))
    {
      assert |Hashes(entries, hashKey)| <= EMPTY;
      hide Ordered, Sized, Describes, Ring;
      ghost var b, hashes := Live(), Hashes(entries, hashKey);
      ghost var m := |b|;
      var hash := hashKey(entries[pos].0);
      at := Ideal(hash);
      ghost var home := at;
      ghost var a := HoldsEntry(b, hashes, pos);
      ghost var d := D(b, a);
      assert Ahead(m, home, d) == a && Ahead(m, home, 0) == home;
      hide Gap, Distance, D;
      for i := 0 to buckets.Length
        invariant i <= d && at == Ahead(m, home, i)
      {
        if buckets[at].index == pos {
          Member(b, hashes, b[at]);
          return;
        }
        at := NextAt(at);
      }
      assert false;
    }

    // -------------------------------------------------------------------
    // Changing the table
    // -------------------------------------------------------------------

    method Put(at: u32, x: Bucket)
      requires Framed() && at < Ring(buckets.Length)
      modifies buckets
      ensures Framed() && Live() == old(Live())[at := x]
    {
      buckets[at] := x;
    }

    method Place(entry: Bucket)
      requires Shaped() && !entry.IsEmpty()
      requires VACANT in Live()
      requires Clean(Live())
      modifies buckets, `placed
      ensures Shaped() && placed == old(placed) + 1
      ensures multiset(Live()) + multiset{VACANT} == old(multiset(Live())) + multiset{entry}
    {
      hide Carrying, Ordered, Clean, Distance, Gap, Next, Sized, D;
      placed := placed + 1;
      ghost var b := Live();
      ghost var all := multiset(b) + multiset{entry};
      ghost var e: nat :| e < |b| && b[e] == VACANT;
      var carried := entry;
      var at: u32 := Ideal(carried.hash);
      var travelled: u32 := 0;
      ghost var k := RingIsPow2(buckets.Length);
      AtHome(b, at, entry, e);
      while true
        invariant Framed() && b == Live() && Carrying(b, at, carried, e, all)
        invariant at < |b| && travelled == Distance(|b|, at, carried.hash) && placed == old(placed) + 1
        decreases Gap(|b|, at, e)
      {
        var occupant := buckets[at];
        assert occupant == b[at];
        if occupant.IsEmpty() {
          FillStep(b, at, carried, e, all);
          Put(at, carried);
          return;
        }
        CarryingIsPlaced(b, at, carried, e, all);
        Turn(b, at, carried, e, all);
        var theirs := DistanceAt(at, occupant.hash);
        if theirs < travelled {
          Put(at, carried);
          b := b[at := carried];
          carried := occupant;
          travelled := theirs;
        }
        at := NextAt(at);
        travelled := travelled + 1;
      }
    }

    /** `Place`, in terms of the buckets the table already holds. */
    method PlaceAfter(entry: Bucket, ghost held: seq<Bucket>)
      requires Shaped() && Holds(Live(), held) && |held| < |Live()| && !entry.IsEmpty()
      modifies buckets, `placed
      ensures Shaped() && Holds(Live(), held + [entry]) && placed == old(placed) + 1
    {
      ghost var b := Live();
      HoldsRoom(b, held);
      Place(entry);
      HoldsMore(b, held, entry, Live());
    }

    /** `Place`, for the entry that follows those the table describes. */
    method PlaceEntry(pos: u32, hash: u32, ghost hashes: seq<u32>)
      requires Valid(hashes) && pos == |hashes| < MAX_INDEXED && |hashes| + 1 <= LoadLimit(buckets.Length)
      modifies buckets, `placed
      ensures Valid(hashes + [hash]) && placed == old(placed) + 1
    {
      LoadBelowRing(buckets.Length, |hashes| + 1);
      EntryBucketsAppend(hashes, hash);
      PlaceAfter(Bucket(pos, hash), EntryBuckets(hashes));
    }

    /** Empty the bucket at `at`, pulling the rest of its chain back one. */
    method Erase(at: u32)
      requires Shaped() && at < Ring(buckets.Length) && Occupied(Live(), at)
      requires VACANT in Live()
      modifies buckets
      ensures Shaped()
      ensures multiset(Live()) == old(multiset(Live()) - multiset{Live()[at]}) + multiset{VACANT}
    {
      hide Pulling, Ordered, Gap, Sized, Distance;
      ghost var b := Live();
      ghost var rest := multiset(b) - multiset{b[at]};
      ghost var e: nat :| e < |b| && b[e] == VACANT;
      ghost var k := RingIsPow2(buckets.Length);
      BeginPulling(b, at, e);
      var hole := at;
      var curr := NextAt(at);
      while true
        invariant Framed() && b == Live() && Pulling(b, hole, e, rest)
        invariant hole < |b| && curr == Next(|b|, hole)
        decreases Gap(|b|, hole, e)
      {
        var bucket := buckets[curr];
        assert bucket == b[curr];
        var theirs := DistanceAt(curr, bucket.hash);
        if bucket.IsEmpty() || theirs == 0 {
          VacateStep(b, hole, e, rest);
          Put(hole, VACANT);
          return;
        }
        PullStep(b, hole, e, rest);
        Put(hole, bucket);
        b := b[hole := bucket];
        hole := curr;
        curr := NextAt(curr);
      }
    }

    /** Account for the entry at `pos` having been removed and everything above it having
        shifted down one. */
    method ShiftDownAbove(pos: u32)
      requires Shaped()
      modifies buckets
      ensures Shaped()
      ensures Live() == LowerAll(old(Live()), pos)
    {
      for i := 0 to buckets.Length
        invariant forall j | 0 <= j < i :: buckets[j] == Lowered(old(buckets[j]), pos)
        invariant forall j | i <= j < buckets.Length :: buckets[j] == old(buckets[j])
      {
        var bucket := buckets[i];
        if !bucket.IsEmpty() && bucket.index > pos {
          buckets[i] := bucket.(index := bucket.index - 1);
        }
      }
      LoweringKeepsOrder(old(Live()), pos);
      assert Live() == LowerAll(old(Live()), pos);
    }

    /** Account for the entry at `pos`, whose bucket is at `at`, being removed: its chain
        closes up behind it and every later position comes down one. */
    method Forget(at: u32, pos: u32, ghost hashes: seq<u32>)
      requires Valid(hashes) && pos < |hashes|
      requires at < |Live()| && Live()[at] == Bucket(pos, hashes[pos])
      modifies buckets
      ensures Valid(Without(hashes, pos))
    {
      ghost var before := Live();
      Member(before, hashes, VACANT);
      Erase(at);
      DescribesRemoval(before, hashes, pos, Live());
      ShiftDownAbove(pos);
    }

    // -------------------------------------------------------------------
    // Filling the table
    // -------------------------------------------------------------------

    /** A table sized for `entries` and filled from them. */
    constructor Build<V>(entries: seq<(Key, V)>, hashKey: Key -> u32)
      requires |entries| <= MAX_INDEXED
      ensures Valid(Hashes(entries, hashKey)) && fresh(buckets)
      ensures Fitted(buckets.Length, |entries|) && placed == |entries|
    {
      buckets := new Bucket[0];
      placed := 0;
      new;
      Rebuild(entries, hashKey);
    }

    /** Size the table for `entries` and fill it from scratch, hashing every key. */
    method Rebuild<V>(entries: seq<(Key, V)>, hashKey: Key -> u32)
      requires |entries| <= MAX_INDEXED
      modifies this
      ensures Valid(Hashes(entries, hashKey)) && fresh(buckets)
      ensures Fitted(buckets.Length, |entries|) && placed == old(placed) + |entries|
    {
      hide Ordered, Holds;
      var size := BucketsFor(|entries|);
      Vacate(size);
      ghost var hashes := Hashes(entries, hashKey);
      LoadBelowRing(size, |entries|);
      for pos := 0 to |entries|
        invariant fresh(buckets) && buckets.Length == size && placed == old(placed) + pos
        invariant Shaped() && Holds(Live(), EntryBuckets(hashes)[..pos])
      {
        PlaceAfter(Bucket(pos, hashKey(entries[pos].0)), EntryBuckets(hashes)[..pos]);
        TakeOneMore(EntryBuckets(hashes), pos);
      }
      assert EntryBuckets(hashes)[..|entries|] == EntryBuckets(hashes);
    }

    /** Double the table, carrying every bucket over as it stands and hashing nothing. */
    method Grow(ghost hashes: seq<u32>)
      requires Valid(hashes)
      modifies this
      ensures Valid(hashes) && fresh(buckets)
      ensures buckets.Length == 2 * old(buckets.Length) && placed == old(placed) + |hashes|
    {
      var carried := buckets[..];
      OccupiedAreEntries(hashes);
      Vacate(2 * buckets.Length);
      PlaceAll(carried);
      DescribesAnyOrder(Live(), Kept(carried), hashes);
    }

    lemma OccupiedAreEntries(hashes: seq<u32>)
      requires Valid(hashes)
      ensures multiset(Kept(buckets[..])) == multiset(EntryBuckets(hashes))
      ensures Sized(2 * buckets.Length)
      ensures |Kept(buckets[..])| == |hashes| < Ring(2 * buckets.Length)
    {
      KeptDropsVacancies(buckets[..], |Live()|);
      assert buckets[..][..|Live()|] == Live();
      KeptOfDescribed(Live(), hashes);
      DoublingIsSized(buckets.Length);
      LoadBelowRing(buckets.Length, |hashes|);
    }

    /** Replace the buckets by `size` vacant ones. */
    method Vacate(size: nat)
      requires Sized(size)
      modifies `buckets
      ensures fresh(buckets) && buckets.Length == size
      ensures Shaped() && Holds(Live(), [])
    {
      buckets := new Bucket[size](_ => VACANT);
      StartsVacant();
    }

    /** Place every occupied bucket of `carried` into a vacant table. */
    method PlaceAll(carried: seq<Bucket>)
      requires Shaped() && Holds(Live(), []) && |Kept(carried)| < |Live()|
      modifies buckets, `placed
      ensures Shaped() && Holds(Live(), Kept(carried)) && placed == old(placed) + |Kept(carried)|
    {
      hide Ordered, Holds, Kept;
      KeptOfNone(carried);
      for i := 0 to |carried|
        invariant Shaped() && Holds(Live(), Kept(carried[..i])) && |Live()| == old(|Live()|)
        invariant placed == old(placed) + |Kept(carried[..i])|
      {
        ghost var held := Kept(carried[..i]);
        KeptIsPrefix(carried, i);
        KeptGrows(carried, i + 1);
        assert held + [] == held;
        if !carried[i].IsEmpty() { PlaceAfter(carried[i], held); }
      }
      assert carried[..|carried|] == carried;
    }

    lemma StartsVacant()
      requires Sized(buckets.Length) && forall i | 0 <= i < buckets.Length :: buckets[i] == VACANT
      ensures Shaped() && Holds(Live(), [])
    {
      AllVacant(|Live()|);
      assert Live() == seq(|Live()|, i => VACANT);
      forall at: nat | at < |Live()| ensures StepOk(Live(), at) {}
    }
  }
}
