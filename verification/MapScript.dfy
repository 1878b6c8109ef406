/** Scripts of operations on an ordered map, and the reference they are checked against:
    a plain map for the contents and, apart from it, the list of keys in order. */
module MapScripts {
  import opened Bits
  import opened Wrappers
  import opened HashTables
  import opened AssocLists
  import opened RobinHood

  datatype Op<!V> =
    | Insert(key: Key, value: V)
    | Get(key: Key)
    | Remove(key: Key)
    | Extend(items: seq<(Key, V)>)
    | Entry(key: Key, occupied: Use<V>, vacant: Option<V>)
    | Retain(f: Verdict<V>)
    | SortKeys
    | Clear

  /** What is done with an entry that turns out occupied: nothing (`or_insert`), a change to its
      value (`and_modify`), another value in its place, or its removal. */
  datatype Use<!V> = Leave | Modify(f: V -> V) | Replace(value: V) | Take

  /** What one operation leaves, and what it answers. */
  function Apply<V>(entries: Entries<V>, op: Op<V>): (Entries<V>, Option<V>) {
    match op
    case Insert(k, v) => (Inserted(entries, k, v), Lookup(entries, k))
    case Get(k) => (entries, Lookup(entries, k))
    case Remove(k) => (Removed(entries, k), Lookup(entries, k))
    case Extend(items) => (InsertedAll(entries, items), None)
    case Entry(k, occupied, vacant) => ApplyEntry(entries, k, occupied, vacant)
    case Retain(f) => (Retained(entries, f, 0), None)
    case SortKeys => (Sorted(entries), None)
    case Clear => ([], None)
  }

  /** An entry is answered with the value it holds after, or the one taken out of it. */
  function ApplyEntry<V>(entries: Entries<V>, k: Key, occupied: Use<V>, vacant: Option<V>): (Entries<V>, Option<V>) {
    match Position(Keys(entries), k)
    case None => if vacant.Some? then (entries + [(k, vacant.value)], vacant) else (entries, None)
    case Some(p) => Used(entries, p, occupied)
  }

  /** The entry at `p`, put to use. */
  function Used<V>(entries: Entries<V>, p: nat, occupied: Use<V>): (Entries<V>, Option<V>)
    requires p < |entries|
  {
    var (k, v) := entries[p];
    match occupied
    case Leave => (entries, Some(v))
    case Modify(f) => (entries[p := (k, f(v))], Some(f(v)))
    case Replace(w) => (entries[p := (k, w)], Some(v))
    case Take => (Without(entries, p), Some(v))
  }

  function Run<V>(entries: Entries<V>, ops: seq<Op<V>>): (Entries<V>, seq<Option<V>>) {
    if ops == [] then (entries, [])
    else
      var (before, answers) := Run(entries, ops[..|ops| - 1]);
      var (after, answer) := Apply(before, ops[|ops| - 1]);
      (after, answers + [answer])
  }

  // ---------------------------------------------------------------------
  // The reference
  // ---------------------------------------------------------------------

  datatype Reference<V> = Reference(contents: map<Key, V>, order: seq<Key>) {
    function Get(k: Key): Option<V> {
      if k in contents then Some(contents[k]) else None
    }
  }

  function WithoutKey(order: seq<Key>, k: Key): seq<Key> {
    if order == [] then []
    else if order[0] == k then order[1..]
    else [order[0]] + WithoutKey(order[1..], k)
  }

  /** The keys, in order, that a retaining closure keeps. */
  function KeptOrder<V>(order: seq<Key>, contents: map<Key, V>, f: Verdict<V>, i: nat): seq<Key>
  {
    if order == [] then []
    else
      (if order[0] in contents && f(i, order[0], contents[order[0]]).Some? then [order[0]] else []) +
      KeptOrder(order[1..], contents, f, i + 1)
  }

  /** What `x` keeps, if it is one of the keys and kept. */
  function KeptAt<V>(order: seq<Key>, contents: map<Key, V>, f: Verdict<V>, i: nat, x: Key): Option<V> {
    if x in order && x in contents then f(i + Position(order, x).value, x, contents[x]) else None
  }

  function KeptContents<V>(order: seq<Key>, contents: map<Key, V>, f: Verdict<V>, i: nat): map<Key, V> {
    map x | x in order && KeptAt(order, contents, f, i, x).Some? :: KeptAt(order, contents, f, i, x).value
  }

  /** A run of pairs over the contents, a later pair of a key winning, and their new keys in
      the order they first come. */
  function RefExtended<V>(r: Reference<V>, items: seq<(Key, V)>): Reference<V>
    decreases |items|
  {
    if items == [] then r
    else
      var (k, v) := items[0];
      RefExtended(Reference(r.contents[k := v], if k in r.contents then r.order else r.order + [k]), items[1..])
  }

  function RefUsed<V>(r: Reference<V>, k: Key, occupied: Use<V>): (Reference<V>, Option<V>)
    requires k in r.contents
  {
    var v := r.contents[k];
    match occupied
    case Leave => (r, Some(v))
    case Modify(f) => (Reference(r.contents[k := f(v)], r.order), Some(f(v)))
    case Replace(w) => (Reference(r.contents[k := w], r.order), Some(v))
    case Take => (Reference(r.contents - {k}, WithoutKey(r.order, k)), Some(v))
  }

  function RefEntry<V>(r: Reference<V>, k: Key, occupied: Use<V>, vacant: Option<V>): (Reference<V>, Option<V>) {
    if k in r.contents then RefUsed(r, k, occupied)
    else if vacant.None? then (r, None)
    else (Reference(r.contents[k := vacant.value], r.order + [k]), vacant)
  }

  function RefApply<V>(r: Reference<V>, op: Op<V>): (Reference<V>, Option<V>)
  {
    match op
    case Insert(k, v) =>
      (Reference(r.contents[k := v], if k in r.contents then r.order else r.order + [k]), r.Get(k))
    case Get(k) => (r, r.Get(k))
    case Remove(k) => (Reference(r.contents - {k}, WithoutKey(r.order, k)), r.Get(k))
    case Extend(items) => (RefExtended(r, items), None)
    case Entry(k, occupied, vacant) => RefEntry(r, k, occupied, vacant)
    case Retain(f) =>
      (Reference(KeptContents(r.order, r.contents, f, 0), KeptOrder(r.order, r.contents, f, 0)), None)
    case SortKeys => (Reference(r.contents, SortedOrder(r.order)), None)
    case Clear => (Reference(map[], []), None)
  }

  function Abstraction<V>(entries: Entries<V>): Reference<V> {
    Reference(ToMap(entries), Keys(entries))
  }

  // ---------------------------------------------------------------------
  // Every script agrees with the reference
  // ---------------------------------------------------------------------

  lemma {:induction false} WithoutIsRemoval(order: seq<Key>, p: nat)
    requires DistinctKeys(order) && p < |order|
    ensures WithoutKey(order, order[p]) == order[..p] + order[p + 1..]
  {
    if p > 0 {
      WithoutIsRemoval(order[1..], p - 1);
      assert order[..p] == [order[0]] + order[1..][..p - 1];
    }
  }

  lemma {:induction false} WithoutAbsent(order: seq<Key>, k: Key)
    requires k !in order
    ensures WithoutKey(order, k) == order
  {
    if order != [] { WithoutAbsent(order[1..], k); }
  }

  lemma {:induction false} RetainedOrder<V>(entries: Entries<V>, contents: map<Key, V>, f: Verdict<V>, i: nat)
    requires forall j | 0 <= j < |entries| :: Keys(entries)[j] in contents && contents[entries[j].0] == entries[j].1
    ensures Keys(Retained(entries, f, i)) == KeptOrder(Keys(entries), contents, f, i)
  {
    if entries != [] {
      assert Keys(entries)[0] == entries[0].0 && Keys(entries)[1..] == Keys(entries[1..]);
      assert forall j | 0 <= j < |entries[1..]| :: Keys(entries[1..])[j] == Keys(entries)[j + 1];
      RetainedOrder(entries[1..], contents, f, i + 1);
    }
  }

  lemma DistinctTail<V>(e: (Key, V), rest: Entries<V>)
    requires Distinct([e] + rest)
    ensures Distinct(rest) && e.0 !in Keys(rest)
  {
    var keys := Keys([e] + rest);
    assert keys[0] == e.0;
    assert forall j | 0 <= j < |rest| :: Keys(rest)[j] == keys[j + 1];
  }

  lemma KeysCons<V>(e: (Key, V), rest: Entries<V>)
    ensures Keys([e] + rest) == [e.0] + Keys(rest)
  {
  }

  lemma PositionCons(k: Key, order: seq<Key>, x: Key)
    requires k !in order && x in order
    ensures Position([k] + order, x) == Some(Position(order, x).value + 1)
  {
    assert ([k] + order)[1..] == order;
  }

  lemma ToMapCons<V>(e: (Key, V), rest: Entries<V>)
    requires Distinct([e] + rest)
    ensures ToMap([e] + rest) == ToMap(rest)[e.0 := e.1]
  {
    DistinctTail(e, rest);
    KeysCons(e, rest);
    forall x | x in Keys(rest) ensures ToMap([e] + rest)[x] == ToMap(rest)[x] {
      PositionCons(e.0, Keys(rest), x);
    }
    assert ToMap([e] + rest)[e.0] == e.1;
  }

  lemma KeptFirst<V>(k: Key, v: V, order: seq<Key>, contents: map<Key, V>, f: Verdict<V>, i: nat)
    ensures KeptAt([k] + order, contents[k := v], f, i, k) == f(i, k, v)
  {
  }

  lemma KeptLater<V>(k: Key, v: V, order: seq<Key>, contents: map<Key, V>, f: Verdict<V>, i: nat, x: Key)
    requires k !in order && x in order
    ensures KeptAt([k] + order, contents[k := v], f, i, x) == KeptAt(order, contents, f, i + 1, x)
  {
    PositionCons(k, order, x);
  }

  lemma KeptContentsCons<V>(k: Key, v: V, order: seq<Key>, contents: map<Key, V>, f: Verdict<V>, i: nat)
    requires k !in order
    ensures KeptContents([k] + order, contents[k := v], f, i) ==
            var rest := KeptContents(order, contents, f, i + 1);
            if f(i, k, v).Some? then rest[k := f(i, k, v).value] else rest
  {
    hide KeptAt, Position;
    var all := [k] + order;
    KeptFirst(k, v, order, contents, f, i);
    forall x | x in order ensures KeptAt(all, contents[k := v], f, i, x) == KeptAt(order, contents, f, i + 1, x) {
      KeptLater(k, v, order, contents, f, i, x);
    }
  }

  lemma ConsDistinct<V>(e: (Key, V), rest: Entries<V>)
    requires Distinct(rest) && e.0 !in Keys(rest)
    ensures Distinct([e] + rest)
  {
    assert Keys([e] + rest) == [e.0] + Keys(rest);
  }

  lemma {:induction false} RetainedContents<V>(entries: Entries<V>, f: Verdict<V>, i: nat)
    requires Distinct(entries)
    ensures var r := Retained(entries, f, i);
            && Distinct(r)
            && ToMap(r) == KeptContents(Keys(entries), ToMap(entries), f, i)
            && forall k | k in Keys(r) :: k in Keys(entries)
  {
    if entries != [] {
      var e, rest := entries[0], entries[1..];
      var t := Retained(rest, f, i + 1);
      assert entries == [e] + rest;
      DistinctTail(e, rest);
      KeysCons(e, rest);
      ToMapCons(e, rest);
      RetainedContents(rest, f, i + 1);
      KeptContentsCons(e.0, e.1, Keys(rest), ToMap(rest), f, i);
      match f(i, e.0, e.1)
      case None =>
        assert Retained(entries, f, i) == t;
      case Some(v) =>
        assert Retained(entries, f, i) == [(e.0, v)] + t;
        ConsDistinct((e.0, v), t);
        KeysCons((e.0, v), t);
        ToMapCons((e.0, v), t);
    }
  }

  lemma {:induction false} ExtendAgrees<V>(entries: Entries<V>, items: seq<(Key, V)>)
    requires Distinct(entries)
    ensures Distinct(InsertedAll(entries, items))
    ensures Abstraction(InsertedAll(entries, items)) == RefExtended(Abstraction(entries), items)
    decreases |items|
  {
    if items != [] {
      var (k, v) := items[0];
      InsertedRefines(entries, k, v);
      InsertedAllFirst(entries, items);
      ExtendAgrees(Inserted(entries, k, v), items[1..]);
    }
  }

  lemma EntryAgrees<V>(entries: Entries<V>, k: Key, occupied: Use<V>, vacant: Option<V>)
    requires Distinct(entries)
    ensures var (after, answer) := ApplyEntry(entries, k, occupied, vacant);
            Distinct(after) &&
            (Abstraction(after), answer) == RefEntry(Abstraction(entries), k, occupied, vacant)
  {
    KeyInMap(entries, k);
    hide ToMap, Distinct, Inserted, Position, Used, RefUsed;
    match Position(Keys(entries), k)
    case None =>
      if vacant.Some? {
        InsertedRefines(entries, k, vacant.value);
        InsertedCases(entries, k, vacant.value);
      }
    case Some(p) => UsedAgrees(entries, k, p, occupied);
  }

  lemma KeyInMap<V>(entries: Entries<V>, k: Key)
    requires Distinct(entries)
    ensures k in ToMap(entries) <==> Position(Keys(entries), k).Some?
    ensures k in ToMap(entries) <==> k in Keys(entries)
  {
  }

  lemma UsedAgrees<V>(entries: Entries<V>, k: Key, p: nat, occupied: Use<V>)
    requires Distinct(entries) && Position(Keys(entries), k) == Some(p)
    ensures k in ToMap(entries)
    ensures var (after, answer) := Used(entries, p, occupied);
            Distinct(after) && (Abstraction(after), answer) == RefUsed(Abstraction(entries), k, occupied)
  {
    OccupiedParts(entries, k, p);
    hide ToMap, Distinct, Position, WithoutKey, Without, Keys;
    match occupied
    case Modify(f) => RewrittenAgrees(entries, k, p, f(entries[p].1));
    case Replace(w) => RewrittenAgrees(entries, k, p, w);
    case Take => TakenAgrees(entries, k, p);
    case Leave =>
  }

  lemma OccupiedParts<V>(entries: Entries<V>, k: Key, p: nat)
    requires Distinct(entries) && Position(Keys(entries), k) == Some(p)
    ensures p < |entries| && entries[p].0 == k && k in ToMap(entries) && ToMap(entries)[k] == entries[p].1
  {
    LookupRefines(entries, k);
    assert Keys(entries)[p] == k;
  }

  lemma RewrittenAgrees<V>(entries: Entries<V>, k: Key, p: nat, w: V)
    requires Distinct(entries) && Position(Keys(entries), k) == Some(p)
    ensures var after := entries[p := (k, w)];
            Distinct(after) && ToMap(after) == ToMap(entries)[k := w] && Keys(after) == Keys(entries)
  {
    hide ToMap, Distinct;
    InsertedRefines(entries, k, w);
    InsertedCases(entries, k, w);
  }

  lemma TakenAgrees<V>(entries: Entries<V>, k: Key, p: nat)
    requires Distinct(entries) && Position(Keys(entries), k) == Some(p)
    ensures var after := Without(entries, p);
            Distinct(after) && ToMap(after) == ToMap(entries) - {k} && Keys(after) == WithoutKey(Keys(entries), k)
  {
    hide ToMap;
    RemovedAtRefines(entries, p);
    WithoutIsRemoval(Keys(entries), p);
    assert Keys(entries)[p] == k;
  }

  lemma InsertedCases<V>(entries: Entries<V>, k: Key, v: V)
    ensures Inserted(entries, k, v) ==
            match Position(Keys(entries), k) case Some(p) => entries[p := (k, v)] case None => entries + [(k, v)]
  {
    if Position(Keys(entries), k).Some? { assert Keys(entries)[Position(Keys(entries), k).value] == k; }
  }

  lemma ApplyAgrees<V>(entries: Entries<V>, op: Op<V>)
    requires Distinct(entries)
    ensures Distinct(Apply(entries, op).0)
    ensures (Abstraction(Apply(entries, op).0), Apply(entries, op).1) == RefApply(Abstraction(entries), op)
  {
    match op
    case Insert(k, v) => InsertedRefines(entries, k, v);
    case Get(k) =>
    case Remove(k) =>
      match Position(Keys(entries), k) {
        case Some(p) =>
          RemovedAtRefines(entries, p);
          WithoutIsRemoval(Keys(entries), p);
        case None =>
          WithoutAbsent(Keys(entries), k);
          assert ToMap(entries) - {k} == ToMap(entries);
      }
    case Extend(items) => ExtendAgrees(entries, items);
    case Entry(k, occupied, vacant) => EntryAgrees(entries, k, occupied, vacant);
    case Retain(f) =>
      forall j | 0 <= j < |entries|
        ensures Keys(entries)[j] in ToMap(entries) && ToMap(entries)[entries[j].0] == entries[j].1
      {
        ToMapAt(entries, j);
      }
      RetainedOrder(entries, ToMap(entries), f, 0);
      RetainedContents(entries, f, 0);
    case SortKeys => SortedRefines(entries);
    case Clear => assert ToMap<V>([]) == map[];
  }

  function RefRun<V>(r: Reference<V>, ops: seq<Op<V>>): (Reference<V>, seq<Option<V>>) {
    if ops == [] then (r, [])
    else
      var (before, answers) := RefRun(r, ops[..|ops| - 1]);
      var (after, answer) := RefApply(before, ops[|ops| - 1]);
      (after, answers + [answer])
  }

  /** Whatever the script, the list ends holding the reference's contents in the
      reference's order, and every answer on the way was the reference's. */
  lemma {:induction false} RunAgrees<V>(entries: Entries<V>, ops: seq<Op<V>>)
    requires Distinct(entries)
    ensures Distinct(Run(entries, ops).0)
    ensures (Abstraction(Run(entries, ops).0), Run(entries, ops).1) == RefRun(Abstraction(entries), ops)
  {
    if ops != [] {
      var init := ops[..|ops| - 1];
      RunAgrees(entries, init);
      ApplyAgrees(Run(entries, init).0, ops[|ops| - 1]);
    }
  }
}
