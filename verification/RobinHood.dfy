/** The theory of an open-addressed robin hood table, over the sequence of its buckets.

    A bucket's distance is how far it sits, cyclically, from the bucket its hash asks for.
    `Ordered` is the local form of the robin hood invariant: stepping from one bucket to
    the next, a distance grows by at most one, and a bucket away from home always has an
    occupied bucket before it. `Reachable` is the form a probe relies on, and
    `OrderedIffReachable` shows the two are the same. */
module RobinHood {
  import opened Bits

  /** The position that marks a bucket holding nothing. */
  const EMPTY: int := TWO_TO_THE_32 - 1

  datatype Bucket = Bucket(index: u32, hash: u32) {
    predicate IsEmpty() { index == EMPTY }
  }

  const VACANT: Bucket := Bucket(EMPTY, 0)

  // ---------------------------------------------------------------------
  // Cyclic positions
  // ---------------------------------------------------------------------

  function Next(m: nat, at: nat): (r: nat)
    requires at < m
    ensures r < m
  {
    if at + 1 == m then 0 else at + 1
  }

  /** `step` places before `at`. */
  function Back(m: nat, at: nat, step: nat): (r: nat)
    requires at < m && step < m
    ensures r < m
  {
    if step <= at then at - step else at + m - step
  }

  /** `step` places after `at`. */
  function Ahead(m: nat, at: nat, step: nat): (r: nat)
    requires at < m && step < m
    ensures r < m
  {
    if at + step < m then at + step else at + step - m
  }

  /** How many places after `from` the position `to` is. */
  function Gap(m: nat, from: nat, to: nat): (r: nat)
    requires from < m && to < m
    ensures r < m && Ahead(m, from, r) == to
  {
    if from <= to then to - from else to + m - from
  }

  function Distance(m: nat, at: nat, hash: nat): (d: nat)
    requires at < m
    ensures d < m
  {
    Gap(m, hash % m, at)
  }

  // ---------------------------------------------------------------------
  // The invariant
  // ---------------------------------------------------------------------

  predicate Occupied(b: seq<Bucket>, at: nat) {
    at < |b| && !b[at].IsEmpty()
  }

  function D(b: seq<Bucket>, at: nat): nat
    requires at < |b|
  {
    Distance(|b|, at, b[at].hash)
  }

  predicate StepOk(b: seq<Bucket>, at: nat)
    requires at < |b|
  {
    var nx := Next(|b|, at);
    !b[nx].IsEmpty() && D(b, nx) > 0 ==> Occupied(b, at) && D(b, nx) <= D(b, at) + 1
  }

  ghost predicate Ordered(b: seq<Bucket>) {
    forall at: nat | at < |b| :: StepOk(b, at)
  }

  /** What a probe for the entry in bucket `at` meets on its way there: an occupied bucket
      at every step, at least as far from home as the probe has travelled. */
  ghost predicate Reachable(b: seq<Bucket>, at: nat)
    requires at < |b|
  {
    forall step: nat | step < D(b, at) ::
      var passed := Ahead(|b|, b[at].hash % |b|, step);
      Occupied(b, passed) && D(b, passed) >= step
  }

  lemma {:induction false} Chain(b: seq<Bucket>, at: nat, j: nat)
    requires Ordered(b) && Occupied(b, at) && j <= D(b, at)
    ensures var q := Back(|b|, at, j); Occupied(b, q) && D(b, q) >= D(b, at) - j
  {
    if j > 0 {
      Chain(b, at, j - 1);
      var q := Back(|b|, at, j);
      assert Next(|b|, q) == Back(|b|, at, j - 1);
      assert StepOk(b, q);
    }
  }

  lemma OrderedIffReachable(b: seq<Bucket>)
    ensures Ordered(b) <==> forall at: nat | Occupied(b, at) :: Reachable(b, at)
  {
    var m := |b|;
    if Ordered(b) {
      forall at: nat, step: nat | Occupied(b, at) && step < D(b, at)
        ensures var passed := Ahead(m, b[at].hash % m, step); Occupied(b, passed) && D(b, passed) >= step
      {
        Chain(b, at, D(b, at) - step);
        assert Back(m, at, D(b, at) - step) == Ahead(m, b[at].hash % m, step);
      }
    }
    if forall at: nat | Occupied(b, at) :: Reachable(b, at) {
      forall at: nat | at < m ensures StepOk(b, at) {
        var nx := Next(m, at);
        if !b[nx].IsEmpty() && D(b, nx) > 0 {
          assert Occupied(b, nx) && Reachable(b, nx);
          var step := D(b, nx) - 1;
          assert Ahead(m, b[nx].hash % m, step) == at;
        }
      }
    }
  }

  /** With a vacancy anywhere, no occupied bucket is a whole lap from home. */
  lemma NeverALap(b: seq<Bucket>, at: nat, e: nat)
    requires Ordered(b) && Occupied(b, at) && e < |b| && b[e].IsEmpty()
    ensures D(b, at) + 1 < |b|
  {
    var m := |b|;
    if D(b, at) + 1 >= m {
      var j := Gap(m, e, at);
      assert Back(m, at, j) == e;
      Chain(b, at, j);
    }
  }

  /** A probe that has travelled `t` places from home, no further than the bucket it is
      after, meets an occupant with no shorter distance. */
  lemma ProbeGoesOn(b: seq<Bucket>, at: nat, t: nat)
    requires Ordered(b) && Occupied(b, at) && t <= D(b, at)
    ensures var here := Ahead(|b|, b[at].hash % |b|, t); Occupied(b, here) && D(b, here) >= t
  {
    Chain(b, at, D(b, at) - t);
    assert Back(|b|, at, D(b, at) - t) == Ahead(|b|, b[at].hash % |b|, t);
  }

  // ---------------------------------------------------------------------
  // Placing
  // ---------------------------------------------------------------------

  /** Whether `x` could be written at `at` without breaking the step before it. */
  ghost predicate CanStand(b: seq<Bucket>, at: nat, x: Bucket)
    requires at < |b| && |b| > 1
  {
    var t := Distance(|b|, at, x.hash);
    t == 0 || (var p := Back(|b|, at, 1); Occupied(b, p) && t <= D(b, p) + 1)
  }

  lemma CarriedNeverALap(b: seq<Bucket>, at: nat, x: Bucket, e: nat)
    requires |b| > 1 && Ordered(b) && Occupied(b, at) && CanStand(b, at, x)
    requires e < |b| && b[e].IsEmpty()
    ensures Distance(|b|, at, x.hash) + 1 < |b|
  {
    var m := |b|;
    var t := Distance(m, at, x.hash);
    if t + 1 >= m {
      var p := Back(m, at, 1);
      var j := Gap(m, e, p);
      assert e != at && j <= m - 2;
      assert Back(m, p, j) == e;
      Chain(b, p, j);
    }
  }

  lemma WriteKeepsOrder(b: seq<Bucket>, at: nat, x: Bucket)
    requires |b| > 1 && Ordered(b) && at < |b| && CanStand(b, at, x) && !x.IsEmpty()
    requires b[at].IsEmpty() || D(b, at) < Distance(|b|, at, x.hash)
    ensures Ordered(b[at := x])
  {
    var c := b[at := x];
    forall k: nat | k < |c| ensures StepOk(c, k) {
      assert StepOk(b, k);
      if Next(|b|, k) == at { assert k == Back(|b|, at, 1); }
    }
  }

  lemma CarryOn(b: seq<Bucket>, at: nat, x: Bucket)
    requires |b| > 1 && Occupied(b, at) && Distance(|b|, at, x.hash) <= D(b, at)
    requires Distance(|b|, at, x.hash) + 1 < |b|
    ensures var nx := Next(|b|, at);
            && CanStand(b, nx, x) && Distance(|b|, nx, x.hash) == Distance(|b|, at, x.hash) + 1
  {
    assert Back(|b|, Next(|b|, at), 1) == at;
  }

  /** The only empty bucket there is, is the vacant one. */
  ghost predicate Clean(b: seq<Bucket>) {
    forall i | 0 <= i < |b| :: b[i].IsEmpty() ==> b[i] == VACANT
  }

  lemma WriteTrades(b: seq<Bucket>, at: nat, x: Bucket)
    requires at < |b|
    ensures multiset(b[at := x]) + multiset{b[at]} == multiset(b) + multiset{x}
  {
    assert b[at := x] == b[..at] + [x] + b[at + 1..];
    assert b == b[..at] + [b[at]] + b[at + 1..];
  }

  /** The occupant a swap displaces can stand one place further on. */
  lemma SwapKeepsCarrying(b: seq<Bucket>, at: nat, x: Bucket)
    requires |b| > 1 && Occupied(b, at) && !x.IsEmpty()
    requires D(b, at) < Distance(|b|, at, x.hash) && D(b, at) + 1 < |b|
    ensures var nx := Next(|b|, at);
            && CanStand(b[at := x], nx, b[at])
            && Distance(|b|, nx, b[at].hash) == D(b, at) + 1
  {
    assert Back(|b|, Next(|b|, at), 1) == at;
  }

  /** The state of a chain of displacements: `x` in hand at `at`, with `b` and `x`
      together holding what the table did and the entry being placed, and `e` still vacant. */
  ghost predicate Carrying(b: seq<Bucket>, at: nat, x: Bucket, e: nat, all: multiset<Bucket>) {
    && |b| > 1 && at < |b| && e < |b| && b[e] == VACANT && !x.IsEmpty()
    && Ordered(b) && Clean(b) && CanStand(b, at, x)
    && multiset(b) + multiset{x} == all
  }

  lemma FillStep(b: seq<Bucket>, at: nat, x: Bucket, e: nat, all: multiset<Bucket>)
    requires Carrying(b, at, x, e, all) && b[at].IsEmpty()
    ensures Ordered(b[at := x]) && multiset(b[at := x]) + multiset{VACANT} == all
  {
    WriteKeepsOrder(b, at, x);
    WriteTrades(b, at, x);
  }

  lemma SwapStep(b: seq<Bucket>, at: nat, x: Bucket, e: nat, all: multiset<Bucket>)
    requires Carrying(b, at, x, e, all) && !b[at].IsEmpty() && D(b, at) < Distance(|b|, at, x.hash)
    ensures var nx := Next(|b|, at);
            && Carrying(b[at := x], nx, b[at], e, all)
            && Distance(|b|, nx, b[at].hash) == D(b, at) + 1
            && Gap(|b|, nx, e) < Gap(|b|, at, e)
  {
    NeverALap(b, at, e);
    WriteKeepsOrder(b, at, x);
    SwapKeepsCarrying(b, at, x);
    WriteTrades(b, at, x);
  }

  lemma PassStep(b: seq<Bucket>, at: nat, x: Bucket, e: nat, all: multiset<Bucket>)
    requires Carrying(b, at, x, e, all) && !b[at].IsEmpty() && D(b, at) >= Distance(|b|, at, x.hash)
    ensures var nx := Next(|b|, at);
            && Carrying(b, nx, x, e, all)
            && Distance(|b|, nx, x.hash) == Distance(|b|, at, x.hash) + 1
            && Gap(|b|, nx, e) < Gap(|b|, at, e)
  {
    CarriedNeverALap(b, at, x, e);
    CarryOn(b, at, x);
  }

  // ---------------------------------------------------------------------
  // Erasing by backward shift
  // ---------------------------------------------------------------------

  lemma PullBackKeepsOrder(b: seq<Bucket>, hole: nat)
    requires |b| > 1 && Ordered(b) && Occupied(b, hole)
    requires Occupied(b, Next(|b|, hole)) && D(b, Next(|b|, hole)) > 0
    ensures Ordered(b[hole := b[Next(|b|, hole)]])
  {
    var curr := Next(|b|, hole);
    var c := b[hole := b[curr]];
    assert D(c, hole) == D(b, curr) - 1;
    forall k: nat | k < |c| ensures StepOk(c, k) {
      assert StepOk(b, k) && StepOk(b, hole);
    }
  }

  lemma VacateKeepsOrder(b: seq<Bucket>, hole: nat)
    requires |b| > 1 && Ordered(b) && Occupied(b, hole)
    requires b[Next(|b|, hole)].IsEmpty() || D(b, Next(|b|, hole)) == 0
    ensures Ordered(b[hole := VACANT])
  {
    var c := b[hole := VACANT];
    forall k: nat | k < |c| ensures StepOk(c, k) {
      assert StepOk(b, k);
    }
  }

  /** The state of a backward shift: the bucket at `hole` is spent, and the others hold
      `rest`. */
  ghost predicate Pulling(b: seq<Bucket>, hole: nat, e: nat, rest: multiset<Bucket>) {
    && |b| > 1 && Occupied(b, hole) && e < |b| && b[e] == VACANT && Ordered(b)
    && multiset(b) == rest + multiset{b[hole]}
  }

  lemma PullStep(b: seq<Bucket>, hole: nat, e: nat, rest: multiset<Bucket>)
    requires Pulling(b, hole, e, rest)
    requires Occupied(b, Next(|b|, hole)) && D(b, Next(|b|, hole)) > 0
    ensures var curr := Next(|b|, hole);
            && Pulling(b[hole := b[curr]], curr, e, rest)
            && Gap(|b|, curr, e) < Gap(|b|, hole, e)
  {
    var curr := Next(|b|, hole);
    PullBackKeepsOrder(b, hole);
    WriteTrades(b, hole, b[curr]);
  }

  lemma VacateStep(b: seq<Bucket>, hole: nat, e: nat, rest: multiset<Bucket>)
    requires Pulling(b, hole, e, rest)
    requires b[Next(|b|, hole)].IsEmpty() || D(b, Next(|b|, hole)) == 0
    ensures Ordered(b[hole := VACANT]) && multiset(b[hole := VACANT]) == rest + multiset{VACANT}
  {
    VacateKeepsOrder(b, hole);
    WriteTrades(b, hole, VACANT);
  }

  // ---------------------------------------------------------------------
  // What a table holds
  // ---------------------------------------------------------------------

  function Vacancies(n: nat): multiset<Bucket> {
    multiset{}[VACANT := n]
  }

  /** The buckets of entries `0..|hashes|`, the entry at position `i` having `hashes[i]`. */
  function EntryBuckets(hashes: seq<u32>): (r: seq<Bucket>)
    requires |hashes| <= EMPTY
    ensures |r| == |hashes|
  {
    seq(|hashes|, i requires 0 <= i < |hashes| => Bucket(i, hashes[i]))
  }

  lemma {:induction false} AllVacant(n: nat)
    ensures multiset(seq(n, i => VACANT)) == Vacancies(n)
  {
    if n > 0 {
      AllVacant(n - 1);
      assert seq(n, i => VACANT) == seq(n - 1, i => VACANT) + [VACANT];
    }
  }

  /** The occupied buckets of `b`, whatever their order, are those of `s`. */
  ghost predicate Holds(b: seq<Bucket>, s: seq<Bucket>) {
    && |s| <= |b|
    && (forall i | 0 <= i < |s| :: !s[i].IsEmpty())
    && multiset(b) == multiset(s) + Vacancies(|b| - |s|)
  }

  lemma HoldsRoom(b: seq<Bucket>, s: seq<Bucket>)
    requires Holds(b, s)
    ensures Clean(b)
    ensures |s| < |b| ==> VACANT in b
  {
    forall i | 0 <= i < |b| && b[i].IsEmpty() ensures b[i] == VACANT {
      assert b[i] in multiset(b);
      assert b[i] !in multiset(s);
    }
    if |s| < |b| { assert VACANT in multiset(b); }
  }

  lemma HoldsMore(b: seq<Bucket>, s: seq<Bucket>, x: Bucket, c: seq<Bucket>)
    requires Holds(b, s) && |s| < |b| == |c| && !x.IsEmpty()
    requires multiset(c) + multiset{VACANT} == multiset(b) + multiset{x}
    ensures Holds(c, s + [x])
  {
    forall y ensures multiset(c)[y] == (multiset(s + [x]) + Vacancies(|c| - |s| - 1))[y] {
      assert (multiset(c) + multiset{VACANT})[y] == (multiset(b) + multiset{x})[y];
    }
  }

  /** Every entry has exactly one bucket, with its position and its hash, and every other
      bucket is vacant. */
  ghost predicate Describes(b: seq<Bucket>, hashes: seq<u32>) {
    && |hashes| <= EMPTY
    && |hashes| < |b|
    && Holds(b, EntryBuckets(hashes))
  }

  /** A bucket belongs to a table exactly when it is vacant or the bucket of an entry. */
  lemma Member(b: seq<Bucket>, hashes: seq<u32>, x: Bucket)
    requires Describes(b, hashes)
    ensures x in b <==> x == VACANT || (x.index < |hashes| && x.hash == hashes[x.index])
  {
    var e := EntryBuckets(hashes);
    assert x in b <==> x in multiset(b);
    assert x in multiset(e) <==> x in e;
    if x.index < |hashes| { assert e[x.index] == Bucket(x.index, hashes[x.index]); }
  }

  lemma HasVacancy(b: seq<Bucket>, hashes: seq<u32>) returns (e: nat)
    requires Describes(b, hashes)
    ensures e < |b| && b[e] == VACANT
  {
    Member(b, hashes, VACANT);
    e :| e < |b| && b[e] == VACANT;
  }

  lemma HoldsEntry(b: seq<Bucket>, hashes: seq<u32>, pos: nat) returns (at: nat)
    requires Describes(b, hashes) && pos < |hashes|
    ensures at < |b| && b[at] == Bucket(pos, hashes[pos])
  {
    Member(b, hashes, Bucket(pos, hashes[pos]));
    at :| at < |b| && b[at] == Bucket(pos, hashes[pos]);
  }

  lemma {:induction false} CountTwice<T>(s: seq<T>, i: nat, j: nat)
    requires i < j < |s| && s[i] == s[j]
    ensures multiset(s)[s[i]] >= 2
  {
    assert s == s[..j] + [s[j]] + s[j + 1..];
    assert s[i] in s[..j];
  }

  /** No two buckets point at one entry. */
  lemma OneBucketEach(b: seq<Bucket>, hashes: seq<u32>, i: nat, j: nat)
    requires Describes(b, hashes)
    requires Occupied(b, i) && Occupied(b, j) && b[i].index == b[j].index
    ensures i == j
  {
    Member(b, hashes, b[i]);
    Member(b, hashes, b[j]);
    if i != j {
      CountTwice(b, if i < j then i else j, if i < j then j else i);
      EntryOnce(hashes, b[i]);
    }
  }

  lemma EntryOnce(hashes: seq<u32>, x: Bucket)
    requires |hashes| <= EMPTY
    ensures multiset(EntryBuckets(hashes))[x] == if x.index < |hashes| && x.hash == hashes[x.index] then 1 else 0
  {
    var e := EntryBuckets(hashes);
    if x.index < |hashes| && x.hash == hashes[x.index] {
      var i := x.index;
      assert e == e[..i] + [e[i]] + e[i + 1..];
      assert x !in e[..i] && x !in e[i + 1..];
    } else {
      assert x !in e;
    }
  }

  /** The index invariant bucket by bucket: what is occupied points at a live entry with the
      hash its key has now, is reached by every probe for it, and shares its entry with no
      other bucket; and every entry has a bucket. */
  ghost predicate Consistent(b: seq<Bucket>, hashes: seq<u32>) {
    && (forall at: nat | Occupied(b, at) ::
          b[at].index < |hashes| && b[at].hash == hashes[b[at].index] && Reachable(b, at))
    && (forall i: nat, j: nat | Occupied(b, i) && Occupied(b, j) && b[i].index == b[j].index :: i == j)
    && |hashes| <= EMPTY && forall pos: nat | pos < |hashes| :: Bucket(pos, hashes[pos]) in b
  }

  lemma IndexConsistent(b: seq<Bucket>, hashes: seq<u32>)
    requires Ordered(b) && Describes(b, hashes)
    ensures Consistent(b, hashes)
  {
    assert |hashes| <= EMPTY;
    hide Ordered, Describes, Reachable;
    OrderedIffReachable(b);
    forall at: nat | Occupied(b, at) ensures b[at].index < |hashes| && b[at].hash == hashes[b[at].index] {
      Member(b, hashes, b[at]);
    }
    forall i: nat, j: nat | Occupied(b, i) && Occupied(b, j) && b[i].index == b[j].index ensures i == j {
      OneBucketEach(b, hashes, i, j);
    }
    forall pos: nat | pos < |hashes| ensures Bucket(pos, hashes[pos]) in b {
      var at := HoldsEntry(b, hashes, pos);
    }
  }

  lemma EntryBucketsAppend(hashes: seq<u32>, h: u32)
    requires |hashes| < EMPTY
    ensures EntryBuckets(hashes + [h]) == EntryBuckets(hashes) + [Bucket(|hashes|, h)]
  {
  }

  // ---------------------------------------------------------------------
  // Renumbering after a removal
  // ---------------------------------------------------------------------

  function Lowered(x: Bucket, pos: nat): Bucket {
    if !x.IsEmpty() && x.index > pos then Bucket(x.index - 1, x.hash) else x
  }

  function LowerAll(b: seq<Bucket>, pos: nat): (r: seq<Bucket>)
    ensures |r| == |b|
  {
    seq(|b|, i requires 0 <= i < |b| => Lowered(b[i], pos))
  }

  /** How often `y` occurs after lowering: as often as the buckets that lower to it did. */
  lemma {:induction false} LowerCount(b: seq<Bucket>, pos: nat, y: Bucket)
    requires pos < EMPTY
    ensures multiset(LowerAll(b, pos))[y] ==
            (if y.IsEmpty() || y.index <= pos then multiset(b)[y] else 0) +
            (if y.index >= pos && y.index + 1 < EMPTY then multiset(b)[Bucket(y.index + 1, y.hash)] else 0)
  {
    if b != [] {
      var init, last := b[..|b| - 1], b[|b| - 1];
      LowerCount(init, pos, y);
      assert b == init + [last];
      assert LowerAll(b, pos) == LowerAll(init, pos) + [Lowered(last, pos)];
    }
  }

  function Without<T>(s: seq<T>, pos: nat): (r: seq<T>)
    requires pos < |s|
    ensures |r| == |s| - 1
  {
    s[..pos] + s[pos + 1..]
  }

  /** Emptying one entry's bucket and lowering every position above it describes the
      entries with that one removed. */
  lemma DescribesRemoval(b: seq<Bucket>, hashes: seq<u32>, pos: nat, c: seq<Bucket>)
    requires Describes(b, hashes) && pos < |hashes| && |c| == |b|
    requires multiset(c) == multiset(b) - multiset{Bucket(pos, hashes[pos])} + multiset{VACANT}
    ensures Describes(LowerAll(c, pos), Without(hashes, pos))
  {
    var lower, kept := LowerAll(c, pos), Without(hashes, pos);
    forall y ensures multiset(lower)[y] == (multiset(EntryBuckets(kept)) + Vacancies(|c| - |kept|))[y] {
      RemovalCount(b, hashes, pos, c, y);
    }
  }

  lemma RemovalCount(b: seq<Bucket>, hashes: seq<u32>, pos: nat, c: seq<Bucket>, y: Bucket)
    requires Describes(b, hashes) && pos < |hashes| && |c| == |b|
    requires multiset(c) == multiset(b) - multiset{Bucket(pos, hashes[pos])} + multiset{VACANT}
    ensures var kept := Without(hashes, pos);
            && |kept| <= |c|
            && multiset(LowerAll(c, pos))[y] == (multiset(EntryBuckets(kept)) + Vacancies(|c| - |kept|))[y]
  {
    LowerCount(c, pos, y);
    EntryOnce(hashes, y);
    EntryOnce(Without(hashes, pos), y);
    if y.index < EMPTY { EntryOnce(hashes, Bucket(y.index + 1, y.hash)); }
  }

  /** Renumbering moves no bucket and changes no hash, so it keeps the order. */
  lemma LoweringKeepsOrder(b: seq<Bucket>, pos: nat)
    requires Ordered(b)
    ensures Ordered(LowerAll(b, pos))
  {
    var c := LowerAll(b, pos);
    forall at: nat | at < |c| ensures StepOk(c, at) {
      assert StepOk(b, at);
    }
  }

  // ---------------------------------------------------------------------
  // Carrying buckets into a larger table
  // ---------------------------------------------------------------------

  lemma TakeOneMore<T>(s: seq<T>, i: nat)
    requires i < |s|
    ensures s[..i] + [s[i]] == s[..i + 1]
  {
  }

  /** The occupied buckets of `b`, in table order. */
  function Kept(b: seq<Bucket>): (r: seq<Bucket>)
    ensures |r| <= |b|
  {
    if b == [] then []
    else Kept(b[..|b| - 1]) + (if b[|b| - 1].IsEmpty() then [] else [b[|b| - 1]])
  }

  lemma {:induction false} KeptCount(b: seq<Bucket>, x: Bucket)
    ensures multiset(Kept(b))[x] == if x.IsEmpty() then 0 else multiset(b)[x]
  {
    if b != [] {
      KeptCount(b[..|b| - 1], x);
      assert b == b[..|b| - 1] + [b[|b| - 1]];
    }
  }

  lemma {:induction false} KeptDropsVacancies(b: seq<Bucket>, n: nat)
    requires n <= |b| && forall i | n <= i < |b| :: b[i] == VACANT
    ensures Kept(b) == Kept(b[..n])
  {
    if n < |b| {
      KeptDropsVacancies(b[..|b| - 1], n);
      assert b[..|b| - 1][..n] == b[..n];
    } else {
      assert b[..n] == b;
    }
  }

  lemma DescribesAnyOrder(b: seq<Bucket>, s: seq<Bucket>, hashes: seq<u32>)
    requires Holds(b, s) && |hashes| <= EMPTY && |s| == |hashes| < |b|
    requires multiset(s) == multiset(EntryBuckets(hashes))
    ensures Describes(b, hashes)
  {
    EntriesAreOccupied(hashes);
  }

  lemma KeptIsPrefix(b: seq<Bucket>, i: nat)
    requires i < |b|
    ensures Kept(b[..i + 1]) == Kept(b[..i]) + (if b[i].IsEmpty() then [] else [b[i]])
    ensures |Kept(b[..i])| <= i
  {
    assert b[..i + 1][..i] == b[..i];
  }

  lemma {:induction false} KeptGrows(b: seq<Bucket>, i: nat)
    requires i <= |b|
    ensures |Kept(b[..i])| <= |Kept(b)|
    decreases |b| - i
  {
    if i < |b| {
      KeptIsPrefix(b, i);
      KeptGrows(b, i + 1);
    } else {
      assert b[..i] == b;
    }
  }

  lemma KeptOfNone(b: seq<Bucket>)
    ensures Kept(b[..0]) == []
  {
  }

  lemma EntriesAreOccupied(hashes: seq<u32>)
    requires |hashes| <= EMPTY
    ensures forall i | 0 <= i < |hashes| :: !EntryBuckets(hashes)[i].IsEmpty()
  {
  }

  lemma KeptOfDescribed(b: seq<Bucket>, hashes: seq<u32>)
    requires Describes(b, hashes)
    ensures multiset(Kept(b)) == multiset(EntryBuckets(hashes))
    ensures |Kept(b)| == |hashes|
  {
    forall x ensures multiset(Kept(b))[x] == multiset(EntryBuckets(hashes))[x] {
      KeptCount(b, x);
      EntryOnce(hashes, x);
    }
    assert multiset(Kept(b)) == multiset(EntryBuckets(hashes));
    assert |multiset(Kept(b))| == |Kept(b)| && |multiset(EntryBuckets(hashes))| == |hashes|;
  }
}
