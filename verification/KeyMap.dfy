/** Perfect hashing of an object's keys: src/keymap.rs. `Build` walks a ladder of schemes and
    stops at the first that works; whichever it is, both lookups find every declared key. */
module KeyMaps {
  import opened Bits
  import opened Wrappers
  import opened Headers
  import opened KeyHashes
  import Swar

  const MAX_HASHED_KEYS: nat := 255
  const SLOT_CAP: nat := 256
  const SEED_ATTEMPTS: nat := 4096
  const MAX_SEARCHED_KEYS: nat := 72

  datatype Kind =
    | Empty | SingleElement
    | Mod4 | XorMod4 | MinusMod4
    | UniqueIndexTwo | UniqueIndex
    | Hashed(mode: Mode)
    | Linear

  datatype KeyMap = KeyMap(
    kind: Kind,
    n: nat,
    seed: u64,
    uniqueIndex: nat,
    minLen: nat,
    maxLen: nat,
    mask: nat,
    table: seq<u8>,
    perLen: seq<u8>)

  /** Why a key list is refused. */
  datatype Refusal = DuplicateKey | EscapedKey

  type Keys = seq<Bytes>

  // ---------------------------------------------------------------------
  // What a key list has to be, and what a map built from it is
  // ---------------------------------------------------------------------

  ghost predicate AllDistinct(keys: Keys) {
    forall i, j | 0 <= i < j < |keys| :: keys[i] != keys[j]
  }

  /** No byte of the key is one a JSON string cannot carry. */
  ghost predicate EscapeFree(key: Bytes) {
    forall j | 0 <= j < |key| :: !Swar.NeedsEscape(key[j])
  }

  ghost predicate NoneEscaped(keys: Keys) {
    forall i | 0 <= i < |keys| :: EscapeFree(keys[i])
  }

  ghost predicate Lengths(keys: Keys, min: nat, max: nat) {
    forall i | 0 <= i < |keys| :: min <= |keys[i]| <= max
  }

  ghost predicate TableOf(table: seq<u8>, n: nat) {
    |table| == SLOT_CAP && forall e | 0 <= e < SLOT_CAP :: table[e] <= n
  }

  function WrappingSub(a: u8, b: u8): u8 {
    var x: int := a;
    (x - b) % 256
  }

  /** Every key's slot holds its index. */
  ghost predicate Indexed(keys: Keys, mode: Mode, column: nat, perLen: seq<u8>, seed: u64, mask: nat, table: seq<u8>) {
    && mask < SLOT_CAP && TableOf(table, |keys|)
    && (forall i | 0 <= i < |keys| :: Reaches(keys[i], mode, column, perLen))
    && forall i | 0 <= i < |keys| :: table[Slot(Preimage(keys[i], mode, column, perLen), seed, mode, mask)] == i
  }

  /** What `Sized`, `PerLength` and the front hashes may look at in any key of a declared
      length, declared or not. */
  ghost predicate InReach(mode: Mode, column: nat, perLen: seq<u8>, min: nat, max: nat) {
    match mode
    case Front2 => min >= 2
    case Front4 => min >= 4
    case Front8 => min >= 8
    case Sized => column < min
    case PerLength => max < SLOT_CAP == |perLen|
    case Full => true
  }

  ghost predicate Serves(m: KeyMap, keys: Keys)
    requires Lengths(keys, m.minLen, m.maxLen)
  {
    match m.kind
    case Empty => |keys| == 0
    case SingleElement => |keys| == 1
    case Mod4 => |keys| in {3, 4} && m.minLen > 0 && forall i | 0 <= i < |keys| :: keys[i][0] % 4 == i
    case XorMod4 =>
      |keys| in {3, 4} && m.minLen > 0 && forall i | 0 <= i < |keys| :: Xor(keys[i][0], m.seed % 256) % 4 == i
    case MinusMod4 =>
      |keys| in {3, 4} && m.minLen > 0 && forall i | 0 <= i < |keys| :: WrappingSub(keys[i][0], m.seed % 256) % 4 == i
    case UniqueIndexTwo =>
      && |keys| == 2 && m.uniqueIndex < m.minLen
      && keys[0][m.uniqueIndex] == m.seed % 256 && keys[1][m.uniqueIndex] != m.seed % 256
    case UniqueIndex =>
      && m.uniqueIndex < m.minLen && TableOf(m.table, |keys|)
      && forall i | 0 <= i < |keys| :: m.table[keys[i][m.uniqueIndex]] == i
    case Hashed(mode) =>
      && InReach(mode, m.uniqueIndex, m.perLen, m.minLen, m.maxLen)
      && Indexed(keys, mode, m.uniqueIndex, m.perLen, m.seed, m.mask, m.table)
    case Linear => true
  }

  ghost predicate Built(m: KeyMap, keys: Keys) {
    && m.n == |keys| && AllDistinct(keys) && NoneEscaped(keys)
    && Lengths(keys, m.minLen, m.maxLen)
    && Serves(m, keys)
  }

  // ---------------------------------------------------------------------
  // Building
  // ---------------------------------------------------------------------

  /** Bucket count for `n` keys: a power of two, quadratic in `n` up to the table's size. */
  method SlotsFor(n: nat) returns (slots: nat)
    ensures IsPow2(slots) && 1 <= slots <= SLOT_CAP
    ensures n <= 1 ==> slots == 1
    ensures n >= 2 && slots < SLOT_CAP ==> n * n <= 2 * slots < 2 * (n * n)
  {
    if n <= 1 {
      assert Pow2(0) == 1;
      return 1;
    }
    var sq := n * n;
    assert sq >= 4;
    var s := 1;
    ghost var k: nat := 0;
    while s < sq
      invariant s == Pow2(k) && (s == 1 || s < 2 * sq)
      decreases sq - s
    {
      s := s * 2;
      k := k + 1;
    }
    assert s == 2 * Pow2(k - 1);
    Pow2Values();
    return if s / 2 > SLOT_CAP then SLOT_CAP else s / 2;
  }

  method HasDuplicate(keys: Keys) returns (yes: bool)
    ensures yes == !AllDistinct(keys)
  {
    for i := 0 to |keys|
      invariant forall a, b | 0 <= a < i && a < b < |keys| :: keys[a] != keys[b]
    {
      for j := i + 1 to |keys|
        invariant forall b | i < b < j :: keys[i] != keys[b]
      {
        if keys[i] == keys[j] { return true; }
      }
    }
    return false;
  }

  method HasEscape(keys: Keys) returns (yes: bool)
    ensures yes == !NoneEscaped(keys)
  {
    for i := 0 to |keys|
      invariant forall a | 0 <= a < i :: EscapeFree(keys[a])
    {
      for j := 0 to |keys[i]|
        invariant forall b | 0 <= b < j :: !Swar.NeedsEscape(keys[i][b])
      {
        if Swar.NeedsEscape(keys[i][j]) { return true; }
      }
    }
    return false;
  }

  method LengthsOf(keys: Keys) returns (min: nat, max: nat)
    requires keys != []
    ensures Lengths(keys, min, max)
    ensures exists i | 0 <= i < |keys| :: |keys[i]| == min
    ensures exists i | 0 <= i < |keys| :: |keys[i]| == max
  {
    min, max := |keys[0]|, |keys[0]|;
    for i := 1 to |keys|
      invariant Lengths(keys[..i], min, max)
      invariant exists a | 0 <= a < i :: |keys[a]| == min
      invariant exists a | 0 <= a < i :: |keys[a]| == max
    {
      ghost var before := keys[..i];
      assert keys[..i + 1] == before + [keys[i]];
      if |keys[i]| < min { min := |keys[i]|; }
      if |keys[i]| > max { max := |keys[i]|; }
    }
    assert keys[..|keys|] == keys;
  }

  /** The scheme whose arithmetic on the first byte lands on the index. */
  method TryMod4(keys: Keys) returns (kind: Option<Kind>)
    requires |keys| in {3, 4} && forall i | 0 <= i < |keys| :: keys[i] != []
    ensures kind == Some(Mod4) ==> forall i | 0 <= i < |keys| :: keys[i][0] % 4 == i
    ensures kind == Some(XorMod4) ==> forall i | 0 <= i < |keys| :: Xor(keys[i][0], keys[0][0]) % 4 == i
    ensures kind == Some(MinusMod4) ==> forall i | 0 <= i < |keys| :: WrappingSub(keys[i][0], keys[0][0]) % 4 == i
    ensures kind in {None, Some(Mod4), Some(XorMod4), Some(MinusMod4)}
    ensures kind == None ==> exists i | 0 <= i < |keys| :: WrappingSub(keys[i][0], keys[0][0]) % 4 != i
  {
    var n, c0 := |keys|, keys[0][0];
    var ok := true;
    for i := 0 to n
      invariant ok == forall a | 0 <= a < i :: keys[a][0] % 4 == a
    {
      if keys[i][0] % 4 != i { ok := false; }
    }
    if ok { return Some(Mod4); }
    ok := true;
    for i := 0 to n
      invariant ok == forall a | 0 <= a < i :: Xor(keys[a][0], c0) % 4 == a
    {
      if Xor(keys[i][0], c0) % 4 != i { ok := false; }
    }
    if ok { return Some(XorMod4); }
    ok := true;
    for i := 0 to n
      invariant ok == forall a | 0 <= a < i :: WrappingSub(keys[a][0], c0) % 4 == a
    {
      if WrappingSub(keys[i][0], c0) % 4 != i { ok := false; }
    }
    return if ok then Some(MinusMod4) else None;
  }

  predicate Any(key: Bytes) { true }

  /** The keys `only` picks differ from each other in the byte at `column`. */
  ghost predicate Told(keys: Keys, column: nat, only: Bytes -> bool)
    requires forall i | 0 <= i < |keys| && only(keys[i]) :: column < |keys[i]|
  {
    forall i, j | 0 <= i < j < |keys| && only(keys[i]) && only(keys[j]) :: keys[i][column] != keys[j][column]
  }

  /** Whether a column tells apart the keys of `only`, marking bytes as they are met. */
  method TellsApart(keys: Keys, column: nat, only: Bytes -> bool) returns (distinct: bool)
    requires forall i | 0 <= i < |keys| && only(keys[i]) :: column < |keys[i]|
    ensures distinct == Told(keys, column, only)
  {
    var seen := new bool[256](_ => false);
    for i := 0 to |keys|
      invariant forall c | 0 <= c < 256 :: seen[c] <==> exists a | 0 <= a < i :: only(keys[a]) && keys[a][column] == c
      invariant forall a, b | 0 <= a < b < i && only(keys[a]) && only(keys[b]) :: keys[a][column] != keys[b][column]
    {
      if only(keys[i]) {
        var c := keys[i][column];
        if seen[c] { return false; }
        seen[c] := true;
      }
    }
    return true;
  }

  /** First byte column, within reach of every key, whose values are all distinct. */
  method FindUniqueIndex(keys: Keys, minLen: nat) returns (r: Option<nat>)
    requires forall i | 0 <= i < |keys| :: minLen <= |keys[i]|
    ensures r.Some? ==> r.value < minLen && Told(keys, r.value, Any)
    ensures forall c | 0 <= c < (if r.Some? then r.value else minLen) :: !Told(keys, c, Any)
  {
    var col := 0;
    while col < minLen
      invariant 0 <= col <= minLen && forall c | 0 <= c < col :: !Told(keys, c, Any)
    {
      var distinct := TellsApart(keys, col, Any);
      if distinct { return Some(col); }
      col := col + 1;
    }
    return None;
  }

  /** No two keys of one length agree at `column`. */
  ghost predicate ToldSized(keys: Keys, column: nat)
    requires forall i | 0 <= i < |keys| :: column < |keys[i]|
  {
    forall i, j | 0 <= i < j < |keys| && |keys[i]| == |keys[j]| :: keys[i][column] != keys[j][column]
  }

  /** First byte column that tells apart the keys of each length. */
  method FindSizedUniqueIndex(keys: Keys, minLen: nat) returns (r: Option<nat>)
    requires forall i | 0 <= i < |keys| :: minLen <= |keys[i]|
    ensures r.Some? ==> r.value < minLen && ToldSized(keys, r.value)
    ensures forall c | 0 <= c < (if r.Some? then r.value else minLen) :: !ToldSized(keys, c)
  {
    var n, col := |keys|, 0;
    while col < minLen
      invariant 0 <= col <= minLen && forall c | 0 <= c < col :: !ToldSized(keys, c)
    {
      var distinct, i := true, 0;
      while i < n && distinct
        invariant 0 <= i <= n
        invariant distinct ==> forall a, b | 0 <= a < i && a < b < n && |keys[a]| == |keys[b]| :: keys[a][col] != keys[b][col]
        invariant !distinct ==> !ToldSized(keys, col)
        decreases n - i, distinct
      {
        for j := i + 1 to n
          invariant distinct && forall b | i < b < j && |keys[i]| == |keys[b]| :: keys[i][col] != keys[b][col]
        {
          if |keys[i]| == |keys[j]| && keys[i][col] == keys[j][col] {
            distinct := false;
            break;
          }
        }
        if distinct { i := i + 1; }
      }
      if distinct { return Some(col); }
      col := col + 1;
    }
    return None;
  }

  method FrontBytesDistinct(keys: Keys, width: nat) returns (distinct: bool)
    requires width <= 8 && forall i | 0 <= i < |keys| :: width <= |keys[i]|
    ensures distinct == forall i, j | 0 <= i < j < |keys| :: Front(keys[i], width) != Front(keys[j], width)
  {
    hide Front;
    for i := 0 to |keys|
      invariant forall a, b | 0 <= a < i && a < b < |keys| :: Front(keys[a], width) != Front(keys[b], width)
    {
      var a := ToU64Below8(keys[i], width);
      for j := i + 1 to |keys|
        invariant forall b | i < b < j :: Front(keys[i], width) != Front(keys[b], width)
      {
        var b := ToU64Below8(keys[j], width);
        if a == b { return false; }
      }
    }
    return true;
  }

  function OfLength(len: nat): Bytes -> bool { (key: Bytes) => |key| == len }

  /** `columns` gives each length of key a byte that tells its keys apart. */
  ghost predicate ToldPerLength(keys: Keys, columns: seq<u8>) {
    forall i | 0 <= i < |keys| ::
      && |keys[i]| < |columns| && columns[|keys[i]|] < |keys[i]|
      && Told(keys, columns[|keys[i]|], OfLength(|keys[i]|))
  }

  ghost predicate NoColumn(keys: Keys, len: nat) {
    forall c | 0 <= c < len :: !Told(keys, c, OfLength(len))
  }

  /** One distinguishing byte column per key length, or `None` if some length has none. */
  method FindPerLength(keys: Keys, minLen: nat, maxLen: nat) returns (r: Option<seq<u8>>)
    requires Lengths(keys, minLen, maxLen)
    ensures r.Some? ==> maxLen < SLOT_CAP == |r.value| && ToldPerLength(keys, r.value)
    ensures r.None? ==> || minLen == 0 || maxLen >= SLOT_CAP
                        || exists len | minLen <= len <= maxLen :: NoColumn(keys, len)
  {
    if minLen == 0 || maxLen >= SLOT_CAP { return None; }
    var columns: seq<u8> := seq(SLOT_CAP, _ => 255);
    var len := minLen;
    while len <= maxLen
      invariant minLen <= len && |columns| == SLOT_CAP
      invariant forall i | 0 <= i < |keys| && |keys[i]| < len ::
                  columns[|keys[i]|] < |keys[i]| && Told(keys, columns[|keys[i]|], OfLength(|keys[i]|))
    {
      var any := HasLength(keys, len);
      if any {
        var col := ColumnFor(keys, len);
        if col.None? { return None; }
        columns := columns[len := col.value];
      }
      len := len + 1;
    }
    return Some(columns);
  }

  method HasLength(keys: Keys, len: nat) returns (any: bool)
    ensures any == exists i | 0 <= i < |keys| :: |keys[i]| == len
  {
    for i := 0 to |keys|
      invariant forall a | 0 <= a < i :: |keys[a]| != len
    {
      if |keys[i]| == len { return true; }
    }
    return false;
  }

  method ColumnFor(keys: Keys, len: nat) returns (r: Option<nat>)
    ensures r.Some? ==> r.value < len && Told(keys, r.value, OfLength(len))
    ensures r.None? ==> NoColumn(keys, len)
  {
    for col := 0 to len
      invariant forall c | 0 <= c < col :: !Told(keys, c, OfLength(len))
    {
      var distinct := TellsApart(keys, col, OfLength(len));
      if distinct { return Some(col); }
    }
    return None;
  }

  /** Two keys that `seed` puts in one slot. */
  ghost predicate Collide(keys: Keys, mode: Mode, column: nat, perLen: seq<u8>, seed: u64, mask: nat)
    requires forall i | 0 <= i < |keys| :: Reaches(keys[i], mode, column, perLen)
  {
    exists i, j | 0 <= i < j < |keys| ::
      Slot(Preimage(keys[i], mode, column, perLen), seed, mode, mask) == Slot(Preimage(keys[j], mode, column, perLen), seed, mode, mask)
  }

  /** The first seed that puts every key in a slot of its own, and the table it fills: every
      other slot holds `n`. */
  method SearchSeed(keys: Keys, slots: nat, mode: Mode, column: nat, perLen: seq<u8>) returns (r: Option<(u64, seq<u8>)>)
    requires 1 <= slots <= SLOT_CAP && |keys| <= MAX_HASHED_KEYS
    requires forall i | 0 <= i < |keys| :: Reaches(keys[i], mode, column, perLen)
    ensures r.Some? ==> r.value.0 != 0 && Indexed(keys, mode, column, perLen, r.value.0, slots - 1, r.value.1)
    ensures r.None? ==> forall a | 0 <= a < SEED_ATTEMPTS ::
                          SeedAt(a) == 0 || Collide(keys, mode, column, perLen, SeedAt(a), slots - 1)
  {
    hide Slot, Preimage, SeedAt;
    var n, mask := |keys|, slots - 1;
    var pre := new u64[MAX_HASHED_KEYS];
    for i := 0 to n
      invariant forall a | 0 <= a < i :: pre[a] == Preimage(keys[a], mode, column, perLen)
    {
      pre[i] := SearchPreimage(keys[i], mode, column, perLen);
    }
    for attempt := 0 to SEED_ATTEMPTS
      invariant forall a | 0 <= a < n :: pre[a] == Preimage(keys[a], mode, column, perLen)
      invariant forall a | 0 <= a < attempt :: SeedAt(a) == 0 || Collide(keys, mode, column, perLen, SeedAt(a), mask)
    {
      var seed := SeedAt(attempt);
      if seed != 0 {
        var table := new u8[SLOT_CAP](_ => n);
        var ok := true;
        for i := 0 to n
          invariant ok
          invariant forall a | 0 <= a < n :: pre[a] == Preimage(keys[a], mode, column, perLen)
          invariant forall e | 0 <= e < SLOT_CAP ::
                      table[e] == n || (table[e] < i && Slot(Preimage(keys[table[e]], mode, column, perLen), seed, mode, mask) == e)
          invariant forall a | 0 <= a < i :: table[Slot(Preimage(keys[a], mode, column, perLen), seed, mode, mask)] == a
        {
          var h := Slot(pre[i], seed, mode, mask);
          if table[h] != n {
            ok := false;
            break;
          }
          table[h] := i;
        }
        if ok { return Some((seed, table[..])); }
      }
    }
    return None;
  }

  /** Build the map: refused exactly when two keys are equal or one would have to be escaped,
      and otherwise fit for both lookups. */
  method Build(keys: Keys) returns (r: Result<KeyMap, Refusal>)
    ensures r.Ok? <==> AllDistinct(keys) && NoneEscaped(keys)
    ensures r == Result.Err(DuplicateKey) <==> !AllDistinct(keys)
    ensures r.Ok? ==> Built(r.value, keys)
  {
    var n := |keys|;
    var zeros := seq(SLOT_CAP, _ => 0);
    var m := KeyMap(Empty, n, 0, 0, 0, 0, 0, zeros, zeros);
    if n == 0 { return Result.Ok(m); }
    var duplicate := HasDuplicate(keys);
    if duplicate { return Result.Err(DuplicateKey); }
    var escape := HasEscape(keys);
    if escape { return Result.Err(EscapedKey); }
    var minLen, maxLen := LengthsOf(keys);
    m := m.(minLen := minLen, maxLen := maxLen);
    if n > MAX_HASHED_KEYS { return Result.Ok(m.(kind := Linear)); }
    if n == 1 { return Result.Ok(m.(kind := SingleElement)); }
    m := BuildHashed(keys, m);
    return Result.Ok(m);
  }

  /** What every rung starts from: the keys counted, measured and fit to be served. */
  ghost predicate Based(keys: Keys, base: KeyMap) {
    && 2 <= |keys| <= MAX_HASHED_KEYS && AllDistinct(keys) && NoneEscaped(keys)
    && base.n == |keys| && Lengths(keys, base.minLen, base.maxLen)
  }

  /** The rungs of the ladder, for two keys and up. */
  method BuildHashed(keys: Keys, base: KeyMap) returns (m: KeyMap)
    requires Based(keys, base)
    ensures Built(m, keys)
  {
    hide Slot, Preimage, Front, SeedAt, Xor, IsPow2, Indexed;
    var n := |keys|;
    var slots := SlotsFor(n);
    m := base.(mask := slots - 1);
    if (n == 3 || n == 4) && m.minLen > 0 {
      var kind := TryMod4(keys);
      if kind.Some? { return m.(kind := kind.value, seed := keys[0][0]); }
    }
    var column := FindUniqueIndex(keys, m.minLen);
    if column.Some? {
      m := BuildColumn(keys, m, column.value);
      return;
    }
    var empty := seq(SLOT_CAP, _ => 0);
    var rung := BuildFront(keys, m, slots, empty);
    if rung.Some? { return rung.value; }
    rung := BuildSized(keys, m, slots, empty);
    if rung.Some? { return rung.value; }
    rung := BuildPerLength(keys, m, slots);
    if rung.Some? { return rung.value; }
    if n <= MAX_SEARCHED_KEYS {
      rung := BuildSearched(keys, m, slots, Full, 0, empty);
      if rung.Some? { return rung.value; }
    }
    return m.(kind := Linear);
  }

  /** A hash of what `mode` looks at in a key, if some seed separates the keys by it. */
  method BuildSearched(keys: Keys, base: KeyMap, slots: nat, mode: Mode, column: nat, perLen: seq<u8>)
    returns (r: Option<KeyMap>)
    requires Based(keys, base) && 1 <= slots <= SLOT_CAP && base.mask == slots - 1
    requires InReach(mode, column, perLen, base.minLen, base.maxLen)
    requires forall i | 0 <= i < |keys| :: Reaches(keys[i], mode, column, perLen)
    ensures r.Some? ==> Built(r.value, keys)
  {
    hide Slot, Preimage, SeedAt, Reaches;
    var found := SearchSeed(keys, slots, mode, column, perLen);
    if found.None? { return None; }
    return Some(base.(kind := Hashed(mode), uniqueIndex := column, seed := found.value.0, table := found.value.1,
                      perLen := perLen));
  }

  /** One column and the length, if a column tells keys of each length apart. */
  method BuildSized(keys: Keys, base: KeyMap, slots: nat, empty: seq<u8>) returns (r: Option<KeyMap>)
    requires Based(keys, base) && 1 <= slots <= SLOT_CAP && base.mask == slots - 1
    ensures r.Some? ==> Built(r.value, keys)
  {
    var sized := FindSizedUniqueIndex(keys, base.minLen);
    if sized.None? { return None; }
    r := BuildSearched(keys, base, slots, Sized, sized.value, empty);
  }

  /** A column for each length, and the length. */
  method BuildPerLength(keys: Keys, base: KeyMap, slots: nat) returns (r: Option<KeyMap>)
    requires Based(keys, base) && 1 <= slots <= SLOT_CAP && base.mask == slots - 1
    ensures r.Some? ==> Built(r.value, keys)
  {
    var perLen := FindPerLength(keys, base.minLen, base.maxLen);
    if perLen.None? { return None; }
    r := BuildSearched(keys, base, slots, PerLength, 0, perLen.value);
  }

  /** A column that tells every key apart: a comparison for two, a direct table for more. */
  method BuildColumn(keys: Keys, base: KeyMap, column: nat) returns (m: KeyMap)
    requires Based(keys, base)
    requires column < base.minLen && Told(keys, column, Any)
    ensures Built(m, keys)
  {
    var n := |keys|;
    m := base.(uniqueIndex := column);
    if n == 2 { return m.(kind := UniqueIndexTwo, seed := keys[0][column]); }
    var table := new u8[SLOT_CAP](_ => n);
    for i := 0 to n
      invariant forall e | 0 <= e < SLOT_CAP :: table[e] <= n
      invariant forall a | 0 <= a < i :: table[keys[a][column]] == a
    {
      table[keys[i][column]] := i;
    }
    return m.(kind := UniqueIndex, table := table[..]);
  }

  /** The leading two, four or eight bytes, if every key has them and they differ. */
  method BuildFront(keys: Keys, base: KeyMap, slots: nat, empty: seq<u8>) returns (r: Option<KeyMap>)
    requires Based(keys, base) && 1 <= slots <= SLOT_CAP && base.mask == slots - 1
    ensures r.Some? ==> Built(r.value, keys)
  {
    hide Slot, Preimage, Front, SeedAt, Indexed;
    var width := 2;
    while width <= 8
      invariant width in {2, 4, 8, 16}
      decreases 16 - width
    {
      var mode := if width == 2 then Front2 else if width == 4 then Front4 else Front8;
      if base.minLen >= width {
        var distinct := FrontBytesDistinct(keys, width);
        if distinct {
          r := BuildSearched(keys, base, slots, mode, 0, empty);
          if r.Some? { return; }
        }
      }
      width := width * 2;
    }
    return None;
  }

  // ---------------------------------------------------------------------
  // Looking a key up
  // ---------------------------------------------------------------------

  /** The candidate a table scheme gives a key it can reach. */
  method Candidate(m: KeyMap, mode: Mode, key: Bytes) returns (i: nat)
    requires m.mask < SLOT_CAP && TableOf(m.table, m.n) && Reaches(key, mode, m.uniqueIndex, m.perLen)
    ensures i == m.table[Slot(Preimage(key, mode, m.uniqueIndex, m.perLen), m.seed, mode, m.mask)]
  {
    var pre := SearchPreimage(key, mode, m.uniqueIndex, m.perLen);
    return m.table[Slot(pre, m.seed, mode, m.mask)];
  }

  /** The part of a key's hash that does not depend on the seed. */
  method SearchPreimage(key: Bytes, mode: Mode, column: nat, perLen: seq<u8>) returns (pre: u64)
    requires Reaches(key, mode, column, perLen)
    ensures pre == Preimage(key, mode, column, perLen)
  {
    match mode {
      case Front2 => pre := ToU64Below8(key, 2);
      case Front4 => pre := ToU64Below8(key, 4);
      case Front8 => pre := ToU64Below8(key, 8);
      case Sized => return WithLength(key[column], |key|);
      case PerLength => return WithLength(key[perLen[|key|]], |key|);
      case Full =>
        pre := KeyDigest(key, |key|);
        assert key[..|key|] == key;
    }
  }

  /** Compare against each key in turn. */
  method LinearSearch(keys: Keys, key: Bytes) returns (i: nat)
    ensures i <= |keys|
    ensures i < |keys| ==> keys[i] == key
    ensures forall j | 0 <= j < i :: keys[j] != key
  {
    i := 0;
    while i < |keys|
      invariant 0 <= i <= |keys| && forall j | 0 <= j < i :: keys[j] != key
    {
      if keys[i] == key { return; }
      i := i + 1;
    }
  }

  /** Map a key whose length is known to a candidate: any declared key to its own index, and
      anything else to some index or to `n`. */
  method LookupSized(m: KeyMap, keys: Keys, key: Bytes) returns (i: nat)
    requires Built(m, keys)
    ensures i <= |keys|
    ensures forall k | 0 <= k < |keys| && keys[k] == key :: i == k
  {
    var n, len := m.n, |key|;
    if len < m.minLen || len > m.maxLen { return n; }
    match m.kind {
      case Empty => return n;
      case SingleElement => return 0;
      case Mod4 => return key[0] % 4;
      case XorMod4 => return Xor(key[0], m.seed % 256) % 4;
      case MinusMod4 => return WrappingSub(key[0], m.seed % 256) % 4;
      case UniqueIndexTwo => return if key[m.uniqueIndex] != m.seed % 256 then 1 else 0;
      case UniqueIndex => return m.table[key[m.uniqueIndex]];
      case Hashed(mode) =>
        if mode == PerLength && m.perLen[len] >= len { return n; }
        i := Candidate(m, mode, key);
      case Linear => i := LinearSearch(keys, key);
    }
  }

  /** First `"` at or after `from`. */
  method FindQuote(buf: Bytes, from: nat) returns (r: Option<nat>)
    ensures r.Some? ==> from <= r.value < |buf| && buf[r.value] == Swar.QUOTE
    ensures r.Some? ==> forall j | from <= j < r.value :: buf[j] != Swar.QUOTE
    ensures r.None? ==> forall j | from <= j < |buf| :: buf[j] != Swar.QUOTE
  {
    var n, i := |buf|, from;
    while i + 8 <= n
      invariant from <= i && (i <= n || i == from)
      invariant forall j | from <= j < i && j < n :: buf[j] != Swar.QUOTE
    {
      hide And, Xor64, Swar.Word, Swar.FirstMatch, QuoteMask;
      var m := QuoteMask(Swar.Word(buf[i..i + 8]));
      QuoteMaskFinds(buf, i);
      if m != 0 { return Some(i + Swar.FirstMatch(m)); }
      i := i + 8;
    }
    while i < n
      invariant from <= i && (i <= n || i == from)
      invariant forall j | from <= j < i && j < n :: buf[j] != Swar.QUOTE
    {
      if buf[i] == Swar.QUOTE { return Some(i); }
      i := i + 1;
    }
    return None;
  }

  const ONES: u64 := 0x0101_0101_0101_0101
  const HIGH: u64 := 0x8080_8080_8080_8080
  const QUOTES: u64 := 0x2222_2222_2222_2222

  /** Light the high bit of every quote in a word, up to the first and perhaps some past it. */
  function QuoteMask(chunk: u64): nat {
    var x := Xor64(chunk, QUOTES);
    And(And(Swar.WrappingSub(x, ONES), Swar.Not(x)), HIGH)
  }

  /** The mask of quotes points at the first of them. */
  lemma QuoteMaskFinds(buf: Bytes, i: nat)
    requires i + 8 <= |buf|
    ensures var m := QuoteMask(Swar.Word(buf[i..i + 8]));
            && (m == 0 ==> forall j | i <= j < i + 8 :: buf[j] != Swar.QUOTE)
            && (m != 0 ==> Swar.FirstMatch(m) < 8 && buf[i + Swar.FirstMatch(m)] == Swar.QUOTE
                           && forall j | i <= j < i + Swar.FirstMatch(m) :: buf[j] != Swar.QUOTE)
  {
    hide And, Xor64, Swar.Word, Swar.FirstMatch, Swar.WrappingSub, Swar.Not;
    Swar.WordFinds(buf, i, Swar.QUOTE);
    assert Swar.Splat(Swar.QUOTE) == QUOTES;
  }

  /** Length of the key at `buf[0]`, if it could be one of ours. */
  method KeyLen(m: KeyMap, buf: Bytes) returns (r: Option<nat>)
    ensures r.Some? ==> m.minLen <= r.value <= m.maxLen && r.value < |buf| && buf[r.value] == Swar.QUOTE
    ensures forall len: nat | m.minLen <= len <= m.maxLen && len < |buf| && buf[len] == Swar.QUOTE
                              && (forall j | 0 <= j < len :: buf[j] != Swar.QUOTE) :: r == Some(len)
  {
    if |buf| < m.minLen { return None; }
    var end := FindQuote(buf, m.minLen);
    if end.None? || end.value > m.maxLen { return None; }
    return end;
  }

  /** A document that begins with a key and its closing quote. */
  ghost predicate Begins(buf: Bytes, key: Bytes) {
    |key| < |buf| && buf[..|key|] == key && buf[|key|] == Swar.QUOTE
  }

  /** Map the key starting at `buf[0]`, wherever its quote is, to a candidate. */
  method Lookup(m: KeyMap, keys: Keys, buf: Bytes) returns (i: nat)
    requires Built(m, keys)
    ensures i <= |keys|
    ensures forall k | 0 <= k < |keys| && Begins(buf, keys[k]) :: i == k
  {
    hide Xor, Indexed, InReach, Slot, Preimage;
    var n := m.n;
    match m.kind {
      case Empty => return n;
      case SingleElement => return 0;
      case Mod4 => return if buf == [] then n else buf[0] % 4;
      case XorMod4 => return if buf == [] then n else Xor(buf[0], m.seed % 256) % 4;
      case MinusMod4 => return if buf == [] then n else WrappingSub(buf[0], m.seed % 256) % 4;
      case UniqueIndexTwo =>
        if |buf| <= m.uniqueIndex { return n; }
        return if buf[m.uniqueIndex] != m.seed % 256 then 1 else 0;
      case UniqueIndex =>
        if |buf| <= m.uniqueIndex { return n; }
        return m.table[buf[m.uniqueIndex]];
      case Hashed(mode) => i := LookupHashed(m, keys, mode, buf);
      case Linear =>
        var len := KeyLen(m, buf);
        if len.None? { return n; }
        i := LinearSearch(keys, buf[..len.value]);
    }
  }

  method LookupHashed(m: KeyMap, keys: Keys, mode: Mode, buf: Bytes) returns (i: nat)
    requires Built(m, keys) && m.kind == Hashed(mode)
    ensures i <= |keys|
    ensures forall k | 0 <= k < |keys| && Begins(buf, keys[k]) :: i == k
  {
    hide Slot, Preimage;
    var n := m.n;
    if mode == Front2 || mode == Front4 || mode == Front8 {
      var width := if mode == Front2 then 2 else if mode == Front4 then 4 else 8;
      if |buf| < width { return n; }
      i := Candidate(m, mode, buf[..width]);
      forall k | 0 <= k < |keys| && Begins(buf, keys[k]) ensures i == k {
        FrontAlike(keys[k], buf[..width], mode, m.uniqueIndex, m.perLen);
      }
    } else {
      var len := KeyLen(m, buf);
      if len.None? { return n; }
      var key := buf[..len.value];
      if mode == PerLength && m.perLen[|key|] >= |key| { return n; }
      i := Candidate(m, mode, key);
    }
  }

  /** A front hash sees a key's leading bytes and nothing of what follows them. */
  lemma FrontAlike(a: Bytes, b: Bytes, mode: Mode, column: nat, perLen: seq<u8>)
    requires mode.Front2? || mode.Front4? || mode.Front8?
    requires Reaches(a, mode, column, perLen) && Reaches(b, mode, column, perLen)
    requires b <= a
    ensures Preimage(a, mode, column, perLen) == Preimage(b, mode, column, perLen)
  {
    var w := if mode == Front2 then 2 else if mode == Front4 then 4 else 8;
    assert a[..w] == b[..w];
  }

  // ---------------------------------------------------------------------
  // Looking up and comparing
  // ---------------------------------------------------------------------

  /** The index of a key, as a search of the list finds it. */
  ghost predicate IsIndexOf(r: Option<nat>, keys: Keys, key: Bytes) {
    match r
    case Some(i) => i < |keys| && keys[i] == key
    case None => key !in keys
  }

  /** A sized lookup confirmed by comparing the candidate: a search of the whole list. */
  method Resolve(m: KeyMap, keys: Keys, key: Bytes) returns (r: Option<nat>)
    requires Built(m, keys)
    ensures IsIndexOf(r, keys, key)
  {
    var i := LookupSized(m, keys, key);
    return if i < |keys| && keys[i] == key then Some(i) else None;
  }

  /** A quoted lookup confirmed the same way: the one key the document begins with. */
  method ResolveQuoted(m: KeyMap, keys: Keys, buf: Bytes) returns (r: Option<nat>)
    requires Built(m, keys)
    ensures r.Some? ==> r.value < |keys| && Begins(buf, keys[r.value])
    ensures r.None? ==> forall k | 0 <= k < |keys| :: !Begins(buf, keys[k])
  {
    var i := Lookup(m, keys, buf);
    if i < |keys| && |keys[i]| < |buf| && buf[..|keys[i]|] == keys[i] && buf[|keys[i]|] == Swar.QUOTE { return Some(i); }
    return None;
  }
}
