/** The open-addressing table of src/hashmap.c as sequences: probing, tombstones, and
    what each kind of update does to the table and to the map it stands for. */
module HashTable {
  import opened BinaryArithmetic

  // keys and values of any kind; unused buckets hold arbitrary ones
  type Key(==, 0)
  type Value(0)

  const HASHMAP_INIT_CAPACITY: nat := 8
  const NPOS: int := -1  // for SIZE_MAX, the index of no bucket

  datatype Bucket = Empty | Occupied | Deleted

  // d steps along the cyclic probe path from home
  function Pos(home: nat, d: nat, cap: nat): nat
    requires home < cap && d < cap
  {
    if home + d < cap then home + d else home + d - cap
  }

  lemma PosCyclic(home: nat, d: nat, cap: nat)
    requires home < cap && d < cap
    ensures Pos(home, d, cap) == (home + d) % cap
  {
    if home + d < cap {
      RemainderUnique(home + d, cap, 0, home + d);
    } else {
      RemainderUnique(home + d, cap, 1, home + d - cap);
    }
  }

  function Distance(home: nat, i: nat, cap: nat): (d: nat)
    requires home < cap && i < cap
    ensures d < cap && Pos(home, d, cap) == i
  {
    if home <= i then i - home else i + cap - home
  }

  lemma DistancePos(home: nat, d: nat, cap: nat)
    requires home < cap && d < cap
    ensures Distance(home, Pos(home, d, cap), cap) == d
  {
  }

  // no bucket among the first d on the probe path is empty
  ghost predicate Clear(st: seq<Bucket>, home: nat, d: nat)
    requires home < |st| && d <= |st|
  {
    forall e {:trigger Pos(home, e, |st|)} | 0 <= e < d :: st[Pos(home, e, |st|)] != Empty
  }

  // the bucket a key hashes to
  function Home(hash: Key -> nat, k: Key, cap: nat): (h: nat)
    requires cap > 0
    ensures h < cap
  {
    hash(k) % cap
  }

  // Each key is stored once, and its probe path reaches it without meeting an empty bucket.
  ghost predicate Table(hash: Key -> nat, st: seq<Bucket>, keys: seq<Key>) {
    && |st| == |keys|
    && (forall i {:trigger keys[i]} | 0 <= i < |st| && st[i] == Occupied :: Reachable(hash, st, keys, i))
    && (forall i, j {:trigger keys[i], keys[j]} |
          0 <= i < |st| && 0 <= j < |st| && st[i] == Occupied && st[j] == Occupied && keys[i] == keys[j] :: i == j)
  }

  ghost predicate Reachable(hash: Key -> nat, st: seq<Bucket>, keys: seq<Key>, i: nat)
    requires i < |st| == |keys|
  {
    var home := Home(hash, keys[i], |st|);
    Clear(st, home, Distance(home, i, |st|))
  }

  ghost predicate Present(st: seq<Bucket>, keys: seq<Key>, k: Key)
    requires |st| == |keys|
  {
    exists i :: 0 <= i < |st| && st[i] == Occupied && keys[i] == k
  }

  // ---------- counting buckets ----------

  ghost function Count(st: seq<Bucket>, b: Bucket): nat {
    if st == [] then 0 else Count(st[..|st| - 1], b) + if st[|st| - 1] == b then 1 else 0
  }

  lemma {:induction false} CountUpdate(st: seq<Bucket>, i: nat, b: Bucket, c: Bucket)
    requires i < |st|
    ensures Count(st[i := b], c) == Count(st, c) + (if b == c then 1 else 0) - (if st[i] == c then 1 else 0)
  {
    var n := |st| - 1;
    if i == n {
      assert st[i := b][..n] == st[..n];
    } else {
      assert st[i := b][..n] == st[..n][i := b];
      CountUpdate(st[..n], i, b, c);
    }
  }

  lemma {:induction false} CountPositive(st: seq<Bucket>, b: Bucket)
    ensures Count(st, b) > 0 <==> exists i :: 0 <= i < |st| && st[i] == b
  {
    if st != [] {
      var n := |st| - 1;
      CountPositive(st[..n], b);
      if exists i :: 0 <= i < n && st[..n][i] == b {
        var i :| 0 <= i < n && st[..n][i] == b;
        assert st[i] == b;
      }
      if exists i :: 0 <= i < |st| && st[i] == b {
        var i :| 0 <= i < |st| && st[i] == b;
        assert i < n ==> st[..n][i] == b;
      }
    }
  }

  // a table that is not full of occupied and deleted buckets has an empty one
  lemma SomeEmpty(st: seq<Bucket>)
    requires Count(st, Occupied) + Count(st, Deleted) < |st|
    ensures exists i :: 0 <= i < |st| && st[i] == Empty
  {
  }

  // ---------- probing ----------

  // i is the first bucket on the probe path of k that is not occupied: an absent key goes there
  ghost predicate Slot(hash: Key -> nat, st: seq<Bucket>, k: Key, i: nat) {
    && i < |st| && st[i] != Occupied
    && Filled(st, Home(hash, k, |st|), Distance(Home(hash, k, |st|), i, |st|))
  }

  // the first d buckets on the probe path are occupied
  ghost predicate Filled(st: seq<Bucket>, home: nat, d: nat)
    requires home < |st| && d <= |st|
  {
    forall e {:trigger Pos(home, e, |st|)} | 0 <= e < d :: st[Pos(home, e, |st|)] == Occupied
  }

  // d buckets of the probe path of k have been passed, the first f of them occupied; first
  // is the bucket after those f when it is a tombstone already met
  ghost predicate Probing(hash: Key -> nat, st: seq<Bucket>, keys: seq<Key>, k: Key, d: nat, f: nat, first: int) {
    && f <= d < |st| == |keys|
    && var home := Home(hash, k, |st|);
    && Filled(st, home, f)
    && (forall e {:trigger Pos(home, e, |st|)} | 0 <= e < d ::
          var i := Pos(home, e, |st|); !(st[i] == Occupied && keys[i] == k))
    && if first == NPOS then f == d else f < d && first == Pos(home, f, |st|) && st[first] == Deleted
  }

  // the probe has come to bucket index, and not past the empty bucket free
  ghost predicate Walking(hash: Key -> nat, st: seq<Bucket>, keys: seq<Key>, k: Key, d: nat, f: nat, first: int,
          index: nat, free: nat) {
    && Probing(hash, st, keys, k, d, f, first) && free < |st| && st[free] == Empty
    && var home := Home(hash, k, |st|);
    d <= Distance(home, free, |st|) && index == Pos(home, d, |st|)
  }

  lemma WalkStart(hash: Key -> nat, st: seq<Bucket>, keys: seq<Key>, k: Key, free: nat)
    requires free < |st| == |keys| && IsPow2(|st|) && st[free] == Empty
    ensures Walking(hash, st, keys, k, 0, 0, NPOS, And(hash(k), |st| - 1), free)
  {
    MaskHome(hash(k), |st|);
  }

  lemma ProbeNext(hash: Key -> nat, st: seq<Bucket>, keys: seq<Key>, k: Key, d: nat, f: nat, first: int, index: nat)
    requires Probing(hash, st, keys, k, d, f, first) && d + 1 < |st| && index == Pos(Home(hash, k, |st|), d, |st|)
    requires st[index] != Empty && !(st[index] == Occupied && keys[index] == k)
    ensures var first' := if st[index] == Deleted && first == NPOS then index else first;
      Probing(hash, st, keys, k, d + 1, if first' == NPOS then f + 1 else f, first')
  {
  }

  lemma WalkNext(hash: Key -> nat, st: seq<Bucket>, keys: seq<Key>, k: Key, d: nat, f: nat, first: int, index: nat,
                 free: nat)
    requires Walking(hash, st, keys, k, d, f, first, index, free) && IsPow2(|st|)
    requires st[index] != Empty && !(st[index] == Occupied && keys[index] == k)
    ensures d < Distance(Home(hash, k, |st|), free, |st|)
    ensures var first' := if st[index] == Deleted && first == NPOS then index else first;
      Walking(hash, st, keys, k, d + 1, if first' == NPOS then f + 1 else f, first', And(index + 1, |st| - 1), free)
  {
    var home := Home(hash, k, |st|);
    assert d != Distance(home, free, |st|);
    ProbeNext(hash, st, keys, k, d, f, first, index);
    MaskStep(home, d, |st|);
  }

  // A probe that meets an empty bucket has seen the key if it is there.
  lemma ProbeEnd(hash: Key -> nat, st: seq<Bucket>, keys: seq<Key>, k: Key, d: nat, f: nat, first: int)
    requires Table(hash, st, keys) && Probing(hash, st, keys, k, d, f, first)
    requires st[Pos(Home(hash, k, |st|), d, |st|)] == Empty
    ensures !Present(st, keys, k)
    ensures Slot(hash, st, k, if first == NPOS then Pos(Home(hash, k, |st|), d, |st|) else first)
  {
  }

  // ---------- updates ----------

  lemma InsertTable(hash: Key -> nat, st: seq<Bucket>, keys: seq<Key>, k: Key, i: nat)
    requires Table(hash, st, keys) && Slot(hash, st, k, i) && !Present(st, keys, k)
    ensures Table(hash, st[i := Occupied], keys[i := k])
  {
    var st', keys' := st[i := Occupied], keys[i := k];
    forall j | 0 <= j < |st| && st'[j] == Occupied ensures Reachable(hash, st', keys', j) {
      var home := Home(hash, keys'[j], |st|);
      if j != i {
        assert keys[j] == keys'[j] && Reachable(hash, st, keys, j);
      }
      assert Clear(st, home, Distance(home, j, |st|));
    }
  }

  lemma DeleteTable(hash: Key -> nat, st: seq<Bucket>, keys: seq<Key>, i: nat)
    requires Table(hash, st, keys) && i < |st| && st[i] == Occupied
    ensures Table(hash, st[i := Deleted], keys)
  {
    var st' := st[i := Deleted];
    forall j | 0 <= j < |st| && st'[j] == Occupied ensures Reachable(hash, st', keys, j) {
      assert Reachable(hash, st, keys, j);
    }
  }

  // ---------- the map ----------

  // contents is the map from the keys of the occupied buckets to their values
  ghost predicate Mirrors(st: seq<Bucket>, keys: seq<Key>, values: seq<Value>, contents: map<Key, Value>) {
    && |st| == |keys| == |values|
    && (forall i {:trigger keys[i]} | 0 <= i < |st| && st[i] == Occupied ::
          keys[i] in contents && contents[keys[i]] == values[i])
    && (forall k | k in contents :: Present(st, keys, k))
  }

  lemma InsertMirrors(st: seq<Bucket>, keys: seq<Key>, values: seq<Value>, contents: map<Key, Value>, i: nat, k: Key,
          v: Value)
    requires Mirrors(st, keys, values, contents) && i < |st| && st[i] != Occupied && !Present(st, keys, k)
    ensures Mirrors(st[i := Occupied], keys[i := k], values[i := v], contents[k := v])
  {
    var st', keys' := st[i := Occupied], keys[i := k];
    forall q | q in contents[k := v] ensures Present(st', keys', q) {
      if q == k {
        assert keys'[i] == k;
      } else {
        var j :| 0 <= j < |st| && st[j] == Occupied && keys[j] == q;
        assert keys'[j] == q;
      }
    }
  }

  // a table stands for one map only
  lemma MirrorsUnique(st: seq<Bucket>, keys: seq<Key>, values: seq<Value>, m: map<Key, Value>, m': map<Key, Value>)
    requires Mirrors(st, keys, values, m) && Mirrors(st, keys, values, m')
    ensures m == m'
  {
  }

  lemma MirrorsPresent(st: seq<Bucket>, keys: seq<Key>, values: seq<Value>, m: map<Key, Value>, k: Key)
    requires Mirrors(st, keys, values, m)
    ensures k in m <==> Present(st, keys, k)
  {
  }

  // ---------- the buckets before i, which rehashing has moved ----------

  lemma PrefixMirrors(st: seq<Bucket>, keys: seq<Key>, values: seq<Value>, m: map<Key, Value>, i: nat)
    requires i < |st| == |keys| == |values| && Mirrors(st[..i], keys[..i], values[..i], m)
    requires st[i] == Occupied && !Present(st[..i], keys[..i], keys[i])
    ensures Mirrors(st[..i + 1], keys[..i + 1], values[..i + 1], m[keys[i] := values[i]])
  {
  }

  lemma PrefixSkip(st: seq<Bucket>, keys: seq<Key>, values: seq<Value>, m: map<Key, Value>, i: nat)
    requires i < |st| == |keys| == |values| && Mirrors(st[..i], keys[..i], values[..i], m)
    requires st[i] != Occupied
    ensures Mirrors(st[..i + 1], keys[..i + 1], values[..i + 1], m)
  {
  }

  ghost predicate CopiedUpTo(st: seq<Bucket>, keys: seq<Key>, values: seq<Value>, m: map<Key, Value>, i: nat) {
    i <= |st| == |keys| == |values| && Mirrors(st[..i], keys[..i], values[..i], m)
  }

  lemma {:induction false} PrefixSkipTo(st: seq<Bucket>, keys: seq<Key>, values: seq<Value>, m: map<Key, Value>,
          i: nat, j: nat)
    requires CopiedUpTo(st, keys, values, m, i) && i <= j <= |st|
    requires forall e | i <= e < j :: st[e] != Occupied
    ensures CopiedUpTo(st, keys, values, m, j)
    decreases j - i
  {
  }

  lemma PrefixAbsent(hash: Key -> nat, st: seq<Bucket>, keys: seq<Key>, i: nat)
    requires Table(hash, st, keys) && i < |st| && st[i] == Occupied
    ensures !Present(st[..i], keys[..i], keys[i])
  {
  }

  lemma {:induction false} CountPrefix(st: seq<Bucket>, i: nat, b: Bucket)
    requires i < |st|
    ensures Count(st[..i + 1], b) == Count(st[..i], b) + if st[i] == b then 1 else 0
  {
    assert st[..i + 1][..i] == st[..i];
  }

  lemma {:induction false} CountPrefixBound(st: seq<Bucket>, i: nat, b: Bucket)
    requires i <= |st|
    ensures Count(st[..i], b) <= Count(st, b)
    decreases |st| - i
  {
    if i < |st| {
      CountPrefix(st, i, b);
      CountPrefixBound(st, i + 1, b);
    } else {
      assert st[..i] == st;
    }
  }

  // ---------- the occupied buckets, as first and next list them ----------

  ghost function OccupiedFrom(st: seq<Bucket>, i: nat): seq<nat>
    decreases |st| - i
  {
    if i >= |st| then [] else (if st[i] == Occupied then [i] else []) + OccupiedFrom(st, i + 1)
  }

  lemma {:induction false} OccupiedSkip(st: seq<Bucket>, i: nat, j: nat)
    requires i <= j <= |st| && forall e | i <= e < j :: st[e] != Occupied
    ensures OccupiedFrom(st, i) == OccupiedFrom(st, j)
    decreases j - i
  {
    if i < j {
      OccupiedSkip(st, i + 1, j);
    }
  }

  ghost predicate Ascending(r: seq<nat>) {
    forall a, b | 0 <= a < b < |r| :: r[a] < r[b]
  }

  lemma {:induction false} OccupiedMembers(st: seq<Bucket>, i: nat)
    ensures forall b :: b in OccupiedFrom(st, i) <==> i <= b < |st| && st[b] == Occupied
    decreases |st| - i
  {
    if i < |st| {
      OccupiedMembers(st, i + 1);
    }
  }

  lemma {:induction false} OccupiedAscend(st: seq<Bucket>, i: nat)
    ensures Ascending(OccupiedFrom(st, i))
    decreases |st| - i
  {
    if i < |st| {
      var rest := OccupiedFrom(st, i + 1);
      OccupiedAscend(st, i + 1);
      OccupiedMembers(st, i + 1);
      assert forall b | 0 <= b < |rest| :: rest[b] in rest;
    }
  }

  lemma {:induction false} OccupiedCount(st: seq<Bucket>, i: nat)
    requires i <= |st|
    ensures |OccupiedFrom(st, i)| + Count(st[..i], Occupied) == Count(st, Occupied)
    decreases |st| - i
  {
    if i < |st| {
      OccupiedCount(st, i + 1);
      CountPrefix(st, i, Occupied);
    } else {
      assert st[..i] == st;
    }
  }

  // b is the bucket of an entry of m
  ghost predicate EntryAt(keys: seq<Key>, values: seq<Value>, m: map<Key, Value>, b: nat) {
    b < |keys| == |values| && keys[b] in m && m[keys[b]] == values[b]
  }

  // the buckets in r, in ascending order, hold every entry of m once
  ghost predicate EachOnce(keys: seq<Key>, values: seq<Value>, m: map<Key, Value>, r: seq<nat>) {
    && |r| == |m| && Ascending(r)
    && (forall b | b in r :: EntryAt(keys, values, m, b))
    && (forall b, b' | b in r && b' in r && keys[b] == keys[b'] :: b == b')
    && (forall k | k in m :: exists b :: b in r && keys[b] == k)
  }

  lemma EntriesOnce(hash: Key -> nat, st: seq<Bucket>, keys: seq<Key>, values: seq<Value>,
                    size: nat, tombstones: nat, contents: map<Key, Value>)
    requires Loaded(hash, st, keys, values, size, tombstones, contents)
    ensures EachOnce(keys, values, contents, OccupiedFrom(st, 0))
  {
    OccupiedMembers(st, 0);
    OccupiedAscend(st, 0);
    OccupiedCount(st, 0);
    LoadedSize(hash, st, keys, values, size, tombstones, contents);
    forall k | k in contents ensures exists b :: b in OccupiedFrom(st, 0) && keys[b] == k {
      var b :| 0 <= b < |st| && st[b] == Occupied && keys[b] == k;
      assert b in OccupiedFrom(st, 0);
    }
  }

  // m holds the entries before bucket i, which are in the buckets visited
  ghost predicate Listed(st: seq<Bucket>, keys: seq<Key>, values: seq<Value>, m: map<Key, Value>, i: nat,
          visited: seq<nat>) {
    CopiedUpTo(st, keys, values, m, i) && visited + OccupiedFrom(st, i) == OccupiedFrom(st, 0)
  }

  lemma ListedStart(st: seq<Bucket>, keys: seq<Key>, values: seq<Value>, i: nat)
    requires i <= |st| == |keys| == |values| && forall e | 0 <= e < i :: st[e] != Occupied
    ensures Listed(st, keys, values, map[], i, [])
  {
    PrefixSkipTo(st, keys, values, map[], 0, i);
    OccupiedSkip(st, 0, i);
  }

  lemma ListedStep(hash: Key -> nat, st: seq<Bucket>, keys: seq<Key>, values: seq<Value>, m: map<Key, Value>, i: nat,
                   visited: seq<nat>, j: nat)
    requires Table(hash, st, keys) && Listed(st, keys, values, m, i, visited)
    requires i < j <= |st| && st[i] == Occupied && forall e | i < e < j :: st[e] != Occupied
    ensures Listed(st, keys, values, m[keys[i] := values[i]], j, visited + [i])
  {
    PrefixAbsent(hash, st, keys, i);
    PrefixMirrors(st, keys, values, m, i);
    PrefixSkipTo(st, keys, values, m[keys[i] := values[i]], i + 1, j);
    OccupiedSkip(st, i + 1, j);
    assert (visited + [i]) + OccupiedFrom(st, i + 1) == visited + OccupiedFrom(st, i);
  }

  lemma ListedAll(st: seq<Bucket>, keys: seq<Key>, values: seq<Value>, m: map<Key, Value>, m': map<Key, Value>,
                  visited: seq<nat>)
    requires Listed(st, keys, values, m, |st|, visited) && Mirrors(st, keys, values, m')
    ensures m == m' && visited == OccupiedFrom(st, 0)
  {
    assert st[..|st|] == st && keys[..|st|] == keys && values[..|st|] == values;
    MirrorsUnique(st, keys, values, m, m');
  }

  // ---------- the empty table ----------

  ghost function Vacant(n: nat): seq<Bucket> { seq(n, _ => Empty) }

  lemma {:induction false} VacantCount(n: nat, b: Bucket)
    ensures Count(Vacant(n), b) == if b == Empty then n else 0
  {
    if n > 0 {
      assert Vacant(n)[..n - 1] == Vacant(n - 1);
      VacantCount(n - 1, b);
    }
  }

  // the number of occupied buckets is the number of keys
  lemma {:induction false} CountKeys(hash: Key -> nat, st: seq<Bucket>, keys: seq<Key>, values: seq<Value>,
          m: map<Key, Value>, i: nat)
    requires Table(hash, st, keys) && |values| == |st| && i <= |st|
    requires Mirrors(st[..i], keys[..i], values[..i], m)
    ensures |m| == Count(st[..i], Occupied)
  {
    if i > 0 {
      var n := i - 1;
      CountPrefix(st, n, Occupied);
      if st[n] == Occupied {
        PrefixAbsent(hash, st, keys, n);
        assert st[..i][n] == Occupied && keys[..i][n] == keys[n];
        var m' := m - {keys[n]};
        PrefixBack(st, keys, values, m, m', n);
        CountKeys(hash, st, keys, values, m', n);
        assert m'.Keys == m.Keys - {keys[n]};
      } else {
        PrefixBack(st, keys, values, m, m, n);
        CountKeys(hash, st, keys, values, m, n);
      }
    }
  }

  lemma PrefixBack(st: seq<Bucket>, keys: seq<Key>, values: seq<Value>, m: map<Key, Value>, m': map<Key, Value>, n: nat)
    requires n < |st| == |keys| == |values| && Mirrors(st[..n + 1], keys[..n + 1], values[..n + 1], m)
    requires st[n] == Occupied ==> !Present(st[..n], keys[..n], keys[n])
    requires m' == if st[n] == Occupied then m - {keys[n]} else m
    ensures Mirrors(st[..n], keys[..n], values[..n], m')
  {
  }

  // ---------- the invariant of the table and its counters ----------

  // no buckets at all, or a power of two of them, at most three quarters not empty
  ghost predicate Loaded(hash: Key -> nat, st: seq<Bucket>, keys: seq<Key>, values: seq<Value>,
                         size: nat, tombstones: nat, contents: map<Key, Value>) {
    && Table(hash, st, keys) && Mirrors(st, keys, values, contents)
    && (|st| == 0 || (|st| >= HASHMAP_INIT_CAPACITY && IsPow2(|st|)))
    && size == Count(st, Occupied) && tombstones == Count(st, Deleted)
    && (size + tombstones) * 4 <= |st| * 3
  }

  lemma LoadedSize(hash: Key -> nat, st: seq<Bucket>, keys: seq<Key>, values: seq<Value>,
                   size: nat, tombstones: nat, contents: map<Key, Value>)
    requires Loaded(hash, st, keys, values, size, tombstones, contents)
    ensures size == |contents|
  {
    assert st[..|st|] == st && keys[..|st|] == keys && values[..|st|] == values;
    CountKeys(hash, st, keys, values, contents, |st|);
  }

  lemma LoadedEmpty(hash: Key -> nat, st: seq<Bucket>, keys: seq<Key>, values: seq<Value>)
    requires st == Vacant(|st|) && |st| == |keys| == |values|
    requires |st| == 0 || (|st| >= HASHMAP_INIT_CAPACITY && IsPow2(|st|))
    ensures Loaded(hash, st, keys, values, 0, 0, map[])
  {
    VacantCount(|st|, Occupied);
    VacantCount(|st|, Deleted);
  }

  lemma LoadedInsert(hash: Key -> nat, st: seq<Bucket>, keys: seq<Key>, values: seq<Value>,
                     size: nat, tombstones: nat, contents: map<Key, Value>, i: nat, k: Key, v: Value)
    requires Loaded(hash, st, keys, values, size, tombstones, contents)
    requires Slot(hash, st, k, i) && k !in contents && (size + tombstones + 1) * 4 <= |st| * 3
    ensures st[i] == Deleted ==> tombstones > 0
    ensures Loaded(hash, st[i := Occupied], keys[i := k], values[i := v], size + 1,
                   if st[i] == Deleted then tombstones - 1 else tombstones, contents[k := v])
  {
    MirrorsPresent(st, keys, values, contents, k);
    InsertTable(hash, st, keys, k, i);
    InsertMirrors(st, keys, values, contents, i, k, v);
    CountUpdate(st, i, Occupied, Occupied);
    CountUpdate(st, i, Occupied, Deleted);
    CountPositive(st, Deleted);
  }

  lemma LoadedReplace(hash: Key -> nat, st: seq<Bucket>, keys: seq<Key>, values: seq<Value>,
                      size: nat, tombstones: nat, contents: map<Key, Value>, i: nat, v: Value)
    requires Loaded(hash, st, keys, values, size, tombstones, contents)
    requires i < |st| && st[i] == Occupied
    ensures Loaded(hash, st, keys, values[i := v], size, tombstones, contents[keys[i] := v])
  {
  }

  lemma LoadedDelete(hash: Key -> nat, st: seq<Bucket>, keys: seq<Key>, values: seq<Value>,
                     size: nat, tombstones: nat, contents: map<Key, Value>, i: nat)
    requires Loaded(hash, st, keys, values, size, tombstones, contents)
    requires i < |st| && st[i] == Occupied
    ensures size > 0
    ensures Loaded(hash, st[i := Deleted], keys, values, size - 1, tombstones + 1, contents - {keys[i]})
  {
    DeleteTable(hash, st, keys, i);
    CountUpdate(st, i, Deleted, Occupied);
    CountUpdate(st, i, Deleted, Deleted);
    CountPositive(st, Occupied);
  }

  // ---------- rehashing ----------

  // ns, nk, nv hold the entries of the first i buckets, and no tombstone
  ghost predicate Moved(hash: Key -> nat, st: seq<Bucket>, keys: seq<Key>, values: seq<Value>, i: nat,
                        ns: seq<Bucket>, nk: seq<Key>, nv: seq<Value>, done: map<Key, Value>) {
    && i <= |st| == |keys| == |values| && Mirrors(st[..i], keys[..i], values[..i], done)
    && Table(hash, ns, nk) && Mirrors(ns, nk, nv, done)
    && Count(ns, Occupied) == Count(st[..i], Occupied) && Count(ns, Deleted) == 0
  }

  lemma MovedStart(hash: Key -> nat, st: seq<Bucket>, keys: seq<Key>, values: seq<Value>,
                   ns: seq<Bucket>, nk: seq<Key>, nv: seq<Value>)
    requires |st| == |keys| == |values| && ns == Vacant(|ns|) && |ns| == |nk| == |nv|
    ensures Moved(hash, st, keys, values, 0, ns, nk, nv, map[])
  {
    VacantCount(|ns|, Occupied);
    VacantCount(|ns|, Deleted);
  }

  lemma MovedSkip(hash: Key -> nat, st: seq<Bucket>, keys: seq<Key>, values: seq<Value>, i: nat,
                  ns: seq<Bucket>, nk: seq<Key>, nv: seq<Value>, done: map<Key, Value>)
    requires Moved(hash, st, keys, values, i, ns, nk, nv, done) && i < |st| && st[i] != Occupied
    ensures Moved(hash, st, keys, values, i + 1, ns, nk, nv, done)
  {
    PrefixSkip(st, keys, values, done, i);
    CountPrefix(st, i, Occupied);
  }

  // there is room for the next entry, which is not in the new table yet
  lemma MovedRoom(hash: Key -> nat, st: seq<Bucket>, keys: seq<Key>, values: seq<Value>, i: nat,
                  ns: seq<Bucket>, nk: seq<Key>, nv: seq<Value>, done: map<Key, Value>)
    requires Moved(hash, st, keys, values, i, ns, nk, nv, done) && Table(hash, st, keys)
    requires i < |st| && st[i] == Occupied && Count(st, Occupied) < |ns|
    ensures !Present(ns, nk, keys[i]) && !Present(st[..i], keys[..i], keys[i])
    ensures exists j :: 0 <= j < |ns| && ns[j] != Occupied
  {
    PrefixAbsent(hash, st, keys, i);
    MirrorsPresent(st[..i], keys[..i], values[..i], done, keys[i]);
    MirrorsPresent(ns, nk, nv, done, keys[i]);
    CountPrefix(st, i, Occupied);
    CountPrefixBound(st, i + 1, Occupied);
    SomeEmpty(ns);
  }

  lemma MovedStep(hash: Key -> nat, st: seq<Bucket>, keys: seq<Key>, values: seq<Value>, i: nat,
                  ns: seq<Bucket>, nk: seq<Key>, nv: seq<Value>, done: map<Key, Value>, j: nat)
    requires Moved(hash, st, keys, values, i, ns, nk, nv, done)
    requires i < |st| && st[i] == Occupied && Slot(hash, ns, keys[i], j)
    requires !Present(ns, nk, keys[i]) && !Present(st[..i], keys[..i], keys[i])
    ensures Moved(hash, st, keys, values, i + 1, ns[j := Occupied], nk[j := keys[i]], nv[j := values[i]],
                  done[keys[i] := values[i]])
  {
    PrefixMirrors(st, keys, values, done, i);
    InsertTable(hash, ns, nk, keys[i], j);
    InsertMirrors(ns, nk, nv, done, j, keys[i], values[i]);
    CountPrefix(st, i, Occupied);
    CountUpdate(ns, j, Occupied, Occupied);
    CountUpdate(ns, j, Occupied, Deleted);
    CountPositive(ns, Deleted);
  }

  lemma MovedDone(hash: Key -> nat, st: seq<Bucket>, keys: seq<Key>, values: seq<Value>,
                  ns: seq<Bucket>, nk: seq<Key>, nv: seq<Value>, done: map<Key, Value>,
                  size: nat, tombstones: nat, contents: map<Key, Value>)
    requires Loaded(hash, st, keys, values, size, tombstones, contents)
    requires Moved(hash, st, keys, values, |st|, ns, nk, nv, done)
    requires |ns| >= HASHMAP_INIT_CAPACITY && IsPow2(|ns|) && size * 4 <= |ns| * 3
    ensures Loaded(hash, ns, nk, nv, size, 0, contents)
  {
    assert st[..|st|] == st && keys[..|st|] == keys && values[..|st|] == values;
    MirrorsUnique(st, keys, values, contents, done);
  }

  // ---------- stepping along the probe path ----------

  lemma MaskHome(h: nat, cap: nat)
    requires cap > 0 && IsPow2(cap)
    ensures And(h, cap - 1) == h % cap
  {
    var k :| cap == Pow2(k);
    AndMask(h, k);
  }

  // the masked increment is the next bucket on the cyclic path
  lemma MaskStep(home: nat, d: nat, cap: nat)
    requires cap > 0 && IsPow2(cap) && home < cap && d + 1 < cap
    ensures And(Pos(home, d, cap) + 1, cap - 1) == Pos(home, d + 1, cap)
  {
    var i := Pos(home, d, cap) + 1;
    MaskHome(i, cap);
    if i < cap {
      RemainderUnique(i, cap, 0, i);
    } else {
      RemainderUnique(i, cap, 1, 0);
    }
  }
}
