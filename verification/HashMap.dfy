/** src/hashmap.c: an open-addressing hash map with linear probing and tombstones. The
    hash is any function of the key. Allocation and element copies may fail when memory is
    not plentiful. */
module HashMaps {
  import opened Allocation
  import opened BinaryArithmetic
  import opened HashTable
  import opened Options

  class HashMap {
    var hash: Key -> nat
    var capacity: nat
    var size: nat
    var tombstones: nat
    var states: array<Bucket>
    var keys: array<Key>
    var values: array<Value>
    ghost var contents: map<Key, Value>

    ghost predicate Valid()
      reads this, states, keys, values
    {
      && (states as object) != keys && (states as object) != values && (keys as object) != values
      && states.Length == keys.Length == values.Length == capacity
      && Loaded(hash, states[..], keys[..], values[..], size, tombstones, contents)
    }

    // room for n entries in all without another rehash
    ghost predicate Reserved(n: nat)
      reads this
    {
      tombstones == 0 && n * 4 <= capacity * 3
    }

    twostate predicate ArraysKept()
      reads this
    {
      states == old(states) && keys == old(keys) && values == old(values)
    }

    twostate predicate ArraysFresh()
      reads this
    {
      fresh(states) && fresh(keys) && fresh(values)
    }

    constructor (hash: Key -> nat)
      ensures Valid() && contents == map[] && this.hash == hash && capacity == 0
      ensures fresh(states) && fresh(keys) && fresh(values)
    {
      this.hash, capacity, size, tombstones, contents := hash, 0, 0, 0, map[];
      states, keys, values := new Bucket[0], new Key[0], new Value[0];
      new;
      LoadedEmpty(hash, states[..], keys[..], values[..]);
    }

    lemma SizeIsCardinality()
      requires Valid()
      ensures size == |contents|
    {
      LoadedSize(hash, states[..], keys[..], values[..], size, tombstones, contents);
    }

    // The buckets that first and next list are those of the entries, each key in one of them.
    lemma EachEntryOnce()
      requires Valid()
      ensures size == |contents| && EachOnce(keys[..], values[..], contents, OccupiedFrom(states[..], 0))
    {
      SizeIsCardinality();
      EntriesOnce(hash, states[..], keys[..], values[..], size, tombstones, contents);
    }

    // the least bucket count, doubling from the initial one, that n entries do not overload
    static method BucketCapacityForEntries(n: nat) returns (buckets: nat)
      ensures n == 0 ==> buckets == 0
      ensures n > 0 ==> buckets >= HASHMAP_INIT_CAPACITY && IsPow2(buckets) && n * 4 <= buckets * 3
      ensures n > 0 && buckets > HASHMAP_INIT_CAPACITY ==> n * 4 > (buckets / 2) * 3
    {
      buckets := HASHMAP_INIT_CAPACITY;
      if n == 0 {
        return 0;
      }
      assert HASHMAP_INIT_CAPACITY == Pow2(3);
      while n * 4 > buckets * 3
        invariant buckets >= HASHMAP_INIT_CAPACITY && IsPow2(buckets)
        invariant buckets > HASHMAP_INIT_CAPACITY ==> n * 4 > (buckets / 2) * 3
        decreases n * 4 - buckets * 3
      {
        DoublePow2(buckets);
        buckets := buckets * 2;
      }
    }

    // probing of a table without tombstones, as rehashing builds it
    static method FindSlotInRawTable(states: array<Bucket>, keys: array<Key>, ghost hash: Key -> nat, key: Key, h: nat)
      returns (index: nat)
      requires states.Length == keys.Length > 0 && IsPow2(states.Length) && h == hash(key)
      requires exists j :: 0 <= j < states.Length && states[j] != Occupied
      ensures index < states.Length
      ensures states[index] == Occupied ==> keys[index] == key && Present(states[..], keys[..], key)
      ensures states[index] != Occupied ==> Slot(hash, states[..], key, index)
    {
      var mask := states.Length - 1;
      index := And(h, mask);
      MaskHome(h, states.Length);
      ghost var n, home, d := states.Length, index, 0;
      ghost var free :| 0 <= free < n && states[free] != Occupied;
      assert home == Home(hash, key, n);
      while states[index] == Occupied
        invariant d <= Distance(home, free, n) && index == Pos(home, d, n)
        invariant Filled(states[..], home, d)
        decreases Distance(home, free, n) - d
      {
        if keys[index] == key {
          break;
        }
        assert d != Distance(home, free, n);
        MaskStep(home, d, n);
        index := And(index + 1, mask);
        d := d + 1;
      }
      DistancePos(home, d, n);
    }

    // Finds the bucket of a key, or else the first bucket on its probe path that it may take.
    method FindSlot(key: Key, h: nat) returns (index: nat, found: bool)
      requires Valid() && capacity > 0 && h == hash(key)
      ensures index < capacity && (found <==> key in contents)
      ensures found ==> states[index] == Occupied && keys[index] == key && values[index] == contents[key]
      ensures !found ==> Slot(hash, states[..], key, index) && states[index] != Occupied
      ensures !found ==> var home := h % capacity;
        forall e {:trigger Pos(home, e, capacity)} | 0 <= e < Distance(home, index, capacity) ::
          states[Pos(home, e, capacity)] == Occupied
    {
      SomeEmpty(states[..]);
      ghost var free :| 0 <= free < capacity && states[..][free] == Empty;
      ghost var d, f, first;
      index, found, d, f, first := Probe(key, h, free);
      MirrorsPresent(states[..], keys[..], values[..], contents, key);
      if found {
        assert states[..][index] == Occupied && keys[..][index] == key;
      } else {
        ProbeEnd(hash, states[..], keys[..], key, d, f, first);
      }
    }

    // The loop of hashmap_find_slot. It ends because the bucket free is empty.
    method Probe(key: Key, h: nat, ghost free: nat)
      returns (index: nat, found: bool, ghost d: nat, ghost f: nat, ghost first: int)
      requires states.Length == keys.Length == capacity && IsPow2(capacity) && h == hash(key)
      requires free < capacity && states[free] == Empty
      ensures index < capacity && Probing(hash, states[..], keys[..], key, d, f, first)
      ensures found ==> states[index] == Occupied && keys[index] == key
      ensures !found ==> var i := Pos(Home(hash, key, capacity), d, capacity);
        states[i] == Empty && index == if first == NPOS then i else first
    {
      var mask := capacity - 1;
      index := And(h, mask);
      var firstDeleted := NPOS;
      ghost var st, ks := states[..], keys[..];
      d, f, first := 0, 0, NPOS;
      WalkStart(hash, st, ks, key, free);
      while true
        invariant Walking(hash, st, ks, key, d, f, firstDeleted, index, free)
        decreases Distance(Home(hash, key, |st|), free, |st|) - d
      {
        var state := states[index];
        if state == Empty {
          return if firstDeleted != NPOS then firstDeleted else index, false, d, f, firstDeleted;
        }
        if state == Occupied && keys[index] == key {
          return index, true, d, f, firstDeleted;
        }
        WalkNext(hash, st, ks, key, d, f, firstDeleted, index, free);
        if state == Deleted && firstDeleted == NPOS {
          firstDeleted := index;
        }
        index := And(index + 1, mask);
        d, f := d + 1, if firstDeleted == NPOS then f + 1 else f;
      }
    }

    // Moves every entry into a new table. Fails without any effect when memory runs out.
    method Rehash(newCapacity: nat, plenty: bool) returns (ok: bool)
      requires Valid() && newCapacity >= HASHMAP_INIT_CAPACITY && IsPow2(newCapacity) && size * 4 <= newCapacity * 3
      modifies this
      ensures Valid() && contents == old(contents) && size == old(size) && hash == old(hash)
      ensures ok ==> capacity == newCapacity && tombstones == 0 && fresh(states) && fresh(keys) && fresh(values)
      ensures !ok ==> capacity == old(capacity) && tombstones == old(tombstones)
      ensures !ok ==> ArraysKept()
      ensures plenty ==> ok
    {
      ok := Attempt(plenty);
      if !ok {
        return;
      }
      var ns := new Bucket[newCapacity](_ => Empty);
      var nk, nv := new Key[newCapacity], new Value[newCapacity];
      ghost var done := MoveAll(ns, nk, nv);
      MovedDone(hash, states[..], keys[..], values[..], ns[..], nk[..], nv[..], done, size, tombstones, contents);
      Install(ns, nk, nv);
    }

    // a new table without tombstones takes the place of the old one
    method Install(ns: array<Bucket>, nk: array<Key>, nv: array<Value>)
      requires (ns as object) != nk && (ns as object) != nv && (nk as object) != nv
      requires ns.Length == nk.Length == nv.Length && Loaded(hash, ns[..], nk[..], nv[..], size, 0, contents)
      modifies `states, `keys, `values, `capacity, `tombstones
      ensures Valid() && states == ns && keys == nk && values == nv && tombstones == 0
    {
      states, keys, values := ns, nk, nv;
      capacity, tombstones := ns.Length, 0;
    }

    // the loop of hashmap_rehash
    method MoveAll(ns: array<Bucket>, nk: array<Key>, nv: array<Value>) returns (ghost done: map<Key, Value>)
      requires Valid() && ns.Length == nk.Length == nv.Length > 0 && IsPow2(ns.Length) && size < ns.Length
      requires (ns as object) != nk && (ns as object) != nv && (nk as object) != nv
      requires {ns as object, nk, nv} !! {states as object, keys, values}
      requires ns[..] == Vacant(ns.Length)
      modifies ns, nk, nv
      ensures Moved(hash, states[..], keys[..], values[..], capacity, ns[..], nk[..], nv[..], done)
    {
      done := map[];
      ghost var st, ks, vs := states[..], keys[..], values[..];
      MovedStart(hash, st, ks, vs, ns[..], nk[..], nv[..]);
      for i := 0 to capacity
        invariant states[..] == st && keys[..] == ks && values[..] == vs
        invariant Moved(hash, st, ks, vs, i, ns[..], nk[..], nv[..], done)
      {
        ghost var ss, sk, sv := ns[..], nk[..], nv[..];
        if states[i] != Occupied {
          MovedSkip(hash, st, ks, vs, i, ss, sk, sv, done);
          continue;
        }
        done := MoveEntry(ns, nk, nv, i, done);
      }
    }

    static method Write(states: array<Bucket>, keys: array<Key>, values: array<Value>, index: nat, key: Key,
            value: Value)
      requires (states as object) != keys && (states as object) != values && (keys as object) != values
      requires index < states.Length == keys.Length == values.Length
      modifies states, keys, values
      ensures states[..] == old(states[..])[index := Occupied]
      ensures keys[..] == old(keys[..])[index := key] && values[..] == old(values[..])[index := value]
    {
      keys[index] := key;
      values[index] := value;
      states[index] := Occupied;
    }

    method MoveEntry(ns: array<Bucket>, nk: array<Key>, nv: array<Value>, i: nat, ghost done: map<Key, Value>)
      returns (ghost done': map<Key, Value>)
      requires Valid() && ns.Length == nk.Length == nv.Length > 0 && IsPow2(ns.Length) && size < ns.Length
      requires (ns as object) != nk && (ns as object) != nv && (nk as object) != nv
      requires {ns as object, nk, nv} !! {states as object, keys, values}
      requires Moved(hash, states[..], keys[..], values[..], i, ns[..], nk[..], nv[..], done)
      requires i < capacity && states[i] == Occupied
      modifies ns, nk, nv
      ensures Moved(hash, states[..], keys[..], values[..], i + 1, ns[..], nk[..], nv[..], done')
    {
      ghost var st, ks, vs := states[..], keys[..], values[..];
      ghost var ss, sk, sv := ns[..], nk[..], nv[..];
      MovedRoom(hash, st, ks, vs, i, ss, sk, sv, done);
      var target := FindSlotInRawTable(ns, nk, hash, keys[i], hash(keys[i]));
      MovedStep(hash, st, ks, vs, i, ss, sk, sv, done, target);
      done' := done[keys[i] := values[i]];
      Write(ns, nk, nv, target, keys[i], values[i]);
      assert states[..] == st && keys[..] == ks && values[..] == vs;
    }

    // makes room for one more entry
    method PrepareInsert(plenty: bool) returns (ok: bool)
      requires Valid()
      modifies this
      ensures Valid() && contents == old(contents) && size == old(size) && hash == old(hash)
      ensures ok ==> capacity > 0 && (size + tombstones + 1) * 4 <= capacity * 3
      ensures tombstones <= old(tombstones)
      ensures capacity == if !ok || old(capacity > 0 && (size + tombstones + 1) * 4 <= capacity * 3) then old(capacity)
                          else if old(capacity) == 0 then HASHMAP_INIT_CAPACITY else old(capacity) * 2
      ensures (ArraysKept() && capacity == old(capacity) && tombstones == old(tombstones)) || ArraysFresh()
      ensures old(capacity > 0 && (size + tombstones + 1) * 4 <= capacity * 3) ==>
        ok && ArraysKept()
      ensures plenty ==> ok
    {
      if capacity == 0 {
        assert HASHMAP_INIT_CAPACITY == Pow2(3);
        ok := Rehash(HASHMAP_INIT_CAPACITY, plenty);
        return;
      }
      if (size + tombstones + 1) * 4 <= capacity * 3 {
        return true;
      }
      DoublePow2(capacity);
      ok := Rehash(capacity * 2, plenty);
    }

    // After a successful reserve of n, inserting new keys causes no rehash while there are at most n entries.
    method Reserve(n: nat, plenty: bool) returns (ok: bool)
      requires Valid()
      modifies this
      ensures Valid() && contents == old(contents) && size == old(size) && hash == old(hash)
      ensures ok && n > 0 ==> tombstones == 0 && n * 4 <= capacity * 3
      ensures capacity >= old(capacity)
      ensures capacity > old(capacity) ==> capacity == HASHMAP_INIT_CAPACITY || n * 4 > (capacity / 2) * 3
      ensures (ArraysKept() && capacity == old(capacity) && tombstones == old(tombstones)) || ArraysFresh()
      ensures plenty ==> ok
    {
      if n == 0 {
        return true;
      }
      var buckets := BucketCapacityForEntries(n);
      if buckets < capacity {
        buckets := capacity;
      }
      if buckets == capacity && tombstones == 0 {
        return true;
      }
      ok := Rehash(buckets, plenty);
    }

    // Adds or replaces an entry, at index. On failure the map is as before, though perhaps in a
    // larger table.
    method Set(key: Key, value: Value, plenty: bool) returns (ok: bool, ghost index: nat)
      requires Valid()
      modifies this, states, keys, values
      ensures Valid() && hash == old(hash)
      ensures contents == if ok then old(contents)[key := value] else old(contents)
      ensures ArraysKept() || ArraysFresh()
      ensures ok ==>
        capacity == if old(capacity > 0 && (size + tombstones + 1) * 4 <= capacity * 3) then old(capacity)
                    else if old(capacity) == 0 then HASHMAP_INIT_CAPACITY else old(capacity) * 2
      ensures ok ==> index < capacity && states[index] == Occupied && keys[index] == key
      ensures ok && key !in old(contents) ==> var home := Home(hash, key, capacity);
        forall e {:trigger Pos(home, e, capacity)} | 0 <= e < Distance(home, index, capacity) ::
          states[Pos(home, e, capacity)] == Occupied
      ensures forall n :: old(Reserved(n) && size < n) ==>
        Reserved(n) && capacity == old(capacity) && ArraysKept()
      ensures plenty ==> ok
    {
      index := 0;
      ok := PrepareInsert(plenty);
      if !ok {
        return;
      }
      var h := hash(key);
      var slot, found := FindSlot(key, h);
      ok := Attempt(plenty);
      if !ok {
        return;
      }
      if found {
        Replace(slot, value);
      } else {
        Place(slot, key, value);
      }
      index := slot;
    }

    method Replace(index: nat, value: Value)
      requires Valid() && index < capacity && states[index] == Occupied
      modifies `contents, values
      ensures Valid() && contents == old(contents)[keys[index] := value]
    {
      ghost var st, ks, vs := states[..], keys[..], values[..];
      LoadedReplace(hash, st, ks, vs, size, tombstones, contents, index, value);
      contents := contents[keys[index] := value];
      values[index] := value;
      assert states[..] == st && keys[..] == ks && values[..] == vs[index := value];
    }

    method Place(index: nat, key: Key, value: Value)
      requires Valid() && Slot(hash, states[..], key, index) && key !in contents
      requires (size + tombstones + 1) * 4 <= capacity * 3
      modifies `size, `tombstones, `contents, states, keys, values
      ensures Valid() && contents == old(contents)[key := value] && tombstones <= old(tombstones)
      ensures states[..] == old(states[..])[index := Occupied] && keys[..] == old(keys[..])[index := key]
    {
      ghost var st, ks, vs := states[..], keys[..], values[..];
      LoadedInsert(hash, st, ks, vs, size, tombstones, contents, index, key, value);
      if states[index] == Deleted {
        tombstones := tombstones - 1;
      }
      contents := contents[key := value];
      size := size + 1;
      Write(states, keys, values, index, key, value);
    }

    method Contains(key: Key) returns (found: bool)
      requires Valid()
      ensures found <==> key in contents
    {
      if capacity == 0 {
        NoBuckets(key);
        return false;
      }
      var h := hash(key);
      var index;
      index, found := FindSlot(key, h);
    }

    lemma NoBuckets(key: Key)
      requires Valid() && capacity == 0
      ensures key !in contents
    {
    }

    method At(key: Key) returns (r: Option<Value>)
      requires Valid()
      ensures r == if key in contents then Some(contents[key]) else None
    {
      if capacity == 0 {
        NoBuckets(key);
        return None;
      }
      var h := hash(key);
      var index, found := FindSlot(key, h);
      if !found {
        return None;
      }
      r := Some(values[index]);
    }

    method Delete(key: Key) returns (ok: bool)
      requires Valid()
      modifies this, states
      ensures Valid() && hash == old(hash) && capacity == old(capacity)
      ensures ArraysKept()
      ensures ok <==> key in old(contents)
      ensures contents == old(contents) - {key}
      ensures ok ==> tombstones == if contents == map[] then 0 else old(tombstones) + 1
      ensures !ok ==> tombstones == old(tombstones) && states[..] == old(states[..])
    {
      if capacity == 0 {
        NoBuckets(key);
        return false;
      }
      var h := hash(key);
      var index, found := FindSlot(key, h);
      if !found {
        assert contents - {key} == contents;
        return false;
      }
      Remove(index);
      return true;
    }

    // Once the last entry is gone every tombstone is dropped as well.
    method Remove(index: nat)
      requires Valid() && index < capacity && states[index] == Occupied
      modifies `size, `tombstones, `contents, states
      ensures Valid() && contents == old(contents) - {keys[index]}
      ensures tombstones == if contents == map[] then 0 else old(tombstones) + 1
    {
      Erase(index);
      SizeIsCardinality();
      if size == 0 {
        Vacate();
      }
    }

    method Erase(index: nat)
      requires Valid() && index < capacity && states[index] == Occupied
      modifies `size, `tombstones, `contents, states
      ensures Valid() && contents == old(contents) - {keys[index]} && tombstones == old(tombstones) + 1
    {
      ghost var st, ks, vs := states[..], keys[..], values[..];
      LoadedDelete(hash, st, ks, vs, size, tombstones, contents, index);
      contents := contents - {keys[index]};
      size := size - 1;
      tombstones := tombstones + 1;
      states[index] := Deleted;
      assert states[..] == st[index := Deleted] && keys[..] == ks && values[..] == vs;
    }

    // empties every bucket
    method Vacate()
      requires Valid()
      modifies `size, `tombstones, `contents, states
      ensures Valid() && contents == map[] && size == 0 && tombstones == 0
    {
      ghost var ks, vs := keys[..], values[..];
      for i := 0 to states.Length
        invariant forall j | 0 <= j < i :: states[j] == Empty
        invariant keys[..] == ks && values[..] == vs
      {
        states[i] := Empty;
      }
      assert states[..] == Vacant(capacity);
      size, tombstones, contents := 0, 0, map[];
      LoadedEmpty(hash, states[..], keys[..], values[..]);
    }

    method Clear()
      requires Valid()
      modifies this, states
      ensures Valid() && contents == map[] && size == 0 && tombstones == 0
      ensures capacity == old(capacity) && hash == old(hash)
      ensures ArraysKept()
    {
      Vacate();
    }

    // the least occupied bucket at or after start
    method FindOccupiedFrom(start: nat) returns (i: int)
      requires Valid()
      ensures i == NPOS || start <= i < capacity
      ensures i != NPOS ==> states[i] == Occupied
      ensures forall j | start <= j < (if i == NPOS then capacity else i) :: states[j] != Occupied
    {
      if start >= capacity {
        return NPOS;
      }
      i := start;
      while i < capacity
        invariant start <= i <= capacity
        invariant forall j | start <= j < i :: states[j] != Occupied
      {
        if states[i] == Occupied {
          return;
        }
        i := i + 1;
      }
      return NPOS;
    }

    method First() returns (i: int)
      requires Valid()
      ensures i == NPOS || 0 <= i < capacity
      ensures i != NPOS ==> states[i] == Occupied
      ensures forall j | 0 <= j < (if i == NPOS then capacity else i) :: states[j] != Occupied
    {
      i := FindOccupiedFrom(0);
    }

    method Next(index: nat) returns (i: int)
      requires Valid()
      ensures i == NPOS || index < i < capacity
      ensures i != NPOS ==> states[i] == Occupied
      ensures forall j | index < j < (if i == NPOS then capacity else i) :: states[j] != Occupied
    {
      if index >= capacity {
        return NPOS;
      }
      i := FindOccupiedFrom(index + 1);
    }

    // Makes this map equal to src, visiting each entry of src once; on failure it is left empty.
    method CopyFrom(src: HashMap, plenty: bool) returns (ok: bool, ghost visited: seq<nat>)
      requires Valid() && src.Valid()
      requires this != src ==> Apart(src)
      modifies this, states, keys, values
      ensures Valid() && (this != src ==> src.Valid())
      ensures contents == if ok then old(src.contents) else map[]
      ensures ok ==> hash == old(src.hash)
      ensures ok && this != src ==> visited == OccupiedFrom(src.states[..], 0)
      ensures plenty ==> ok
    {
      visited := [];
      if this == src {
        return true, [];
      }
      Init(src.hash);
      ok, visited := CopyInto(src, plenty);
      if !ok {
        Clear();
      }
    }

    method CopyInto(src: HashMap, plenty: bool) returns (ok: bool, ghost visited: seq<nat>)
      requires Valid() && src.Valid() && Apart(src) && contents == map[]
      modifies this, states, keys, values
      ensures Valid() && hash == old(hash) && (ArraysKept() || ArraysFresh())
      ensures ok ==> contents == src.contents && visited == OccupiedFrom(src.states[..], 0)
      ensures plenty ==> ok
    {
      visited := [];
      ok := Reserve(src.size, plenty);
      if ok {
        ok, visited := CopyEntries(src, plenty);
      }
    }

    // hashmap_destroy followed by hashmap_init
    method Init(hash: Key -> nat)
      modifies this
      ensures Valid() && contents == map[] && this.hash == hash
      ensures fresh(states) && fresh(keys) && fresh(values)
    {
      this.hash, capacity, size, tombstones, contents := hash, 0, 0, 0, map[];
      states, keys, values := new Bucket[0], new Key[0], new Value[0];
      LoadedEmpty(hash, states[..], keys[..], values[..]);
    }

    // the arrays of the two maps have nothing in common
    ghost predicate Apart(src: HashMap)
      reads this, src
    {
      this != src && {states as object, keys, values} !! {src.states as object, src.keys, src.values}
    }

    // The entries of src before bucket i have been set, those in the buckets visited; i is the
    // next occupied one, or NPOS.
    ghost predicate Copying(src: HashMap, i: int, visited: seq<nat>)
      reads this, states, keys, values, src, src.states, src.keys, src.values
    {
      && Valid() && src.Valid() && Apart(src)
      && (i == NPOS || (0 <= i < src.capacity && src.states[i] == Occupied))
      && Listed(src.states[..], src.keys[..], src.values[..], contents, if i == NPOS then src.capacity else i, visited)
    }

    // The loop of hashmap_copy: first and next visit the occupied buckets of src in order.
    method CopyEntries(src: HashMap, plenty: bool) returns (ok: bool, ghost visited: seq<nat>)
      requires Valid() && src.Valid() && Apart(src) && contents == map[]
      modifies this, states, keys, values
      ensures Valid() && hash == old(hash) && (ArraysKept() || ArraysFresh())
      ensures ok ==> contents == src.contents && visited == OccupiedFrom(src.states[..], 0)
      ensures plenty ==> ok
    {
      var i := src.First();
      ok, visited := true, [];
      ListedStart(src.states[..], src.keys[..], src.values[..], if i == NPOS then src.capacity else i);
      while ok && i != NPOS
        invariant Valid() && hash == old(hash) && (ArraysKept() || ArraysFresh())
        invariant (ok ==> Copying(src, i, visited)) && (plenty ==> ok)
        decreases ok, if i == NPOS then 0 else src.capacity - i
      {
        ok, i, visited := CopyEntry(src, i, visited, plenty);
      }
      if ok {
        ListedAll(src.states[..], src.keys[..], src.values[..], contents, src.contents, visited);
      }
    }

    method CopyEntry(src: HashMap, i: nat, ghost visited: seq<nat>, plenty: bool)
      returns (ok: bool, next: int, ghost visited': seq<nat>)
      requires Copying(src, i, visited)
      modifies this, states, keys, values
      ensures Valid() && hash == old(hash) && (ArraysKept() || ArraysFresh())
      ensures ok ==> Copying(src, next, visited') && (next == NPOS || i < next < src.capacity)
      ensures plenty ==> ok
    {
      ghost var before := contents;
      next, visited' := NPOS, visited + [i];
      ok := SetFrom(src, i, plenty);
      if ok {
        next := src.Next(i);
        ListedStep(src.hash, src.states[..], src.keys[..], src.values[..], before, i, visited,
                   if next == NPOS then src.capacity else next);
      }
    }

    method SetFrom(src: HashMap, i: nat, plenty: bool) returns (ok: bool)
      requires Valid() && src.Valid() && Apart(src) && i < src.capacity
      modifies this, states, keys, values
      ensures Valid() && src.Valid() && Apart(src) && hash == old(hash) && (ArraysKept() || ArraysFresh())
      ensures ok ==> contents == old(contents)[src.keys[i] := src.values[i]]
      ensures plenty ==> ok
    {
      ghost var index;
      ok, index := Set(src.keys[i], src.values[i], plenty);
    }
  }
}
