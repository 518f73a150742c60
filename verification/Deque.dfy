/** src/deque.c: a double-ended queue in a ring buffer. Allocation and element copies may fail
    when memory is not plentiful. */
module Deques {
  import opened Allocation
  import opened BinaryArithmetic
  import opened Options

  type Elem(0)

  const DEQUE_INIT_CAPACITY: nat := 8

  // the slot of element index
  function Slot(head: nat, index: nat, capacity: nat): (slot: nat)
    requires head < capacity
    ensures slot < capacity
  {
    (head + index) % capacity
  }

  lemma SlotWraps(head: nat, index: nat, capacity: nat)
    requires head < capacity && index < capacity
    ensures Slot(head, index, capacity) == if head + index < capacity then head + index else head + index - capacity
  {
    if head + index < capacity {
      RemainderUnique(head + index, capacity, 0, head + index);
    } else {
      RemainderUnique(head + index, capacity, 1, head + index - capacity);
    }
  }

  // Occupied slots are distinct.
  lemma SlotsDistinct(head: nat, i: nat, j: nat, capacity: nat)
    requires head < capacity && i < capacity && j < capacity
    ensures Slot(head, i, capacity) == Slot(head, j, capacity) <==> i == j
  {
    SlotWraps(head, i, capacity);
    SlotWraps(head, j, capacity);
  }

  // the ring holds s from head on
  ghost predicate Ring(data: seq<Elem>, head: nat, s: seq<Elem>) {
    && |s| <= |data| && (if |data| == 0 then head == 0 else head < |data|)
    && forall i | 0 <= i < |s| :: Holds(data, head, s, i)
  }

  ghost predicate Holds(data: seq<Elem>, head: nat, s: seq<Elem>, i: nat) {
    head < |data| && i < |s| && data[Slot(head, i, |data|)] == s[i]
  }

  lemma RingPut(data: seq<Elem>, head: nat, s: seq<Elem>, index: nat, x: Elem)
    requires Ring(data, head, s) && index <= |s| && index < |data|
    ensures var data' := data[Slot(head, index, |data|) := x];
      if index == |s| then Ring(data', head, s + [x]) else Ring(data', head, s[index := x])
  {
    var data', s' := data[Slot(head, index, |data|) := x], if index == |s| then s + [x] else s[index := x];
    forall i | 0 <= i < |s'| ensures Holds(data', head, s', i) {
      SlotsDistinct(head, i, index, |data|);
      if i != index {
        assert Holds(data, head, s, i);
      }
    }
  }

  // a write into a slot that is not occupied
  lemma RingFree(data: seq<Elem>, head: nat, s: seq<Elem>, index: nat, x: Elem)
    requires Ring(data, head, s) && |s| <= index < |data|
    ensures Ring(data[Slot(head, index, |data|) := x], head, s)
  {
    var data' := data[Slot(head, index, |data|) := x];
    forall i | 0 <= i < |s| ensures Holds(data', head, s, i) {
      SlotsDistinct(head, i, index, |data|);
      assert Holds(data, head, s, i);
    }
  }

  lemma RingPopBack(data: seq<Elem>, head: nat, s: seq<Elem>)
    requires Ring(data, head, s) && s != []
    ensures Ring(data, head, s[..|s| - 1])
  {
    var s' := s[..|s| - 1];
    forall i | 0 <= i < |s'| ensures Holds(data, head, s', i) {
      assert Holds(data, head, s, i);
    }
  }

  function Before(head: nat, capacity: nat): (h: nat)
    requires head < capacity
    ensures h < capacity
  {
    if head == 0 then capacity - 1 else head - 1
  }

  // one step back from head is the last slot of the ring
  lemma BeforeSlot(head: nat, capacity: nat)
    requires head < capacity
    ensures Slot(head, capacity - 1, capacity) == Before(head, capacity)
    ensures Slot(Before(head, capacity), 1, capacity) == head
  {
  }

  lemma RingPopFront(data: seq<Elem>, head: nat, s: seq<Elem>)
    requires Ring(data, head, s) && s != []
    ensures Ring(data, Slot(head, 1, |data|), s[1..])
  {
    var head', s' := Slot(head, 1, |data|), s[1..];
    forall i | 0 <= i < |s'| ensures Holds(data, head', s', i) {
      assert Holds(data, head, s, i + 1);
      SlotWraps(head, i + 1, |data|);
      SlotWraps(head, 1, |data|);
      SlotWraps(head', i, |data|);
    }
  }

  lemma RingPushFront(data: seq<Elem>, head: nat, s: seq<Elem>, x: Elem)
    requires Ring(data, head, s) && |s| < |data|
    ensures var head' := Before(head, |data|); Ring(data[head' := x], head', [x] + s)
  {
    var head' := Before(head, |data|);
    var data', s' := data[head' := x], [x] + s;
    forall i | 0 <= i < |s'| ensures Holds(data', head', s', i) {
      SlotWraps(head', i, |data|);
      if i > 0 {
        assert Holds(data, head, s, i - 1);
        SlotWraps(head, i - 1, |data|);
      }
    }
  }

  class Deque {
    var capacity: nat
    var size: nat
    var head: nat
    var data: array<Elem>
    ghost var contents: seq<Elem>

    ghost predicate Valid()
      reads this, data
    {
      && capacity == data.Length && size == |contents|
      && Ring(data[..], head, contents) && (size == 0 ==> head == 0)
    }

    constructor ()
      ensures Valid() && contents == [] && fresh(data)
    {
      capacity, size, head, contents := 0, 0, 0, [];
      data := new Elem[0];
    }

    // a larger buffer, with the elements from slot 0 on in the same order
    method Reserve(newCapacity: nat, plenty: bool) returns (ok: bool)
      requires Valid()
      modifies `capacity, `head, `data
      ensures Valid() && capacity == if ok && newCapacity > old(capacity) then newCapacity else old(capacity)
      ensures data == old(data) || fresh(data)
      ensures !ok || newCapacity <= old(capacity) ==>
          data == old(data) && head == old(head) && capacity == old(capacity)
      ensures plenty ==> ok
    {
      if newCapacity <= capacity {
        return true;
      }
      ok := Attempt(plenty);
      if !ok {
        return;
      }
      var newData := Relinearized(newCapacity);
      data, capacity, head := newData, newCapacity, 0;
      forall i | 0 <= i < size ensures Holds(data[..], 0, contents, i) {
        SlotWraps(0, i, capacity);
      }
    }

    method Relinearized(newCapacity: nat) returns (newData: array<Elem>)
      requires Valid() && capacity < newCapacity
      ensures fresh(newData) && newData.Length == newCapacity && newData[..size] == contents
    {
      newData := new Elem[newCapacity];
      for i := 0 to size
        invariant newData[..i] == contents[..i]
      {
        var slot := if capacity == 0 then 0 else Slot(head, i, capacity);
        assert Holds(data[..], head, contents, i);
        newData[i] := data[slot];
      }
    }

    // makes sure of a free slot
    method Grow(plenty: bool) returns (ok: bool)
      requires Valid()
      modifies `capacity, `head, `data
      ensures Valid() && (ok ==> size < capacity)
      ensures ok ==> capacity == if old(size) < old(capacity) then old(capacity)
                                 else if old(capacity) == 0 then DEQUE_INIT_CAPACITY else old(capacity) * 2
      ensures data == old(data) || fresh(data)
      ensures !ok || old(size) < old(capacity) ==> data == old(data) && head == old(head)
      ensures plenty ==> ok
    {
      if size == capacity {
        var newCapacity := if capacity == 0 then DEQUE_INIT_CAPACITY else capacity * 2;
        ok := Reserve(newCapacity, plenty);
      } else {
        ok := true;
      }
    }

    method PushBack(elem: Elem, plenty: bool) returns (ok: bool)
      requires Valid()
      modifies this, data
      ensures Valid() && (data == old(data) || fresh(data))
      ensures contents == if ok then old(contents) + [elem] else old(contents)
      ensures ok ==> capacity == if old(size) < old(capacity) then old(capacity)
                                 else if old(capacity) == 0 then DEQUE_INIT_CAPACITY else old(capacity) * 2
      ensures plenty ==> ok
    {
      ok := Grow(plenty);
      if !ok {
        return;
      }
      var slot := Slot(head, size, capacity);
      ok := Attempt(plenty);
      if !ok {
        Spoil(slot, size);
        return;
      }
      RingPut(data[..], head, contents, size, elem);
      ghost var before := data[..];
      data[slot] := elem;
      assert data[..] == before[slot := elem];
      size, contents := size + 1, contents + [elem];
    }

    // what a copy that fails may leave in the slot it should have filled
    method Spoil(slot: nat, ghost index: nat)
      requires Valid() && size <= index < capacity && slot == Slot(head, index, capacity)
      modifies data
      ensures Valid()
    {
      var junk: Elem := *;
      RingFree(data[..], head, contents, index, junk);
      ghost var before := data[..];
      data[slot] := junk;
      assert data[..] == before[slot := junk];
    }

    // A copy that fails leaves the elements, and the head unless the buffer grew, as they were.
    method PushFront(elem: Elem, plenty: bool) returns (ok: bool)
      requires Valid()
      modifies this, data
      ensures Valid() && (data == old(data) || fresh(data))
      ensures contents == if ok then [elem] + old(contents) else old(contents)
      ensures ok ==> capacity == if old(size) < old(capacity) then old(capacity)
                                 else if old(capacity) == 0 then DEQUE_INIT_CAPACITY else old(capacity) * 2
      ensures !ok && data == old(data) ==> head == old(head)
      ensures plenty ==> ok
    {
      ok := Grow(plenty);
      if !ok {
        return;
      }
      ok := Attempt(plenty);
      if size > 0 {
        FrontSlot(elem, ok);
      } else if ok {
        RingPut(data[..], head, contents, 0, elem);
        SlotWraps(head, 0, capacity);
        ghost var before := data[..];
        data[head] := elem;
        assert data[..] == before[head := elem];
        contents := [elem];
        size := 1;
      } else {
        SlotWraps(head, 0, capacity);
        Spoil(head, 0);
      }
    }

    // the case of push_front in which the head moves, and moves back when the copy fails
    method FrontSlot(elem: Elem, ok: bool)
      requires Valid() && 0 < size < capacity
      modifies `size, `head, `contents, data
      ensures Valid() && contents == if ok then [elem] + old(contents) else old(contents)
      ensures !ok ==> head == old(head)
    {
      BeforeSlot(head, capacity);
      ghost var before := data[..];
      if ok {
        RingPushFront(before, head, contents, elem);
        head := if head == 0 then capacity - 1 else head - 1;
        data[head] := elem;
        assert data[..] == before[head := elem];
        size, contents := size + 1, [elem] + contents;
      } else {
        var junk: Elem := *;
        RingFree(before, head, contents, capacity - 1, junk);
        head := if head == 0 then capacity - 1 else head - 1;
        data[head] := junk;
        assert data[..] == before[head := junk];
        head := (head + 1) % capacity;
      }
    }

    method PopBack() returns (ok: bool)
      requires Valid()
      modifies `size, `head, `contents
      ensures Valid() && (ok <==> old(contents) != [])
      ensures contents == if ok then old(contents)[..|old(contents)| - 1] else old(contents)
    {
      if size == 0 {
        return false;
      }
      RingPopBack(data[..], head, contents);
      contents := contents[..|contents| - 1];
      size := size - 1;
      if size == 0 {
        head := 0;
      }
      return true;
    }

    method PopFront() returns (ok: bool)
      requires Valid()
      modifies `size, `head, `contents
      ensures Valid() && (ok <==> old(contents) != [])
      ensures contents == if ok then old(contents)[1..] else old(contents)
    {
      if size == 0 {
        return false;
      }
      RingPopFront(data[..], head, contents);
      contents := contents[1..];
      size := size - 1;
      if size == 0 {
        head := 0;
      } else {
        head := (head + 1) % capacity;
      }
      return true;
    }

    method Set(index: nat, elem: Elem, plenty: bool) returns (ok: bool)
      requires Valid()
      modifies `contents, data
      ensures Valid() && (ok ==> index < size)
      ensures contents == if ok then old(contents)[index := elem] else old(contents)
      ensures plenty && index < size ==> ok
    {
      if index >= size {
        return false;
      }
      ok := Attempt(plenty);
      if !ok {
        return;
      }
      var slot := Slot(head, index, capacity);
      RingPut(data[..], head, contents, index, elem);
      ghost var before := data[..];
      data[slot] := elem;
      assert data[..] == before[slot := elem];
      contents := contents[index := elem];
    }

    method At(index: nat) returns (elem: Option<Elem>)
      requires Valid()
      ensures elem == if index < |contents| then Some(contents[index]) else None
    {
      if index >= size {
        return None;
      }
      assert Holds(data[..], head, contents, index);
      elem := Some(data[Slot(head, index, capacity)]);
    }

    method Back() returns (elem: Option<Elem>)
      requires Valid()
      ensures elem == if contents != [] then Some(contents[|contents| - 1]) else None
    {
      if size == 0 {
        return None;
      }
      elem := At(size - 1);
    }

    method Clear()
      requires Valid()
      modifies `size, `head, `contents
      ensures Valid() && contents == []
    {
      size, head, contents := 0, 0, [];
    }

    // Makes this deque equal to src; a failure leaves it empty.
    method CopyFrom(src: Deque, plenty: bool) returns (ok: bool)
      requires Valid() && src.Valid() && (this != src ==> data != src.data)
      modifies this, data
      ensures Valid() && contents == if ok then old(src.contents) else []
      ensures plenty ==> ok
    {
      if this == src {
        return true;
      }
      Init();
      ok := Reserve(src.size, plenty);
      if !ok {
        return;
      }
      ok := PushAll(src, plenty);
      if !ok {
        Clear();
      }
    }

    // deque_destroy followed by deque_init
    method Init()
      modifies this
      ensures Valid() && contents == [] && fresh(data)
    {
      capacity, size, head, contents := 0, 0, 0, [];
      data := new Elem[0];
    }

    // the loop of deque_copy
    method PushAll(src: Deque, plenty: bool) returns (ok: bool)
      requires Valid() && src.Valid() && this != src && data != src.data && contents == []
      modifies this, data
      ensures Valid() && (ok ==> contents == src.contents)
      ensures plenty ==> ok
    {
      for i := 0 to src.size
        invariant Valid() && (data == old(data) || fresh(data))
        invariant src.Valid() && src.contents == old(src.contents) && contents == src.contents[..i]
      {
        ok := PushNext(src, i, plenty);
        if !ok {
          return;
        }
      }
      return true;
    }

    method PushNext(src: Deque, i: nat, plenty: bool) returns (ok: bool)
      requires Valid() && src.Valid() && this != src && data != src.data
      requires i < src.size && contents == src.contents[..i]
      modifies this, data
      ensures Valid() && (data == old(data) || fresh(data)) && src.Valid() && src.contents == old(src.contents)
      ensures ok ==> contents == src.contents[..i + 1]
      ensures plenty ==> ok
    {
      var elem := src.At(i);
      ok := PushBack(elem.value, plenty);
    }
  }
}
