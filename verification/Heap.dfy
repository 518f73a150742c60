/** src/heap.c: an array-based binary max-heap. Allocation and element copies may fail when
    memory is not plentiful. */
module Heaps {
  import opened Allocation
  import opened HeapOrder
  import opened Options

  const HEAP_INIT_CAPACITY: nat := 8

  class Heap {
    var compare: Compare
    var capacity: nat
    var size: nat
    var data: array<Elem>

    ghost predicate Valid()
      reads this, data
    {
      && Preorder(compare) && size <= capacity == data.Length
      && IsHeap(compare, Contents())
    }

    ghost function Contents(): seq<Elem>
      requires size <= data.Length
      reads this, data
    {
      data[..size]
    }

    constructor (compare: Compare)
      requires Preorder(compare)
      ensures Valid() && this.compare == compare && Contents() == [] && fresh(data)
    {
      this.compare, capacity, size := compare, 0, 0;
      data := new Elem[0];
    }

    method Reserve(newCapacity: nat, plenty: bool) returns (ok: bool)
      requires Valid()
      modifies this
      ensures Valid() && Contents() == old(Contents()) && compare == old(compare) && size == old(size)
      ensures capacity == if ok && newCapacity > old(capacity) then newCapacity else old(capacity)
      ensures newCapacity <= old(capacity) ==> ok
      ensures data == old(data) || fresh(data)
      ensures plenty ==> ok
    {
      if newCapacity <= capacity {
        return true;
      }
      ok := Attempt(plenty);
      if !ok {
        return;
      }
      var newData := Enlarged(newCapacity);
      data, capacity := newData, newCapacity;
    }

    // realloc
    method Enlarged(newCapacity: nat) returns (newData: array<Elem>)
      requires size <= data.Length && size <= newCapacity
      ensures fresh(newData) && newData.Length == newCapacity && newData[..size] == Contents()
    {
      newData := new Elem[newCapacity];
      for i := 0 to size
        invariant newData[..i] == data[..i]
      {
        newData[i] := data[i];
      }
    }

    // Adds an element at the end and lets it rise as long as its parent compares less.
    method Push(elem: Elem, plenty: bool) returns (ok: bool)
      requires Valid()
      modifies this, data
      ensures Valid() && compare == old(compare) && (data == old(data) || fresh(data))
      ensures !ok ==> Contents() == old(Contents())
      ensures ok ==> multiset(Contents()) == multiset(old(Contents())) + multiset{elem}
      ensures ok ==> Contents() == Risen(compare, old(Contents()) + [elem], old(size))
      ensures ok ==> forall x | x in Contents() :: compare(Contents()[0], x) >= 0
      ensures ok ==> capacity == if old(size) < old(capacity) then old(capacity)
                                 else if old(capacity) == 0 then HEAP_INIT_CAPACITY else old(capacity) * 2
      ensures plenty ==> ok
    {
      if size == capacity {
        var newCapacity := if capacity == 0 then HEAP_INIT_CAPACITY else capacity * 2;
        ok := Reserve(newCapacity, plenty);
        if !ok {
          return;
        }
      }
      ok := Attempt(plenty);
      if ok {
        SiftUp(elem);
      }
    }

    lemma TopIsLargest()
      requires Valid()
      ensures forall x | x in Contents() :: compare(Contents()[0], x) >= 0
    {
      forall x | x in Contents() ensures compare(Contents()[0], x) >= 0 {
        var k :| 0 <= k < size && Contents()[k] == x;
        TopIsMax(compare, Contents(), k);
      }
    }

    method SiftUp(elem: Elem)
      requires Valid() && size < capacity
      modifies `size, data
      ensures Valid()
      ensures multiset(Contents()) == multiset(old(Contents())) + multiset{elem}
      ensures Contents() == Risen(compare, old(Contents()) + [elem], old(size))
      ensures forall x | x in Contents() :: compare(Contents()[0], x) >= 0
    {
      ghost var s := Contents();
      size := size + 1;
      FindPlace(elem, s);
      TopIsLargest();
    }

    // the loop of heap_push
    method FindPlace(elem: Elem, ghost s: seq<Elem>)
      requires Preorder(compare) && IsHeap(compare, s) && 0 < size <= data.Length && s == data[..size - 1]
      modifies data
      ensures IsHeap(compare, Contents()) && multiset(Contents()) == multiset(s) + multiset{elem}
      ensures Contents() == Risen(compare, s + [elem], |s|)
    {
      ghost var v := s + [elem];
      UpStart(compare, s, elem);
      var i: nat := size - 1;
      assert v == data[..size][i := elem];
      while i > 0 && compare(data[(i - 1) / 2], elem) < 0
        invariant i < size == |v| && Rising(compare, s, elem, v, i) && v == data[..size][i := elem]
        invariant Risen(compare, v, i) == Risen(compare, s + [elem], |s|)
      {
        RiseStep(compare, s, elem, v, i);
        v := Swap(v, i, Parent(i));
        i := MakeWay(i, elem);
      }
      data[i] := elem;
      assert Contents() == v;
    }

    // the parent of slot i gives way; elem belongs into the slot it leaves, or further up
    method MakeWay(i: nat, ghost elem: Elem) returns (parent: nat)
      requires 0 < i < size <= data.Length
      modifies data
      ensures parent == Parent(i)
      ensures data[..size][parent := elem] == Swap(old(data[..size])[i := elem], i, parent)
    {
      parent := (i - 1) / 2;
      data[i] := data[parent];
    }

    // Removes the top, an element that none of the others compares greater than.
    method Pop() returns (ok: bool)
      requires Valid()
      modifies `size, data
      ensures Valid() && (ok <==> old(size) > 0)
      ensures !ok ==> Contents() == old(Contents())
      ensures ok ==> multiset(old(Contents())) == multiset(Contents()) + multiset{old(Contents())[0]}
      ensures ok ==> forall x | x in old(Contents()) :: compare(old(Contents())[0], x) >= 0
      ensures old(size) > 1 ==>
        var s, n := old(Contents()), old(size) - 1;
        Contents() == Sunk(compare, s[..n][0 := s[n]], 0)
    {
      if size == 0 {
        return false;
      }
      ghost var s := Contents();
      TopIsLargest();
      size := size - 1;
      if size == 0 {
        assert s == [s[0]];
        return true;
      }
      Refill(s);
      return true;
    }

    // the last element takes the place of the first and sinks from there
    method Refill(ghost s: seq<Elem>)
      requires Preorder(compare) && 0 < size < capacity == data.Length && s == data[..size + 1] && IsHeap(compare, s)
      modifies data
      ensures Valid() && multiset(s) == multiset(Contents()) + multiset{s[0]}
      ensures Contents() == Sunk(compare, s[..size][0 := s[size]], 0)
    {
      DownStart(compare, s);
      data[0] := data[size];
      assert Contents() == s[..size][0 := s[size]];
      SiftDown();
    }

    // the loop of heap_pop
    method SiftDown()
      requires Preorder(compare) && 0 < size <= capacity == data.Length && SiftingDown(compare, Contents(), 0)
      modifies data
      ensures Valid() && multiset(Contents()) == multiset(old(Contents()))
      ensures Contents() == Sunk(compare, old(Contents()), 0)
    {
      var i: nat, done := 0, false;
      while !done
        invariant i < size && (if done then IsHeap(compare, Contents()) else SiftingDown(compare, Contents(), i))
        invariant multiset(Contents()) == multiset(old(Contents()))
        invariant (if done then Contents() else Sunk(compare, Contents(), i)) == Sunk(compare, old(Contents()), 0)
        decreases !done, size - i
      {
        i, done := SiftDownOnce(i);
      }
    }

    // the body of that loop
    method SiftDownOnce(i: nat) returns (next: nat, done: bool)
      requires Preorder(compare) && size <= data.Length && SiftingDown(compare, Contents(), i)
      modifies data
      ensures multiset(Contents()) == multiset(old(Contents()))
      ensures done ==> next == i && IsHeap(compare, Contents())
      ensures !done ==> i < next && SiftingDown(compare, Contents(), next)
      ensures (if done then Contents() else Sunk(compare, Contents(), next)) == Sunk(compare, old(Contents()), i)
    {
      ghost var s := Contents();
      if i * 2 + 1 >= size {
        DownLeaf(compare, s, i);
        return i, true;
      }
      var child := PickChild(i);
      if compare(data[i], data[child]) >= 0 {
        AboveBoth(compare, s, i, s[i], s[child]);
        DownDone(compare, s, i);
        return i, true;
      }
      DownStep(compare, s, i, child);
      SwapSlots(i, child);
      assert Contents() == Swap(s, i, child);
      return child, false;
    }

    // the child of i that the other one, if any, need not be above
    method PickChild(i: nat) returns (child: nat)
      requires Preorder(compare) && i * 2 + 1 < size <= data.Length
      ensures 0 < child < size && Parent(child) == i && child == GreaterChild(compare, Contents(), i)
      ensures Above(compare, data[child], Contents(), i)
    {
      var left := i * 2 + 1;
      var right := left + 1;
      child := left;
      if right < size && compare(data[left], data[right]) < 0 {
        child := right;
      }
      LargerChild(compare, Contents(), i, child);
    }

    method SwapSlots(i: nat, j: nat)
      requires i < data.Length && j < data.Length
      modifies data
      ensures data[..] == old(data[..])[i := old(data[j])][j := old(data[i])]
    {
      if i == j {
        return;
      }
      data[i], data[j] := data[j], data[i];
    }

    method Top() returns (top: Option<Elem>)
      requires Valid()
      ensures top == if size > 0 then Some(Contents()[0]) else None
      ensures top.Some? ==> forall x | x in Contents() :: compare(top.value, x) >= 0
    {
      if size == 0 {
        return None;
      }
      TopIsLargest();
      top := Some(data[0]);
    }

    // a caller that empties the heap
    method PopAll() returns (sorted: seq<Elem>)
      requires Valid()
      modifies `size, data
      ensures Valid() && Contents() == []
      ensures multiset(sorted) == multiset(old(Contents()))
      ensures forall i, j | 0 <= i <= j < |sorted| :: compare(sorted[i], sorted[j]) >= 0
    {
      sorted := [];
      ghost var heaps := [Contents()];
      while size > 0
        invariant Valid() && Popping(compare, heaps, sorted)
        invariant heaps[0] == old(Contents()) && heaps[|sorted|] == Contents()
        decreases size
      {
        sorted, heaps := PopNext(sorted, heaps);
      }
      Drain(compare, heaps, sorted);
    }

    method PopNext(sorted: seq<Elem>, ghost heaps: seq<seq<Elem>>)
        returns (sorted': seq<Elem>, ghost heaps': seq<seq<Elem>>)
      requires Valid() && size > 0 && Popping(compare, heaps, sorted) && heaps[|sorted|] == Contents()
      modifies `size, data
      ensures Valid() && size < old(size) && Popping(compare, heaps', sorted')
      ensures heaps'[0] == heaps[0] && heaps'[|sorted'|] == Contents()
    {
      ghost var s := Contents();
      var top := Top();
      var ok := Pop();
      sorted' := sorted + [top.value];
      heaps' := heaps + [Contents()];
      assert |s| == |Contents()| + 1 by {
        assert |multiset(s)| == |multiset(Contents())| + 1;
      }
    }

    method Clear()
      requires Valid()
      modifies `size
      ensures Valid() && Contents() == []
    {
      size := 0;
    }

    // Pushes the elements of src in the order of its array, which reproduces that array.
    method CopyFrom(src: Heap, plenty: bool) returns (ok: bool)
      requires Valid() && src.Valid() && (this != src ==> data != src.data)
      modifies this, data
      ensures Valid() && (ok ==> Contents() == old(src.Contents()) && compare == old(src.compare))
      ensures !ok ==> Contents() == []
      ensures plenty ==> ok
    {
      if this == src {
        return true;
      }
      Init(src.compare);
      ok := Reserve(src.size, plenty);
      if !ok {
        return;
      }
      ok := PushAll(src, plenty);
      if !ok {
        Clear();
      }
    }

    // heap_destroy followed by heap_init
    method Init(compare: Compare)
      requires Preorder(compare)
      modifies this
      ensures Valid() && Contents() == [] && this.compare == compare && fresh(data)
    {
      this.compare, capacity, size := compare, 0, 0;
      data := new Elem[0];
    }

    // the loop of heap_copy
    method PushAll(src: Heap, plenty: bool) returns (ok: bool)
      requires Valid() && src.Valid() && this != src && data != src.data
      requires Contents() == [] && compare == src.compare
      modifies this, data
      ensures Valid() && compare == old(compare) && (data == old(data) || fresh(data))
      ensures ok ==> Contents() == src.Contents()
      ensures plenty ==> ok
    {
      ghost var s := src.Contents();
      for i := 0 to src.size
        invariant Valid() && compare == src.compare == old(compare) && (data == old(data) || fresh(data))
        invariant src.Contents() == s && src.Valid() && Contents() == s[..i]
      {
        ok := PushNext(src, i, plenty);
        if !ok {
          return;
        }
      }
      return true;
    }

    method PushNext(src: Heap, i: nat, plenty: bool) returns (ok: bool)
      requires Valid() && src.Valid() && this != src && data != src.data && compare == src.compare
      requires i < src.size && Contents() == src.Contents()[..i]
      modifies this, data
      ensures Valid() && compare == old(compare) && (data == old(data) || fresh(data))
      ensures src.Valid() && src.Contents() == old(src.Contents())
      ensures ok ==> Contents() == src.Contents()[..i + 1]
      ensures plenty ==> ok
    {
      ghost var s := src.Contents();
      HeapStays(compare, s, i);
      ok := Push(src.data[i], plenty);
    }
  }
}
