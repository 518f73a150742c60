/** src/segtree.c: an iterative segment tree over any merge with an identity. */
module SegmentTrees {
  import opened Allocation
  import opened BinaryArithmetic
  import opened Options
  import opened SegmentFold

  class SegmentTree {
    var size: nat
    var capacity: nat
    var merge: Merge
    var identity: Elem
    var nodes: array<Elem>  // node 0 is not used
    ghost var values: seq<Elem>

    ghost predicate Valid()
      reads this, nodes
    {
      && Monoid(merge, identity) && |values| == size && IsPow2(capacity)
      && Tree(merge, identity, nodes[..], capacity, values)
    }

    ghost function Result(begin: nat, end: nat): Elem
      requires end <= |values|
      reads this
    {
      Fold(merge, identity, values, begin, end)
    }

    // the least power of two that is not below the size
    static method NextCapacity(size: nat) returns (capacity: nat)
      ensures IsPow2(capacity) && size <= capacity
      ensures capacity == 1 || capacity / 2 < size
    {
      capacity := 1;
      assert capacity == Pow2(0);
      while capacity < size
        invariant IsPow2(capacity) && capacity > 0
        invariant capacity == 1 || capacity / 2 < size
        decreases size - capacity
      {
        DoublePow2(capacity);
        capacity := capacity * 2;
      }
    }

    constructor (size: nat, identity: Elem, merge: Merge)
      requires Monoid(merge, identity)
      ensures Valid() && this.size == size && this.merge == merge && this.identity == identity
      ensures values == seq(size, _ => identity) && fresh(nodes)
    {
      var capacity := NextCapacity(if size > 0 then size else 1);
      this.size, this.capacity, this.merge, this.identity := size, capacity, merge, identity;
      nodes := new Elem[capacity * 2](_ => identity);
      values := Blank(size, identity);
      new;
    }

    method RebuildNode(index: nat)
      requires 2 * index + 1 < nodes.Length
      modifies nodes
      ensures nodes[..] == old(nodes[..])[index := merge(old(nodes[2 * index]), old(nodes[2 * index + 1]))]
    {
      nodes[index] := merge(nodes[index * 2], nodes[index * 2 + 1]);
    }

    method Reset()
      requires Valid()
      modifies nodes, `values
      ensures Valid() && Leaves(identity, nodes[..], capacity, [])
      ensures forall i | 0 <= i < size :: values[i] == identity
    {
      for i := 0 to nodes.Length
        invariant forall j | 0 <= j < i :: nodes[j] == identity
      {
        nodes[i] := identity;
      }
      values := Blank(size, identity);
    }

    // Loads all values at once.
    method Build(elems: seq<Elem>)
      requires Valid() && |elems| == size
      modifies nodes, `values
      ensures Valid() && values == elems
    {
      Reset();
      assert elems[..0] == [];
      for i := 0 to size
        invariant Leaves(identity, nodes[..], capacity, elems[..i])
      {
        ghost var before := nodes[..];
        LeafStep(identity, before, capacity, elems, i);
        nodes[capacity + i] := elems[i];
        assert nodes[..] == before[capacity + i := elems[i]];
      }
      assert elems[..size] == elems;
      RebuildAll(elems);
      values := elems;
    }

    // the last loop of segtree_build
    method RebuildAll(ghost elems: seq<Elem>)
      requires Leaves(identity, nodes[..], capacity, elems)
      modifies nodes
      ensures Tree(merge, identity, nodes[..], capacity, elems)
    {
      var i := capacity;
      while i > 1
        invariant 0 < i <= capacity && Leaves(identity, nodes[..], capacity, elems)
        invariant forall j | i <= j < capacity :: Merged(merge, nodes[..], j)
      {
        i := i - 1;
        RebuildStep(merge, identity, nodes[..], capacity, elems, i);
        RebuildNode(i);
      }
    }

    method Set(index: nat, elem: Elem) returns (ok: bool)
      requires Valid()
      modifies nodes, `values
      ensures Valid() && (ok <==> index < size)
      ensures values == if ok then old(values)[index := elem] else old(values)
    {
      if index >= size {
        return false;
      }
      ghost var before := nodes[..];
      LeafChange(merge, identity, before, capacity, values, index, elem);
      var i := capacity + index;
      nodes[i] := elem;
      assert nodes[..] == before[i := elem];
      RebuildAbove(i, values[index := elem]);
      values := values[index := elem];
      return true;
    }

    // the loop of segtree_set
    method RebuildAbove(start: nat, ghost elems: seq<Elem>)
      requires 0 < start < nodes.Length && Leaves(identity, nodes[..], capacity, elems)
      requires forall j | 0 < j < capacity && j != start / 2 :: Merged(merge, nodes[..], j)
      modifies nodes
      ensures Tree(merge, identity, nodes[..], capacity, elems)
    {
      var i := start;
      while i > 1
        invariant 0 < i < nodes.Length && Leaves(identity, nodes[..], capacity, elems)
        invariant forall j | 0 < j < capacity && j != i / 2 :: Merged(merge, nodes[..], j)
      {
        i := i / 2;
        RebuildStep(merge, identity, nodes[..], capacity, elems, i);
        RebuildNode(i);
      }
    }

    method Get(index: nat) returns (elem: Option<Elem>)
      requires Valid()
      ensures elem == if index < size then Some(values[index]) else None
    {
      if index >= size {
        return None;
      }
      assert LeafAt(identity, nodes[..], capacity, values, index);
      elem := Some(nodes[capacity + index]);
    }

    // The values from begin to end merged from left to right. Fails on a bad range, or when
    // the accumulators cannot be allocated.
    method Query(begin: nat, end: nat, plenty: bool) returns (out: Option<Elem>)
      requires Valid()
      ensures begin > end || end > size ==> out == None
      ensures begin == end <= size ==> out == Some(identity)
      ensures out.Some? ==> begin <= end <= size && out == Some(Result(begin, end))
      ensures plenty && begin <= end <= size ==> out.Some?
    {
      if begin > end || end > size {
        return None;
      }
      if begin == end {
        return Some(identity);
      }
      var ok := Attempt(plenty);
      if !ok {
        return None;
      }
      var merged := Merge(begin, end);
      return Some(merged);
    }

    // the loop of segtree_query
    method Merge(begin: nat, end: nat) returns (out: Elem)
      requires Valid() && begin <= end <= size
      ensures out == Result(begin, end)
    {
      QueryStart(merge, identity, nodes[..], capacity, values, begin, end);
      var leftValue, rightValue := identity, identity;
      var left: nat, right: nat := begin + capacity, end + capacity;
      ghost var result := Result(begin, end);
      while left < right
        invariant Querying(merge, identity, nodes[..], left, right, leftValue, rightValue, result)
        decreases right
      {
        if left % 2 != 0 {
          QueryLeft(merge, identity, nodes[..], left, right, leftValue, rightValue, result);
          leftValue := merge(leftValue, nodes[left]);
          left := left + 1;
        }
        if right % 2 != 0 {
          QueryRight(merge, identity, nodes[..], left, right, leftValue, rightValue, result);
          right := right - 1;
          rightValue := merge(nodes[right], rightValue);
        }
        QueryUp(merge, identity, nodes[..], capacity, values, left, right, leftValue, rightValue, result);
        left := left / 2;
        right := right / 2;
      }
      QueryEnd(merge, identity, nodes[..], left, right, leftValue, rightValue, result);
      out := merge(leftValue, rightValue);
    }

    // Takes over src; an allocation that fails leaves a tree without values.
    method CopyFrom(src: SegmentTree, plenty: bool) returns (ok: bool)
      requires Valid() && src.Valid()
      modifies this
      ensures ok ==> Valid() && values == src.values && merge == src.merge && identity == src.identity
      ensures ok && this != src ==> fresh(nodes)
      ensures !ok ==> size == 0 && values == []
      ensures plenty ==> ok
    {
      if this == src {
        return true;
      }
      ok := Attempt(plenty);
      if !ok {
        size, capacity, values := 0, 0, [];
        nodes := new Elem[0];
        return;
      }
      capacity, size, merge, identity, values := src.capacity, src.size, src.merge, src.identity, src.values;
      nodes := new Elem[2 * capacity];
      for i := 0 to src.nodes.Length
        invariant nodes.Length == src.nodes.Length && fresh(nodes)
        invariant forall j | 0 <= j < i :: nodes[j] == src.nodes[j]
        invariant capacity == src.capacity && size == src.size && values == src.values
        invariant merge == src.merge && identity == src.identity
      {
        nodes[i] := src.nodes[i];
      }
      assert nodes[..] == src.nodes[..];
    }
  }
}
