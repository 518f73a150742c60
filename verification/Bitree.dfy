/** src/bitree.c: a Fenwick tree over sums. Values are integers of any size. */
module Bitrees {
  import opened Allocation
  import opened BinaryArithmetic
  import opened BitreeSums

  const WORD_BITS: nat := 64

  class Bitree {
    var size: nat
    var nodes: array<int>  // node 0 is not used
    ghost var values: seq<int>

    ghost predicate Valid()
      reads this, nodes
    {
      && size < Pow2(WORD_BITS - 1) && nodes.Length == size + 1 && |values| == size
      && Tree(nodes[..], values)
    }

    constructor (size: nat)
      requires size < Pow2(WORD_BITS - 1)
      ensures Valid() && this.size == size && fresh(nodes)
      ensures values == seq(size, _ => 0)
    {
      this.size := size;
      nodes := new int[size + 1](_ => 0);
      values := seq(size, _ => 0);
      new;
      TreeZero(nodes[..], values);
    }

    // i & (~i + 1) on machine words
    static method LowestBit(i: nat) returns (b: nat)
      requires 0 < i < Pow2(WORD_BITS)
      ensures b == LowBit(i)
    {
      LowBitMask(i, WORD_BITS);
      b := And(i, Pow2(WORD_BITS) - i);
    }

    static lemma WordRoom()
      ensures Pow2(WORD_BITS) == 2 * Pow2(WORD_BITS - 1)
    {
    }

    // the sum of the first count values, in as many steps as count has bits set
    method PrefixSum(count: nat) returns (sum: int, ghost steps: nat)
      requires Valid() && count <= size
      ensures sum == Sum(values, 0, count) && steps == PopCount(count)
    {
      WordRoom();
      var c: nat := count;
      sum, steps := 0, 0;
      while c > 0
        invariant c <= count && sum + Sum(values, 0, c) == Sum(values, 0, count)
        invariant steps + PopCount(c) == PopCount(count)
      {
        var b := LowestBit(c);
        PrefixStep(nodes[..], values, c);
        sum := sum + nodes[c];
        c := c - b;
        steps := steps + 1;
      }
    }

    // Adds to one value, visiting just the nodes that cover it.
    method Add(index: nat, delta: int) returns (ok: bool, ghost visited: seq<nat>)
      requires Valid()
      modifies nodes, `values
      ensures Valid() && (ok <==> index < size)
      ensures values == if ok then old(values)[index := old(values)[index] + delta] else old(values)
      ensures ok ==> forall i | 0 < i <= size :: i in visited <==> Covers(i, index)
      ensures ok ==> 0 < |visited| && Pow2(|visited| - 1) <= size
    {
      visited := [];
      if index >= size {
        return false, visited;
      }
      ghost var start := nodes[..];
      ghost var last;
      visited, last := Climb(index, delta);
      ClimbDone(start, nodes[..], values, visited, last, index, delta);
      values := values[index := values[index] + delta];
      ok := true;
    }

    // the loop of bitree_add
    method Climb(index: nat, delta: int) returns (ghost visited: seq<nat>, ghost last: nat)
      requires index < size < Pow2(WORD_BITS - 1) && nodes.Length == size + 1
      modifies nodes
      ensures last > size && Visited(visited, last, index) && Doubled(|visited|, last, index, size)
      ensures Grown(old(nodes[..]), nodes[..], last, index, delta)
    {
      ghost var start := nodes[..];
      visited := [];
      var i := index + 1;
      while i <= size
        invariant Visited(visited, i, index) && Doubled(|visited|, i, index, size)
        invariant Grown(start, nodes[..], i, index, delta)
        decreases size + 1 - i
      {
        GrowStep(start, nodes[..], i, index, delta);
        VisitStep(visited, i, index);
        DoubleStep(|visited|, i, index, size);
        visited := visited + [i];
        i := Touch(i, delta);
      }
      last := i;
    }

    // the body of that loop, and the next index
    method Touch(i: nat, delta: int) returns (next: nat)
      requires 0 < i < nodes.Length <= Pow2(WORD_BITS - 1)
      modifies nodes
      ensures nodes[..] == old(nodes[..])[i := old(nodes[i]) + delta] && next == i + LowBit(i)
    {
      WordRoom();
      nodes[i] := nodes[i] + delta;
      var b := LowestBit(i);
      next := i + b;
    }

    method Range(begin: nat, end: nat) returns (sum: int)
      requires Valid() && begin <= end <= size
      ensures sum == Sum(values, begin, end)
    {
      ghost var steps;
      var upper, lower;
      upper, steps := PrefixSum(end);
      lower, steps := PrefixSum(begin);
      SumSplit(values, 0, begin, end);
      sum := upper - lower;
    }

    method Get(index: nat) returns (value: int)
      requires Valid() && index < size
      ensures value == values[index]
    {
      value := Range(index, index + 1);
      assert Sum(values, index, index) == 0;
    }

    method Set(index: nat, value: int) returns (ok: bool)
      requires Valid()
      modifies nodes, `values
      ensures Valid() && (ok <==> index < size)
      ensures values == if ok then old(values)[index := value] else old(values)
    {
      if index >= size {
        return false;
      }
      var current := Get(index);
      ghost var visited;
      ok, visited := Add(index, value - current);
    }

    method Prefix(count: nat) returns (sum: int)
      requires Valid() && count <= size
      ensures sum == Sum(values, 0, count)
    {
      ghost var steps;
      sum, steps := PrefixSum(count);
    }

    method Reset()
      requires Valid()
      modifies nodes, `values
      ensures Valid() && values == seq(size, _ => 0)
    {
      for i := 0 to nodes.Length
        invariant forall j | 0 <= j < i :: nodes[j] == 0
      {
        nodes[i] := 0;
      }
      values := seq(size, _ => 0);
      TreeZero(nodes[..], values);
    }

    // Takes over the values of src. An allocation that fails leaves a tree without values and
    // without even the unused node.
    method CopyFrom(src: Bitree, plenty: bool) returns (ok: bool)
      requires Valid() && src.Valid()
      modifies this
      ensures ok ==> Valid() && values == src.values && (this != src ==> fresh(nodes))
      ensures !ok ==> size == 0 && values == []
      ensures plenty ==> ok
    {
      if this == src {
        return true;
      }
      ok := Attempt(plenty);
      if !ok {
        size, values := 0, [];
        nodes := new int[0];
        return;
      }
      size := src.size;
      nodes := new int[size + 1];
      for i := 0 to src.nodes.Length
        invariant nodes.Length == src.nodes.Length && fresh(nodes) && size == src.size && src.Valid()
        invariant forall j | 0 <= j < i :: nodes[j] == src.nodes[j]
      {
        nodes[i] := src.nodes[i];
      }
      values := src.values;
      assert nodes[..] == src.nodes[..];
    }
  }
}
