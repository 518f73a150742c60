/** The algebra of the segment tree of src/segtree.c: an associative merge with an
    identity, left-to-right folds, and the nodes of one level folding like those below. */
module SegmentFold {
  type Elem(!new, 0)

  type Merge = (Elem, Elem) -> Elem

  // what src/segtree.h demands of a merge: the identity is neutral on both sides; and ranges
  // may be split anywhere
  ghost predicate Monoid(merge: Merge, identity: Elem) {
    && (forall x :: merge(identity, x) == x && merge(x, identity) == x)
    && (forall x, y, z :: Associates(merge, x, y, z))
  }

  ghost predicate Associates(merge: Merge, x: Elem, y: Elem, z: Elem) {
    merge(merge(x, y), z) == merge(x, merge(y, z))
  }

  // the values s[lo], ..., s[hi - 1] merged from left to right
  ghost function Fold(merge: Merge, identity: Elem, s: seq<Elem>, lo: nat, hi: nat): Elem
    requires hi <= |s|
  {
    if lo >= hi then identity else merge(Fold(merge, identity, s, lo, hi - 1), s[hi - 1])
  }

  lemma {:induction false} FoldFirst(merge: Merge, identity: Elem, s: seq<Elem>, lo: nat, hi: nat)
    requires Monoid(merge, identity) && lo < hi <= |s|
    ensures Fold(merge, identity, s, lo, hi) == merge(s[lo], Fold(merge, identity, s, lo + 1, hi))
  {
    if lo + 1 < hi {
      FoldFirst(merge, identity, s, lo, hi - 1);
      assert Associates(merge, s[lo], Fold(merge, identity, s, lo + 1, hi - 1), s[hi - 1]);
    }
  }

  lemma {:induction false} FoldSame(merge: Merge, identity: Elem, s: seq<Elem>, lo: nat, hi: nat, t: seq<Elem>,
          shift: nat)
    requires hi <= |s| && hi + shift <= |t|
    requires forall i | lo <= i < hi :: t[i + shift] == s[i]
    ensures Fold(merge, identity, t, lo + shift, hi + shift) == Fold(merge, identity, s, lo, hi)
  {
    if lo < hi {
      FoldSame(merge, identity, s, lo, hi - 1, t, shift);
      assert t[hi - 1 + shift] == s[hi - 1];
    }
  }

  // node i is the merge of its children
  ghost predicate Merged(merge: Merge, nodes: seq<Elem>, i: nat) {
    2 * i + 1 < |nodes| && nodes[i] == merge(nodes[2 * i], nodes[2 * i + 1])
  }

  // a run of nodes folds like the run of their children
  lemma {:induction false} FoldLevel(merge: Merge, identity: Elem, nodes: seq<Elem>, lo: nat, hi: nat)
    requires Monoid(merge, identity) && 2 * hi <= |nodes|
    requires forall i | lo <= i < hi :: Merged(merge, nodes, i)
    ensures Fold(merge, identity, nodes, 2 * lo, 2 * hi) == Fold(merge, identity, nodes, lo, hi)
  {
    if lo < hi {
      FoldLevel(merge, identity, nodes, lo, hi - 1);
      var x := Fold(merge, identity, nodes, 2 * lo, 2 * hi - 2);
      assert Merged(merge, nodes, hi - 1);
      assert Associates(merge, x, nodes[2 * hi - 2], nodes[2 * hi - 1]);
    }
  }

  // The nodes of a tree: leaf capacity + i holds value i, or the identity past the last value,
  // and the other nodes merge their children.
  ghost predicate Tree(merge: Merge, identity: Elem, nodes: seq<Elem>, capacity: nat, values: seq<Elem>) {
    && Leaves(identity, nodes, capacity, values)
    && forall i | 0 < i < capacity :: Merged(merge, nodes, i)
  }

  ghost predicate Leaves(identity: Elem, nodes: seq<Elem>, capacity: nat, values: seq<Elem>) {
    && |nodes| == 2 * capacity && |values| <= capacity && capacity > 0
    && forall i | 0 <= i < capacity :: LeafAt(identity, nodes, capacity, values, i)
  }

  ghost predicate LeafAt(identity: Elem, nodes: seq<Elem>, capacity: nat, values: seq<Elem>, i: nat) {
    capacity + i < |nodes| && nodes[capacity + i] == if i < |values| then values[i] else identity
  }

  ghost function Blank(n: nat, x: Elem): seq<Elem> { seq(n, _ => x) }

  lemma LeafStep(identity: Elem, nodes: seq<Elem>, capacity: nat, elems: seq<Elem>, i: nat)
    requires i < |elems| <= capacity && Leaves(identity, nodes, capacity, elems[..i])
    ensures Leaves(identity, nodes[capacity + i := elems[i]], capacity, elems[..i + 1])
  {
    var nodes', loaded := nodes[capacity + i := elems[i]], elems[..i + 1];
    forall j | 0 <= j < capacity ensures LeafAt(identity, nodes', capacity, loaded, j) {
      assert LeafAt(identity, nodes, capacity, elems[..i], j);
    }
  }

  // putting a node right breaks nothing but its parent
  lemma RebuildStep(merge: Merge, identity: Elem, nodes: seq<Elem>, capacity: nat, values: seq<Elem>, i: nat)
    requires Leaves(identity, nodes, capacity, values) && 0 < i < capacity
    ensures var nodes' := nodes[i := merge(nodes[2 * i], nodes[2 * i + 1])];
      && Leaves(identity, nodes', capacity, values) && Merged(merge, nodes', i)
      && forall j | 0 < j < capacity && j != i && j != i / 2 && Merged(merge, nodes, j) :: Merged(merge, nodes', j)
  {
    var nodes' := nodes[i := merge(nodes[2 * i], nodes[2 * i + 1])];
    forall j | 0 <= j < capacity ensures LeafAt(identity, nodes', capacity, values, j) {
      assert LeafAt(identity, nodes, capacity, values, j);
    }
  }

  lemma LeafChange(merge: Merge, identity: Elem, nodes: seq<Elem>, capacity: nat, values: seq<Elem>, p: nat, x: Elem)
    requires Tree(merge, identity, nodes, capacity, values) && p < |values|
    ensures var nodes' := nodes[capacity + p := x];
      && Leaves(identity, nodes', capacity, values[p := x])
      && forall j | 0 < j < capacity && j != (capacity + p) / 2 :: Merged(merge, nodes', j)
  {
    var nodes', values' := nodes[capacity + p := x], values[p := x];
    forall j | 0 <= j < capacity ensures LeafAt(identity, nodes', capacity, values', j) {
      assert LeafAt(identity, nodes, capacity, values, j);
    }
    forall j | 0 < j < capacity && j != (capacity + p) / 2 ensures Merged(merge, nodes', j) {
      assert Merged(merge, nodes, j);
    }
  }

  // ---------- the query ----------

  // what is left to merge between the two accumulators
  ghost predicate Querying(merge: Merge, identity: Elem, nodes: seq<Elem>, left: nat, right: nat, l: Elem, r: Elem,
          result: Elem) {
    && 0 < left <= right <= |nodes|
    && result == merge(merge(l, Fold(merge, identity, nodes, left, right)), r)
  }

  lemma QueryStart(merge: Merge, identity: Elem, nodes: seq<Elem>, capacity: nat, values: seq<Elem>, begin: nat,
          end: nat)
    requires Monoid(merge, identity) && Tree(merge, identity, nodes, capacity, values) && begin <= end <= |values|
    ensures Querying(merge, identity, nodes, begin + capacity, end + capacity, identity, identity, Fold(merge,
        identity, values, begin, end))
  {
    forall i | begin <= i < end ensures nodes[i + capacity] == values[i] {
      assert LeafAt(identity, nodes, capacity, values, i);
    }
    FoldSame(merge, identity, values, begin, end, nodes, capacity);
  }

  lemma QueryLeft(merge: Merge, identity: Elem, nodes: seq<Elem>, left: nat, right: nat, l: Elem, r: Elem, result: Elem)
    requires Monoid(merge, identity) && Querying(merge, identity, nodes, left, right, l, r, result) && left < right
    ensures Querying(merge, identity, nodes, left + 1, right, merge(l, nodes[left]), r, result)
  {
    FoldFirst(merge, identity, nodes, left, right);
    assert Associates(merge, l, nodes[left], Fold(merge, identity, nodes, left + 1, right));
  }

  lemma QueryRight(merge: Merge, identity: Elem, nodes: seq<Elem>, left: nat, right: nat, l: Elem, r: Elem,
          result: Elem)
    requires Monoid(merge, identity) && Querying(merge, identity, nodes, left, right, l, r, result) && left < right
    ensures Querying(merge, identity, nodes, left, right - 1, l, merge(nodes[right - 1], r), result)
  {
    var x := Fold(merge, identity, nodes, left, right - 1);
    assert Associates(merge, l, x, nodes[right - 1]);
    assert Associates(merge, merge(l, x), nodes[right - 1], r);
  }

  lemma QueryUp(merge: Merge, identity: Elem, nodes: seq<Elem>, capacity: nat, values: seq<Elem>, left: nat,
          right: nat, l: Elem, r: Elem, result: Elem)
    requires Monoid(merge, identity) && Tree(merge, identity, nodes, capacity, values)
    requires Querying(merge, identity, nodes, left, right, l, r, result) && left % 2 == 0 && right % 2 == 0
    ensures Querying(merge, identity, nodes, left / 2, right / 2, l, r, result)
  {
    FoldLevel(merge, identity, nodes, left / 2, right / 2);
  }

  lemma QueryEnd(merge: Merge, identity: Elem, nodes: seq<Elem>, left: nat, right: nat, l: Elem, r: Elem, result: Elem)
    requires Monoid(merge, identity) && Querying(merge, identity, nodes, left, right, l, r, result) && left == right
    ensures merge(l, r) == result
  {
  }
}
