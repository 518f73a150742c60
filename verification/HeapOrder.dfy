/** Heap-ordered arrays as sequences, for src/heap.c: what sifting up and down keeps, and
    what popping until empty produces. */
module HeapOrder {
  type Elem(!new, 0)
  type Compare = (Elem, Elem) -> int

  ghost predicate Preorder(compare: Compare) {
    && (forall a, b :: compare(a, b) >= 0 || compare(b, a) >= 0)
    && (forall a, b, c :: Chains(compare, a, b, c))
  }

  ghost predicate Chains(compare: Compare, a: Elem, b: Elem, c: Elem) {
    compare(a, b) >= 0 && compare(b, c) >= 0 ==> compare(a, c) >= 0
  }

  function Parent(i: nat): nat
    requires i > 0
  {
    (i - 1) / 2
  }

  ghost predicate Ordered(compare: Compare, s: seq<Elem>, i: nat) {
    0 < i < |s| && compare(s[Parent(i)], s[i]) >= 0
  }

  ghost predicate IsHeap(compare: Compare, s: seq<Elem>) {
    forall i | 0 < i < |s| :: Ordered(compare, s, i)
  }

  // a may stay above every child of i
  ghost predicate Above(compare: Compare, a: Elem, s: seq<Elem>, i: nat) {
    forall j: nat :: AboveChild(compare, a, s, i, j)
  }

  ghost predicate AboveChild(compare: Compare, a: Elem, s: seq<Elem>, i: nat, j: nat) {
    0 < j < |s| && Parent(j) == i ==> compare(a, s[j]) >= 0
  }

  // the parent of i may stay above the children of i
  ghost predicate Bridges(compare: Compare, s: seq<Elem>, i: nat)
    requires i < |s|
  {
    i > 0 ==> Above(compare, s[Parent(i)], s, i)
  }

  // a heap but for the element at i, which may belong further up
  ghost predicate SiftingUp(compare: Compare, s: seq<Elem>, i: nat) {
    && i < |s| && Bridges(compare, s, i)
    && forall j | 0 < j < |s| && j != i :: Ordered(compare, s, j)
  }

  // a heap but for the element at i, which may belong further down
  ghost predicate SiftingDown(compare: Compare, s: seq<Elem>, i: nat) {
    && i < |s| && Bridges(compare, s, i)
    && forall j | 0 < j < |s| && Parent(j) != i :: Ordered(compare, s, j)
  }

  function Swap(s: seq<Elem>, i: nat, j: nat): seq<Elem>
    requires i < |s| && j < |s|
  {
    s[i := s[j]][j := s[i]]
  }

  // s once the element at i has changed places with every parent that compares less
  ghost function Risen(compare: Compare, s: seq<Elem>, i: nat): seq<Elem>
    requires i < |s|
    decreases i
  {
    if i > 0 && compare(s[Parent(i)], s[i]) < 0 then Risen(compare, Swap(s, i, Parent(i)), Parent(i)) else s
  }

  // the greater child of i, and the left one of two that compare equal
  ghost function GreaterChild(compare: Compare, s: seq<Elem>, i: nat): (child: nat)
    requires 2 * i + 1 < |s|
    ensures i < child < |s| && Parent(child) == i
  {
    if 2 * i + 2 < |s| && compare(s[2 * i + 1], s[2 * i + 2]) < 0 then 2 * i + 2 else 2 * i + 1
  }

  // s once the element at i has changed places with every greater child that compares greater
  ghost function Sunk(compare: Compare, s: seq<Elem>, i: nat): seq<Elem>
    requires i < |s|
    decreases |s| - i
  {
    if 2 * i + 1 >= |s| then s
    else
      var child := GreaterChild(compare, s, i);
      if compare(s[i], s[child]) >= 0 then s else Sunk(compare, Swap(s, i, child), child)
  }

  // An element put back behind those that come before it in a heap does not rise.
  lemma HeapStays(compare: Compare, s: seq<Elem>, i: nat)
    requires IsHeap(compare, s) && i < |s|
    ensures Risen(compare, s[..i] + [s[i]], i) == s[..i + 1]
  {
    assert s[..i] + [s[i]] == s[..i + 1];
    assert i > 0 ==> Ordered(compare, s, i);
  }

  lemma UpStep(compare: Compare, s: seq<Elem>, i: nat)
    requires Preorder(compare) && SiftingUp(compare, s, i) && i > 0 && compare(s[Parent(i)], s[i]) < 0
    ensures SiftingUp(compare, Swap(s, i, Parent(i)), Parent(i))
  {
    var p := Parent(i);
    var t := Swap(s, i, p);
    forall j | 0 < j < |s| && j != p ensures Ordered(compare, t, j) {
      if j != i {
        assert Ordered(compare, s, j);
        if Parent(j) == p {
          assert Chains(compare, s[i], s[p], s[j]);
        } else if Parent(j) == i {
          assert AboveChild(compare, s[p], s, i, j);
        }
      }
    }
    if p > 0 {
      assert Ordered(compare, s, p);
      forall j: nat ensures AboveChild(compare, t[Parent(p)], t, p, j) {
        if 0 < j < |s| && Parent(j) == p && j != i {
          assert Ordered(compare, s, j);
          assert Chains(compare, s[Parent(p)], s[p], s[j]);
        }
      }
    }
  }

  lemma UpStart(compare: Compare, s: seq<Elem>, x: Elem)
    requires IsHeap(compare, s)
    ensures SiftingUp(compare, s + [x], |s|)
  {
    forall j | 0 < j < |s| ensures Ordered(compare, s + [x], j) {
      assert Ordered(compare, s, j);
    }
  }

  // x has been added to s and now stands at i of v; it is still at the end unless its first
  // parent had to give way
  ghost predicate Rising(compare: Compare, s: seq<Elem>, x: Elem, v: seq<Elem>, i: nat) {
    && SiftingUp(compare, v, i) && v[i] == x && multiset(v) == multiset(s) + multiset{x}
    && if i == |s| then v == s + [x] else i < |s| && compare(s[Parent(|s|)], x) < 0
  }

  lemma RiseStep(compare: Compare, s: seq<Elem>, x: Elem, v: seq<Elem>, i: nat)
    requires Preorder(compare) && Rising(compare, s, x, v, i) && i > 0 && compare(v[Parent(i)], x) < 0
    ensures Rising(compare, s, x, Swap(v, i, Parent(i)), Parent(i))
  {
    UpStep(compare, v, i);
  }

  lemma DownStep(compare: Compare, s: seq<Elem>, i: nat, child: nat)
    requires Preorder(compare) && SiftingDown(compare, s, i) && 0 < child < |s| && Parent(child) == i
    requires Above(compare, s[child], s, i) && compare(s[i], s[child]) < 0
    ensures SiftingDown(compare, Swap(s, i, child), child)
  {
    var t := Swap(s, i, child);
    forall j | 0 < j < |s| && Parent(j) != child ensures Ordered(compare, t, j) {
      assert AboveChild(compare, s[child], s, i, j);
      if Parent(j) == i {
        assert compare(s[child], s[i]) >= 0;
      } else {
        assert Ordered(compare, s, j);
        if j == i {
          assert AboveChild(compare, s[Parent(i)], s, i, child);
        }
      }
    }
    forall j: nat ensures AboveChild(compare, t[Parent(child)], t, child, j) {
      if 0 < j < |s| && Parent(j) == child {
        assert Ordered(compare, s, j);
      }
    }
  }

  lemma DownDone(compare: Compare, s: seq<Elem>, i: nat)
    requires SiftingDown(compare, s, i) && Above(compare, s[i], s, i)
    ensures IsHeap(compare, s)
  {
    forall j | 0 < j < |s| ensures Ordered(compare, s, j) {
      assert AboveChild(compare, s[i], s, i, j);
    }
  }

  lemma DownLeaf(compare: Compare, s: seq<Elem>, i: nat)
    requires SiftingDown(compare, s, i) && 2 * i + 1 >= |s|
    ensures IsHeap(compare, s)
  {
  }

  // the child that the other one, if there is one, is not above
  lemma LargerChild(compare: Compare, s: seq<Elem>, i: nat, child: nat)
    requires Preorder(compare) && child < |s| && (child == 2 * i + 1 || child == 2 * i + 2)
    requires child == 2 * i + 1 && 2 * i + 2 < |s| ==> compare(s[2 * i + 1], s[2 * i + 2]) >= 0
    requires child == 2 * i + 2 ==> compare(s[2 * i + 1], s[2 * i + 2]) < 0
    ensures Above(compare, s[child], s, i)
  {
  }

  lemma AboveBoth(compare: Compare, s: seq<Elem>, i: nat, a: Elem, b: Elem)
    requires Preorder(compare) && compare(a, b) >= 0 && Above(compare, b, s, i)
    ensures Above(compare, a, s, i)
  {
    forall j: nat ensures AboveChild(compare, a, s, i, j) {
      assert AboveChild(compare, b, s, i, j);
      if 0 < j < |s| {
        assert Chains(compare, a, b, s[j]);
      }
    }
  }

  lemma DownStart(compare: Compare, s: seq<Elem>)
    requires IsHeap(compare, s) && |s| > 1
    ensures SiftingDown(compare, s[..|s| - 1][0 := s[|s| - 1]], 0)
    ensures multiset(s[..|s| - 1][0 := s[|s| - 1]]) + multiset{s[0]} == multiset(s)
  {
    var n := |s| - 1;
    var t := s[..n][0 := s[n]];
    forall j | 0 < j < n && Parent(j) != 0 ensures Ordered(compare, t, j) {
      assert Ordered(compare, s, j);
    }
    assert s == s[..n] + [s[n]];
  }

  // No element compares greater than the first one.
  lemma {:induction false} TopIsMax(compare: Compare, s: seq<Elem>, i: nat)
    requires Preorder(compare) && IsHeap(compare, s) && i < |s|
    ensures compare(s[0], s[i]) >= 0
  {
    if i > 0 {
      TopIsMax(compare, s, Parent(i));
      assert Ordered(compare, s, i);
      assert Chains(compare, s[0], s[Parent(i)], s[i]);
    }
  }

  // ---------- popping until empty ----------

  ghost predicate Popped(compare: Compare, s: seq<Elem>, t: seq<Elem>) {
    |s| > 0 && IsHeap(compare, s) && IsHeap(compare, t) && multiset(s) == multiset(t) + multiset{s[0]}
  }

  // each heap is the one before without its top
  ghost predicate Popping(compare: Compare, heaps: seq<seq<Elem>>, tops: seq<Elem>) {
    && |heaps| == |tops| + 1
    && forall i | 0 <= i < |tops| :: Popped(compare, heaps[i], heaps[i + 1]) && tops[i] == heaps[i][0]
  }

  // The heaps of a run of pops give, from their tops, all elements in descending order.
  lemma {:induction false} Drain(compare: Compare, heaps: seq<seq<Elem>>, tops: seq<Elem>)
    requires Preorder(compare) && Popping(compare, heaps, tops) && heaps[|tops|] == []
    ensures multiset(tops) == multiset(heaps[0])
    ensures forall i, j | 0 <= i <= j < |tops| :: compare(tops[i], tops[j]) >= 0
  {
    if tops == [] {
    } else {
      var rest := tops[1..];
      Drain(compare, heaps[1..], rest);
      assert tops == [tops[0]] + rest;
      forall j | 0 <= j < |tops| ensures compare(tops[0], tops[j]) >= 0 {
        assert tops[j] in multiset(heaps[0]);
        var k :| 0 <= k < |heaps[0]| && heaps[0][k] == tops[j];
        TopIsMax(compare, heaps[0], k);
      }
      forall i, j | 0 <= i <= j < |tops| ensures compare(tops[i], tops[j]) >= 0 {
        if i > 0 {
          assert tops[i] == rest[i - 1] && tops[j] == rest[j - 1];
        }
      }
    }
  }
}
