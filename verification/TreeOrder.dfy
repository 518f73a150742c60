/** Key order and size of the trees behind src/treemap.c: what the comparator must
    satisfy, what the descents rely on, and how deep a red-black tree can be. */
module TreeOrder {
  import opened BinaryArithmetic
  import opened RedBlackTree

  type Compare = (Key, Key) -> int

  // what a caller's comparison function has to be
  ghost predicate TotalOrder(cmp: Compare) {
    forall a, b, c :: OrderLaws(cmp, a, b, c)
  }

  ghost predicate OrderLaws(cmp: Compare, a: Key, b: Key, c: Key) {
    && (cmp(a, b) < 0 <==> cmp(b, a) > 0)
    && (cmp(a, b) == 0 <==> a == b)
    && (cmp(a, b) < 0 && cmp(b, c) < 0 ==> cmp(a, c) < 0)
  }

  ghost predicate Sorted(s: seq<Node>, cmp: Compare) {
    forall i, j | 0 <= i < j < |s| :: cmp(s[i].key, s[j].key) < 0
  }

  // the key k belongs into the hole of c
  ghost predicate Encloses(c: Ctx, k: Key, cmp: Compare) {
    && (forall x | x in Before(c) :: cmp(x.key, k) < 0)
    && (forall x | x in After(c) :: cmp(x.key, k) > 0)
  }

  lemma SortedConcat(a: seq<Node>, b: seq<Node>, cmp: Compare)
    requires Sorted(a + b, cmp)
    ensures Sorted(a, cmp) && Sorted(b, cmp)
    ensures forall x, y | x in a && y in b :: cmp(x.key, y.key) < 0
  {
    var s := a + b;
    assert forall i | 0 <= i < |a| :: s[i] == a[i];
    assert forall j | 0 <= j < |b| :: s[|a| + j] == b[j];
    forall x, y | x in a && y in b ensures cmp(x.key, y.key) < 0 {
      var i :| 0 <= i < |a| && a[i] == x;
      var j :| 0 <= j < |b| && b[j] == y;
      assert cmp(s[i].key, s[|a| + j].key) < 0;
    }
    forall i, j | 0 <= i < j < |b| ensures cmp(b[i].key, b[j].key) < 0 {
      assert cmp(s[|a| + i].key, s[|a| + j].key) < 0;
    }
  }

  lemma SortedAround(p: seq<Node>, l: seq<Node>, x: Node, r: seq<Node>, q: seq<Node>, cmp: Compare)
    requires Sorted(p + (l + [x] + r) + q, cmp)
    ensures forall z | z in l :: cmp(z.key, x.key) < 0
    ensures forall z | z in r :: cmp(x.key, z.key) < 0
  {
    SortedConcat(p + (l + [x] + r), q, cmp);
    SortedConcat(p, l + [x] + r, cmp);
    SortedConcat(l + [x], r, cmp);
    SortedConcat(l, [x], cmp);
    assert x in [x] && x in l + [x];
  }

  // one step down the tree: the key lies left of the node
  lemma DescendLeft(c: Ctx, t: Tree, k: Key, cmp: Compare)
    requires TotalOrder(cmp) && t.Bin? && Sorted(Inorder(Plug(c, t)), cmp) && Encloses(c, k, cmp)
    requires cmp(t.node.key, k) > 0
    ensures Encloses(Step(Left, t.node, t.red, t.right, c), k, cmp)
  {
    PlugOrder(c, t);
    SortedAround(Before(c), Inorder(t.left), t.node, Inorder(t.right), After(c), cmp);
    forall x | x in Inorder(t.right) ensures cmp(x.key, k) > 0 {
      assert OrderLaws(cmp, k, t.node.key, x.key) && OrderLaws(cmp, k, x.key, k);
    }
  }

  lemma DescendRight(c: Ctx, t: Tree, k: Key, cmp: Compare)
    requires TotalOrder(cmp) && t.Bin? && Sorted(Inorder(Plug(c, t)), cmp) && Encloses(c, k, cmp)
    requires cmp(t.node.key, k) < 0
    ensures Encloses(Step(Right, t.node, t.red, t.left, c), k, cmp)
  {
    PlugOrder(c, t);
    SortedAround(Before(c), Inorder(t.left), t.node, Inorder(t.right), After(c), cmp);
    forall x | x in Inorder(t.left) ensures cmp(x.key, k) < 0 {
      assert OrderLaws(cmp, x.key, t.node.key, k);
    }
  }

  // a descent that ends at NULL has shown that the key is absent
  lemma Absent(c: Ctx, k: Key, cmp: Compare)
    requires TotalOrder(cmp) && Encloses(c, k, cmp)
    ensures forall x | x in Refs(Plug(c, Nil)) :: x.key != k
  {
    PlugOrder(c, Nil);
    InorderRefs(Plug(c, Nil));
    assert OrderLaws(cmp, k, k, k);
  }

  lemma SortedInsert(c: Ctx, n: Node, cmp: Compare)
    requires TotalOrder(cmp) && Sorted(Inorder(Plug(c, Nil)), cmp) && Encloses(c, n.key, cmp)
    ensures Inorder(Plug(c, Nil)) == Before(c) + After(c)
    ensures Inorder(Plug(c, Bin(Nil, n, true, Nil))) == Before(c) + [n] + After(c)
    ensures Sorted(Before(c) + [n] + After(c), cmp)
  {
    PlugOrder(c, Nil);
    PlugOrder(c, Bin(Nil, n, true, Nil));
    var a, b := Before(c), After(c);
    assert a + [] + b == a + b;
    assert [] + [n] + [] == [n];
    SortedBetween(a, n, b, cmp);
  }

  lemma SortedBetween(a: seq<Node>, n: Node, b: seq<Node>, cmp: Compare)
    requires TotalOrder(cmp) && Sorted(a + b, cmp)
    requires (forall x | x in a :: cmp(x.key, n.key) < 0) && (forall x | x in b :: cmp(x.key, n.key) > 0)
    ensures Sorted(a + [n] + b, cmp)
  {
    var s, s' := a + b, a + [n] + b;
    forall i, j | 0 <= i < j < |s'| ensures cmp(s'[i].key, s'[j].key) < 0 {
      if i == |a| {
        assert s'[j] == b[j - |a| - 1];
        assert OrderLaws(cmp, n.key, s'[j].key, n.key);
      } else if j == |a| {
        assert s'[i] == a[i];
      } else {
        var i', j' := if i < |a| then i else i - 1, if j < |a| then j else j - 1;
        assert s'[i] == s[i'] && s'[j] == s[j'];
      }
    }
  }

  lemma SortedRemove(a: seq<Node>, n: Node, b: seq<Node>, cmp: Compare)
    requires Sorted(a + [n] + b, cmp)
    ensures Sorted(a + b, cmp)
  {
    var s, s' := a + [n] + b, a + b;
    forall i, j | 0 <= i < j < |s'| ensures cmp(s'[i].key, s'[j].key) < 0 {
      var i', j' := if i < |a| then i else i + 1, if j < |a| then j else j + 1;
      assert s'[i] == s[i'] && s'[j] == s[j'];
    }
  }

  ghost predicate UniqueKeys(nodes: set<Node>) {
    forall x, y | x in nodes && y in nodes && x.key == y.key :: x == y
  }

  lemma SortedUnique(t: Tree, cmp: Compare)
    requires TotalOrder(cmp) && Sorted(Inorder(t), cmp)
    ensures UniqueKeys(Refs(t))
  {
    InorderRefs(t);
    var s := Inorder(t);
    forall x, y | x in Refs(t) && y in Refs(t) && x.key == y.key ensures x == y {
      var i :| 0 <= i < |s| && s[i] == x;
      var j :| 0 <= j < |s| && s[j] == y;
      assert OrderLaws(cmp, x.key, y.key, x.key);
      assert i < j ==> cmp(s[i].key, s[j].key) < 0;
      assert j < i ==> cmp(s[j].key, s[i].key) < 0;
    }
  }

  ghost function Keys(s: seq<Node>): set<Key> { set n | n in s :: n.key }

  // as many keys as nodes
  lemma {:induction false} SortedKeys(s: seq<Node>, cmp: Compare)
    requires TotalOrder(cmp) && Sorted(s, cmp)
    ensures |Keys(s)| == |s|
  {
    if s == [] {
    } else {
      var i := |s| - 1;
      var front := s[..i];
      SortedKeys(front, cmp);
      KeysAppend(front, s[i]);
      assert s == front + [s[i]];
      forall n | n in front ensures n.key != s[i].key {
        var j :| 0 <= j < i && s[j] == n;
        assert OrderLaws(cmp, s[j].key, s[i].key, s[i].key);
      }
    }
  }

  lemma KeysAppend(s: seq<Node>, x: Node)
    ensures Keys(s + [x]) == Keys(s) + {x.key}
  {
    assert forall n :: n in s + [x] <==> n in s || n == x;
  }

  // keys are those of the first n nodes
  ghost predicate Lists(keys: seq<Key>, s: seq<Node>, n: nat) {
    |keys| == n <= |s| && forall i | 0 <= i < n :: keys[i] == s[i].key
  }

  lemma ListsAll(keys: seq<Key>, s: seq<Node>, cmp: Compare)
    requires Lists(keys, s, |s|) && Sorted(s, cmp)
    ensures forall i, j | 0 <= i < j < |keys| :: cmp(keys[i], keys[j]) < 0
    ensures (set k | k in keys) == Keys(s)
  {
    forall k ensures k in keys <==> k in Keys(s) {
      if k in Keys(s) {
        var n :| n in s && n.key == k;
        var i :| 0 <= i < |s| && s[i] == n;
        assert keys[i] == k;
      }
      if k in keys {
        var i :| 0 <= i < |keys| && keys[i] == k;
        assert s[i] in s;
      }
    }
  }

  // what comes before another node in a sorted sequence has a lesser key
  lemma SortedPair(s: seq<Node>, i: nat, j: nat, cmp: Compare)
    requires TotalOrder(cmp) && Sorted(s, cmp) && i < |s| && j < |s|
    ensures cmp(s[i].key, s[j].key) < 0 <==> i < j
    ensures cmp(s[i].key, s[j].key) > 0 <==> i > j
  {
    assert OrderLaws(cmp, s[i].key, s[j].key, s[i].key) && OrderLaws(cmp, s[j].key, s[i].key, s[j].key);
    assert OrderLaws(cmp, s[i].key, s[i].key, s[i].key);
    assert i < j ==> cmp(s[i].key, s[j].key) < 0;
    assert j < i ==> cmp(s[j].key, s[i].key) < 0;
  }

  // a node has the least of the keys greater than x's, or there are none
  ghost predicate NextKey(next: Node?, s: seq<Node>, x: Node, cmp: Compare) {
    if next == null then forall n | n in s :: cmp(n.key, x.key) <= 0
    else
      && next in s && cmp(next.key, x.key) > 0
      && forall n | n in s && cmp(n.key, x.key) > 0 :: cmp(next.key, n.key) <= 0
  }

  ghost predicate PrevKey(prev: Node?, s: seq<Node>, x: Node, cmp: Compare) {
    if prev == null then forall n | n in s :: cmp(n.key, x.key) >= 0
    else
      && prev in s && cmp(prev.key, x.key) < 0
      && forall n | n in s && cmp(n.key, x.key) < 0 :: cmp(prev.key, n.key) >= 0
  }

  lemma SuccessorKey(s: seq<Node>, x: Node, cmp: Compare)
    requires TotalOrder(cmp) && Sorted(s, cmp) && x in s
    ensures NextKey(Successor(s, x), s, x, cmp)
  {
    var i := Index(s, x);
    forall n | n in s ensures cmp(n.key, x.key) > 0 ==> i + 1 < |s| && cmp(s[i + 1].key, n.key) <= 0 {
      var j :| 0 <= j < |s| && s[j] == n;
      SortedPair(s, j, i, cmp);
      if j > i {
        SortedPair(s, i + 1, j, cmp);
      }
    }
    if i + 1 < |s| {
      SortedPair(s, i + 1, i, cmp);
    }
  }

  lemma PredecessorKey(s: seq<Node>, x: Node, cmp: Compare)
    requires TotalOrder(cmp) && Sorted(s, cmp) && x in s
    ensures PrevKey(Predecessor(s, x), s, x, cmp)
  {
    var i := Index(s, x);
    forall n | n in s ensures cmp(n.key, x.key) < 0 ==> i > 0 && cmp(s[i - 1].key, n.key) >= 0 {
      var j :| 0 <= j < |s| && s[j] == n;
      SortedPair(s, j, i, cmp);
      if j < i {
        SortedPair(s, i - 1, j, cmp);
      }
    }
    if i > 0 {
      SortedPair(s, i - 1, i, cmp);
    }
  }

  // ---------- bounds ----------

  // treemap_find_bound_node keeps a node as a candidate
  ghost predicate Beyond(x: Node, k: Key, strict: bool, cmp: Compare) {
    cmp(x.key, k) > 0 || (!strict && cmp(x.key, k) == 0)
  }

  // the least candidate of all nodes, or NULL
  ghost predicate IsBound(bound: Node?, nodes: set<Node>, k: Key, strict: bool, cmp: Compare) {
    if bound == null then forall x | x in nodes :: !Beyond(x, k, strict, cmp)
    else
      && bound in nodes && Beyond(bound, k, strict, cmp)
      && forall x | x in nodes && Beyond(x, k, strict, cmp) :: cmp(bound.key, x.key) <= 0
  }

  // the hole of c separates the candidates from the others
  ghost predicate Divides(c: Ctx, k: Key, strict: bool, cmp: Compare) {
    && (forall x | x in Before(c) :: !Beyond(x, k, strict, cmp))
    && (forall x | x in After(c) :: Beyond(x, k, strict, cmp))
  }

  lemma DivideLeft(c: Ctx, t: Tree, k: Key, strict: bool, cmp: Compare)
    requires TotalOrder(cmp) && t.Bin? && Sorted(Inorder(Plug(c, t)), cmp) && Divides(c, k, strict, cmp)
    requires Beyond(t.node, k, strict, cmp)
    ensures Divides(Step(Left, t.node, t.red, t.right, c), k, strict, cmp)
  {
    PlugOrder(c, t);
    SortedAround(Before(c), Inorder(t.left), t.node, Inorder(t.right), After(c), cmp);
    forall x | x in Inorder(t.right) ensures Beyond(x, k, strict, cmp) {
      assert OrderLaws(cmp, k, t.node.key, x.key) && OrderLaws(cmp, k, x.key, k) && OrderLaws(cmp, t.node.key, k, k);
    }
  }

  lemma DivideRight(c: Ctx, t: Tree, k: Key, strict: bool, cmp: Compare)
    requires TotalOrder(cmp) && t.Bin? && Sorted(Inorder(Plug(c, t)), cmp) && Divides(c, k, strict, cmp)
    requires !Beyond(t.node, k, strict, cmp)
    ensures Divides(Step(Right, t.node, t.red, t.left, c), k, strict, cmp)
  {
    PlugOrder(c, t);
    SortedAround(Before(c), Inorder(t.left), t.node, Inorder(t.right), After(c), cmp);
    forall x | x in Inorder(t.left) ensures !Beyond(x, k, strict, cmp) {
      assert OrderLaws(cmp, x.key, t.node.key, k) && OrderLaws(cmp, t.node.key, k, k);
    }
  }

  lemma BoundFound(c: Ctx, k: Key, strict: bool, cmp: Compare)
    requires TotalOrder(cmp) && Sorted(Inorder(Plug(c, Nil)), cmp) && Divides(c, k, strict, cmp)
    ensures IsBound(At(After(c), 0), Refs(Plug(c, Nil)), k, strict, cmp)
  {
    assert Inorder(Plug(c, Nil)) == Before(c) + After(c) by {
      PlugOrder(c, Nil);
      assert Before(c) + [] + After(c) == Before(c) + After(c);
    }
    assert Refs(Plug(c, Nil)) == set x | x in Before(c) + After(c) by {
      InorderRefs(Plug(c, Nil));
    }
    LeastBeyond(Before(c), After(c), k, strict, cmp);
  }

  lemma LeastBeyond(b: seq<Node>, a: seq<Node>, k: Key, strict: bool, cmp: Compare)
    requires TotalOrder(cmp) && Sorted(b + a, cmp)
    requires forall x | x in b :: !Beyond(x, k, strict, cmp)
    requires forall x | x in a :: Beyond(x, k, strict, cmp)
    ensures IsBound(At(a, 0), (set x | x in b + a), k, strict, cmp)
  {
    SortedConcat(b, a, cmp);
    if a != [] {
      SortedLeast(a, cmp);
    }
  }

  lemma SortedLeast(a: seq<Node>, cmp: Compare)
    requires TotalOrder(cmp) && Sorted(a, cmp) && a != []
    ensures a[0] in a && forall x | x in a :: cmp(a[0].key, x.key) <= 0
  {
    forall x | x in a ensures cmp(a[0].key, x.key) <= 0 {
      var i :| 0 <= i < |a| && a[i] == x;
      assert OrderLaws(cmp, x.key, x.key, x.key);
    }
  }

  // ---------- depth ----------

  ghost function Height(t: Tree): nat {
    if t.Nil? then 0
    else if Height(t.left) > Height(t.right) then Height(t.left) + 1 else Height(t.right) + 1
  }

  lemma {:induction false} DepthHeight(c: Ctx, t: Tree)
    ensures Depth(c) + Height(t) <= Height(Plug(c, t))
  {
    if c.Step? {
      DepthHeight(c.up, Make(c.side, t, c.node, c.red, c.sib));
    }
  }

  lemma {:induction false} HeightWithinBlackHeight(t: Tree)
    requires Balanced(t)
    ensures Height(t) <= 2 * BlackHeight(t) + if IsRed(t) then 1 else 0
  {
    if t.Bin? {
      HeightWithinBlackHeight(t.left);
      HeightWithinBlackHeight(t.right);
    }
  }

  lemma {:induction false} BlackHeightWithinSize(t: Tree)
    requires Balanced(t)
    ensures Pow2(BlackHeight(t)) <= |Inorder(t)| + 1
  {
    if t.Bin? {
      BlackHeightWithinSize(t.left);
      BlackHeightWithinSize(t.right);
    }
  }

  // the height is at most twice the logarithm of size + 1
  lemma HeightBound(t: Tree)
    requires RedBlack(t)
    ensures Pow2(Height(t)) <= (|Inorder(t)| + 1) * (|Inorder(t)| + 1)
  {
    var h, n := BlackHeight(t), |Inorder(t)| + 1;
    HeightWithinBlackHeight(t);
    BlackHeightWithinSize(t);
    Pow2Monotone(Height(t), h + h);
    Pow2Add(h, h);
    Squares(Pow2(h), n);
  }

  lemma Squares(a: nat, b: nat)
    requires a <= b
    ensures a * a <= b * b
  {
  }
}
