/** The values behind the red-black map of src/treemap.c: trees of nodes, trees
    with a hole (the position a fixup loop has climbed to), and the balance theory
    that both fixup loops rely on. Nothing here reads the heap. */
module RedBlackTree {

  // Keys and values are arbitrary types; keys are ordered by the map's comparator.
  type Key(==, !new)
  type Value

  class Node {
    var left: Node?
    var right: Node?
    var parent: Node?
    var red: bool
    const key: Key
    var value: Value

    constructor (key: Key, value: Value)
      ensures this.key == key && this.value == value
      ensures left == right == parent == null && red
    {
      this.key, this.value := key, value;
      left, right, parent, red := null, null, null, true;
    }
  }

  datatype Side = Left | Right {
    function Other(): Side { if Left? then Right else Left }
  }

  datatype Tree = Nil | Bin(left: Tree, node: Node, red: bool, right: Tree)

  // A tree with a hole. The hole is the child of node on the given side; sib is the
  // other child and up is what surrounds node.
  datatype Ctx = Top | Step(side: Side, node: Node, red: bool, sib: Tree, up: Ctx)

  // The node x with subtree near on side s and subtree far on the other side.
  ghost function Make(s: Side, near: Tree, x: Node, red: bool, far: Tree): Tree {
    if s.Left? then Bin(near, x, red, far) else Bin(far, x, red, near)
  }

  ghost function Child(t: Tree, s: Side): Tree
    requires t.Bin?
  {
    if s.Left? then t.left else t.right
  }

  ghost function Root(t: Tree): Node? { if t.Nil? then null else t.node }

  ghost function Parent(c: Ctx): Node? { if c.Top? then null else c.node }

  ghost function Plug(c: Ctx, t: Tree): Tree {
    if c.Top? then t else Plug(c.up, Make(c.side, t, c.node, c.red, c.sib))
  }

  ghost function Paint(t: Tree, red: bool): Tree {
    if t.Nil? then Nil else Bin(t.left, t.node, red, t.right)
  }

  lemma MakeOther(s: Side, a: Tree, x: Node, red: bool, b: Tree)
    ensures Make(s, a, x, red, b) == Make(s.Other(), b, x, red, a)
    ensures forall r :: Paint(Make(s, a, x, red, b), r) == Make(s, a, x, r, b)
  {
  }

  // the same tree seen from either child of x and from x itself
  lemma Sideways(s: Side, near: Tree, x: Node, red: bool, far: Tree, up: Ctx)
    ensures Plug(Step(s, x, red, far, up), near) == Plug(up, Make(s, near, x, red, far))
    ensures Plug(Step(s.Other(), x, red, near, up), far) == Plug(up, Make(s, near, x, red, far))
  {
  }

  // the hole of inner, seen through outer
  ghost function Append(inner: Ctx, outer: Ctx): Ctx {
    if inner.Top? then outer else inner.(up := Append(inner.up, outer))
  }

  lemma {:induction false} PlugAppend(inner: Ctx, outer: Ctx, t: Tree)
    ensures Plug(Append(inner, outer), t) == Plug(outer, Plug(inner, t))
  {
    if inner.Step? {
      PlugAppend(inner.up, outer, Make(inner.side, t, inner.node, inner.red, inner.sib));
    }
  }

  lemma {:induction false} PlugBin(c: Ctx, t: Tree)
    requires c.Step? || t.Bin?
    ensures Plug(c, t).Bin?
  {
    if c.Step? {
      PlugBin(c.up, Make(c.side, t, c.node, c.red, c.sib));
    }
  }

  ghost function Depth(c: Ctx): nat { if c.Top? then 0 else 1 + Depth(c.up) }

  lemma {:induction false} PlugRoot(c: Ctx, t: Tree, t': Tree)
    requires Root(t) == Root(t') || c.Step?
    ensures Root(Plug(c, t)) == Root(Plug(c, t'))
  {
    if c.Step? {
      PlugRoot(c.up, Make(c.side, t, c.node, c.red, c.sib), Make(c.side, t', c.node, c.red, c.sib));
    }
  }

  // ---------- the nodes of a tree ----------

  ghost function Inorder(t: Tree): seq<Node> {
    if t.Nil? then [] else Inorder(t.left) + [t.node] + Inorder(t.right)
  }

  ghost function Refs(t: Tree): set<Node> {
    if t.Nil? then {} else Refs(t.left) + {t.node} + Refs(t.right)
  }

  ghost function CtxRefs(c: Ctx): set<Node> {
    if c.Top? then {} else {c.node} + Refs(c.sib) + CtxRefs(c.up)
  }

  // the nodes before and after the hole, in order
  ghost function Before(c: Ctx): seq<Node> {
    if c.Top? then []
    else if c.side.Left? then Before(c.up)
    else Before(c.up) + Inorder(c.sib) + [c.node]
  }

  ghost function After(c: Ctx): seq<Node> {
    if c.Top? then []
    else if c.side.Right? then After(c.up)
    else [c.node] + Inorder(c.sib) + After(c.up)
  }

  lemma Regroup(p: seq<Node>, l: seq<Node>, x: Node, r: seq<Node>, q: seq<Node>)
    ensures p + (l + [x] + r) + q == (p + l + [x]) + r + q
    ensures p + (l + [x] + r) + q == p + l + ([x] + r + q)
  {
  }

  lemma Assoc(a: seq<Node>, b: seq<Node>, c: seq<Node>)
    ensures a + (b + c) == a + b + c && [] + a + b == a + b
  {
  }

  lemma Remove(p: seq<Node>, l: seq<Node>, x: Node, r: seq<Node>, q: seq<Node>)
    ensures p + (l + [x] + r) + q == (p + l) + [x] + (r + q)
    ensures p + (l + r) + q == (p + l) + (r + q)
  {
  }

  lemma {:induction false} PlugOrder(c: Ctx, t: Tree)
    ensures Inorder(Plug(c, t)) == Before(c) + Inorder(t) + After(c)
  {
    if c.Top? {
      assert [] + Inorder(t) + [] == Inorder(t);
    } else {
      PlugOrder(c.up, Make(c.side, t, c.node, c.red, c.sib));
      if c.side.Left? {
        Regroup(Before(c.up), Inorder(t), c.node, Inorder(c.sib), After(c.up));
      } else {
        Regroup(Before(c.up), Inorder(c.sib), c.node, Inorder(t), After(c.up));
      }
    }
  }

  lemma {:induction false} InorderRefs(t: Tree)
    ensures Refs(t) == set x | x in Inorder(t)
  {
    if t.Bin? {
      InorderRefs(t.left);
      InorderRefs(t.right);
    }
  }

  // ---------- no node occurs twice ----------

  ghost predicate Distinct(t: Tree) {
    t.Bin? ==>
      && t.node !in Refs(t.left) && t.node !in Refs(t.right) && Refs(t.left) !! Refs(t.right)
      && Distinct(t.left) && Distinct(t.right)
  }

  ghost predicate DistinctCtx(c: Ctx) {
    c.Step? ==>
      && c.node !in Refs(c.sib) && c.node !in CtxRefs(c.up) && Refs(c.sib) !! CtxRefs(c.up)
      && Distinct(c.sib) && DistinctCtx(c.up)
  }

  lemma {:induction false} PlugRefs(c: Ctx, t: Tree)
    ensures Refs(Plug(c, t)) == CtxRefs(c) + Refs(t)
  {
    if c.Step? {
      PlugRefs(c.up, Make(c.side, t, c.node, c.red, c.sib));
    }
  }

  lemma {:induction false} PlugDistinct(c: Ctx, t: Tree)
    ensures Distinct(Plug(c, t)) <==> Distinct(t) && DistinctCtx(c) && CtxRefs(c) !! Refs(t)
  {
    if c.Step? {
      PlugDistinct(c.up, Make(c.side, t, c.node, c.red, c.sib));
    }
  }

  ghost predicate NoDuplicates(s: seq<Node>) {
    forall i, j | 0 <= i < j < |s| :: s[i] != s[j]
  }

  lemma DisjointOrder(l: Tree, r: Tree)
    ensures Refs(l) !! Refs(r) <==> forall z | z in Inorder(l) :: z !in Inorder(r)
  {
    InorderRefs(l);
    InorderRefs(r);
    forall z ensures z in Refs(l) <==> z in Inorder(l) {}
    forall z ensures z in Refs(r) <==> z in Inorder(r) {}
  }

  lemma {:induction false} DistinctOrder(t: Tree)
    ensures Distinct(t) <==> NoDuplicates(Inorder(t))
  {
    if t.Bin? {
      DisjointOrder(t.left, t.right);
      InorderRefs(t.left);
      InorderRefs(t.right);
      DistinctOrder(t.left);
      DistinctOrder(t.right);
      NoDuplicatesConcat(Inorder(t.left), t.node, Inorder(t.right));
    }
  }

  lemma NoDuplicatesConcat(a: seq<Node>, x: Node, b: seq<Node>)
    ensures NoDuplicates(a + [x] + b) <==>
      && NoDuplicates(a) && NoDuplicates(b) && x !in a && x !in b
      && (forall z | z in a :: z !in b)
  {
    var s := a + [x] + b;
    var k := |a| + 1;
    assert forall i | 0 <= i < |a| :: s[i] == a[i];
    assert s[|a|] == x;
    assert forall i | 0 <= i < |b| :: b[i] == s[k + i];
    if NoDuplicates(s) {
      forall i, j | 0 <= i < |a| && 0 <= j < |b| ensures a[i] != b[j] {
        assert s[i] != s[k + j];
      }
    } else {
      var i, j :| 0 <= i < j < |s| && s[i] == s[j];
      if j < |a| {
        assert a[i] == a[j];
      } else if j == |a| {
        assert a[i] == x;
      } else if i < |a| {
        assert a[i] in a && b[j - k] in b;
      } else if i == |a| {
        assert b[j - k] in b;
      } else {
        assert b[i - k] == b[j - k];
      }
    }
  }

  // A change of one subtree that keeps its nodes in order keeps the whole in order.
  lemma PlugSameOrder(c: Ctx, t: Tree, t': Tree)
    requires Inorder(t) == Inorder(t')
    ensures Inorder(Plug(c, t)) == Inorder(Plug(c, t'))
    ensures Refs(Plug(c, t)) == Refs(Plug(c, t'))
    ensures Distinct(Plug(c, t)) <==> Distinct(Plug(c, t'))
  {
    PlugOrder(c, t);
    PlugOrder(c, t');
    InorderRefs(Plug(c, t));
    InorderRefs(Plug(c, t'));
    DistinctOrder(Plug(c, t));
    DistinctOrder(Plug(c, t'));
  }

  // ---------- red-black balance ----------

  ghost predicate IsRed(t: Tree) { t.Bin? && t.red }

  // black nodes on the way down; NULL leaves count nothing
  ghost function BlackHeight(t: Tree): nat {
    if t.Nil? then 0 else BlackHeight(t.left) + if t.red then 0 else 1
  }

  ghost predicate Balanced(t: Tree) {
    t.Bin? ==>
      && Balanced(t.left) && Balanced(t.right)
      && BlackHeight(t.left) == BlackHeight(t.right)
      && (t.red ==> !IsRed(t.left) && !IsRed(t.right))
  }

  ghost predicate RedBlack(t: Tree) { Balanced(t) && !IsRed(t) }

  // some way from the root to a NULL leaf passes n black nodes
  ghost predicate OnSomeWay(t: Tree, n: int) {
    if t.Nil? then n == 0
    else
      var m := if t.red then n else n - 1;
      OnSomeWay(t.left, m) || OnSomeWay(t.right, m)
  }

  ghost predicate NoRedRed(t: Tree) {
    t.Bin? ==>
      && NoRedRed(t.left) && NoRedRed(t.right)
      && (t.red ==> !IsRed(t.left) && !IsRed(t.right))
  }

  ghost predicate EqualWays(t: Tree) {
    forall n | OnSomeWay(t, n) :: n == BlackHeight(t)
  }

  lemma {:induction false} BalancedWays(t: Tree, n: int)
    requires Balanced(t) && OnSomeWay(t, n)
    ensures n == BlackHeight(t)
  {
    if t.Bin? {
      var m := if t.red then n else n - 1;
      if OnSomeWay(t.left, m) {
        BalancedWays(t.left, m);
      } else {
        BalancedWays(t.right, m);
      }
    }
  }

  lemma {:induction false} LeftmostWay(t: Tree)
    ensures OnSomeWay(t, BlackHeight(t))
  {
    if t.Bin? {
      LeftmostWay(t.left);
    }
  }

  lemma {:induction false} WaysBalanced(t: Tree)
    requires NoRedRed(t) && EqualWays(t)
    ensures Balanced(t)
  {
    if t.Bin? {
      var b := if t.red then 0 else 1;
      forall n | OnSomeWay(t.left, n) || OnSomeWay(t.right, n) ensures n == BlackHeight(t.left) {
        assert OnSomeWay(t, n + b);
      }
      LeftmostWay(t.right);
      WaysBalanced(t.left);
      WaysBalanced(t.right);
    }
  }

  // Balance is what the textbook asks for: no red node has a red child, and all ways
  // to a leaf pass equally many black nodes.
  lemma BalancedMeans(t: Tree)
    ensures Balanced(t) <==> NoRedRed(t) && EqualWays(t)
  {
    if Balanced(t) {
      BalancedNoRedRed(t);
      forall n | OnSomeWay(t, n) ensures n == BlackHeight(t) {
        BalancedWays(t, n);
      }
    } else if NoRedRed(t) && EqualWays(t) {
      WaysBalanced(t);
    }
  }

  lemma {:induction false} BalancedNoRedRed(t: Tree)
    requires Balanced(t)
    ensures NoRedRed(t)
  {
    if t.Bin? {
      BalancedNoRedRed(t.left);
      BalancedNoRedRed(t.right);
    }
  }

  // The hole accepts every balanced subtree of black height h; a red one only if red.
  ghost predicate Fits(c: Ctx, h: nat, red: bool) {
    if c.Top? then !red
    else
      && Balanced(c.sib) && BlackHeight(c.sib) == h
      && (c.red ==> !red && !IsRed(c.sib))
      && Fits(c.up, if c.red then h else h + 1, c.red)
  }

  lemma {:induction false} PlugRedBlack(c: Ctx, t: Tree)
    ensures RedBlack(Plug(c, t)) <==> Balanced(t) && Fits(c, BlackHeight(t), IsRed(t))
  {
    if c.Step? {
      PlugRedBlack(c.up, Make(c.side, t, c.node, c.red, c.sib));
    }
  }

  // ---------- neighbours in order ----------

  ghost function At(s: seq<Node>, i: int): Node? { if 0 <= i < |s| then s[i] else null }

  ghost function Index(s: seq<Node>, x: Node): nat
    requires x in s
    ensures Index(s, x) < |s| && s[Index(s, x)] == x
  {
    var i :| 0 <= i < |s| && s[i] == x;
    i
  }

  // the next and the previous node in order, or NULL
  ghost function Successor(s: seq<Node>, x: Node): Node?
    requires x in s
  {
    At(s, Index(s, x) + 1)
  }

  ghost function Predecessor(s: seq<Node>, x: Node): Node?
    requires x in s
  {
    At(s, Index(s, x) - 1)
  }

  lemma SuccessorOf(s: seq<Node>, i: nat)
    requires NoDuplicates(s) && i < |s|
    ensures Successor(s, s[i]) == At(s, i + 1)
  {
  }

  lemma PredecessorInvertsSuccessor(s: seq<Node>, x: Node, y: Node)
    requires NoDuplicates(s) && x in s && y in s
    ensures Successor(s, x) == y <==> Predecessor(s, y) == x
  {
  }

  lemma {:induction false} FindPosition(t: Tree, x: Node, above: Ctx) returns (c: Ctx, u: Tree)
    requires x in Refs(t)
    ensures Plug(c, u) == Plug(above, t) && u.Bin? && u.node == x
  {
    if x == t.node {
      c, u := above, t;
    } else if x in Refs(t.left) {
      c, u := FindPosition(t.left, x, Step(Left, t.node, t.red, t.right, above));
    } else {
      c, u := FindPosition(t.right, x, Step(Right, t.node, t.red, t.left, above));
    }
  }

  lemma SuccessorPosition(c: Ctx, u: Tree)
    requires u.Bin? && NoDuplicates(Inorder(Plug(c, u)))
    ensures var s := Inorder(Plug(c, u));
            u.node in s && Successor(s, u.node) == At(Inorder(u.right) + After(c), 0)
  {
    PlugOrder(c, u);
    Remove(Before(c), Inorder(u.left), u.node, Inorder(u.right), After(c));
    Middle(Before(c) + Inorder(u.left), u.node, Inorder(u.right) + After(c));
  }

  lemma PredecessorPosition(c: Ctx, u: Tree)
    requires u.Bin? && NoDuplicates(Inorder(Plug(c, u)))
    ensures var s, p := Inorder(Plug(c, u)), Before(c) + Inorder(u.left);
            u.node in s && Predecessor(s, u.node) == At(p, |p| - 1)
  {
    PlugOrder(c, u);
    Remove(Before(c), Inorder(u.left), u.node, Inorder(u.right), After(c));
    Middle(Before(c) + Inorder(u.left), u.node, Inorder(u.right) + After(c));
  }

  lemma Middle(a: seq<Node>, x: Node, b: seq<Node>)
    requires NoDuplicates(a + [x] + b)
    ensures x in a + [x] + b && Index(a + [x] + b, x) == |a|
    ensures At(a + [x] + b, |a| + 1) == At(b, 0) && At(a + [x] + b, |a| - 1) == At(a, |a| - 1)
  {
    assert (a + [x] + b)[|a|] == x;
  }

  // ---------- the successor of a node with two children ----------

  // t's root node, and its successor u.node at the left end of the right subtree
  ghost predicate SuccessorAt(t: Tree, k: Ctx, u: Tree) {
    t.Bin? && t.right == Plug(k, u) && u.Bin? && u.left.Nil? && Before(k) == []
  }

  lemma SuccessorOrder(c: Ctx, t: Tree, k: Ctx, u: Tree)
    requires SuccessorAt(t, k, u)
    ensures Inorder(Plug(c, Bin(t.left, u.node, t.red, Plug(k, u.right))))
         == Before(c) + (Inorder(t.left) + Inorder(t.right)) + After(c)
  {
    var r := Plug(k, u.right);
    PlugOrder(k, u);
    PlugOrder(k, u.right);
    Assoc([u.node], Inorder(u.right), After(k));
    assert Inorder(t.right) == [u.node] + Inorder(r);
    Assoc(Inorder(t.left), [u.node], Inorder(r));
    PlugOrder(c, Bin(t.left, u.node, t.red, r));
  }

  lemma SuccessorForms(c: Ctx, t: Tree, k: Ctx, u: Tree)
    requires SuccessorAt(t, k, u) && Distinct(Plug(c, t))
    ensures Plug(Append(k, Step(Right, t.node, t.red, t.left, c)), u) == Plug(c, t)
    ensures Plug(Append(k, Step(Right, u.node, t.red, t.left, c)), u.right)
         == Plug(c, Bin(t.left, u.node, t.red, Plug(k, u.right)))
    ensures k.Step? ==> k.node != t.node
  {
    PlugAppend(k, Step(Right, t.node, t.red, t.left, c), u);
    PlugAppend(k, Step(Right, u.node, t.red, t.left, c), u.right);
    PlugDistinct(c, t);
    PlugRefs(k, u);
  }
}
