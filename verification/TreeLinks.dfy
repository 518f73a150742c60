/** How the pointers of the nodes represent a tree. A snapshot of the heap is a map
    from nodes to their link fields; each pointer operation of src/treemap.c is a
    relation between two snapshots, and the lemmas say which tree the second one
    represents. */
module TreeLinks {
  import opened RedBlackTree

  datatype Cell = Cell(left: Node?, right: Node?, parent: Node?, red: bool) {
    function Child(s: Side): Node? { if s.Left? then left else right }

    function SetChild(s: Side, p: Node?): Cell {
      if s.Left? then this.(left := p) else this.(right := p)
    }
  }

  type Mem = map<Node, Cell>

  ghost function MakeCell(s: Side, near: Node?, far: Node?, parent: Node?, red: bool): Cell {
    if s.Left? then Cell(near, far, parent, red) else Cell(far, near, parent, red)
  }

  // the subtree whose root has parent p is t
  ghost predicate Shape(m: Mem, t: Tree, p: Node?) {
    t.Bin? ==>
      && t.node in m && m[t.node] == Cell(Root(t.left), Root(t.right), p, t.red)
      && Shape(m, t.left, t.node) && Shape(m, t.right, t.node)
  }

  // the surroundings of a subtree with root hole are c
  ghost predicate CtxShape(m: Mem, c: Ctx, hole: Node?) {
    c.Step? ==>
      && c.node in m && m[c.node] == MakeCell(c.side, hole, Root(c.sib), Parent(c.up), c.red)
      && Shape(m, c.sib, c.node) && CtxShape(m, c.up, c.node)
  }

  lemma {:induction false} PlugShape(m: Mem, c: Ctx, t: Tree)
    ensures Shape(m, Plug(c, t), null) <==> CtxShape(m, c, Root(t)) && Shape(m, t, Parent(c))
  {
    if c.Step? {
      PlugShape(m, c.up, Make(c.side, t, c.node, c.red, c.sib));
    }
  }

  // m holds exactly the nodes of t, linked as t says
  ghost predicate Represents(m: Mem, t: Tree) {
    m.Keys == Refs(t) && Distinct(t) && Shape(m, t, null)
  }

  // what the pointers around a position read
  lemma Look(m: Mem, c: Ctx, t: Tree)
    requires Represents(m, Plug(c, t))
    ensures t.Bin? ==> t.node in m && m[t.node] == Cell(Root(t.left), Root(t.right), Parent(c), t.red)
    ensures c.Step? ==> c.node in m && m[c.node] == MakeCell(c.side, Root(t), Root(c.sib), Parent(c.up), c.red)
    ensures c.Step? && c.sib.Bin? ==>
      c.sib.node in m && m[c.sib.node] == Cell(Root(c.sib.left), Root(c.sib.right), c.node, c.sib.red)
    ensures c.Step? && t.Bin? ==> Root(c.sib) != t.node
    ensures c.Step? && t.Bin? ==> t.node != Root(Plug(c, t))
  {
    PlugShape(m, c, t);
    PlugDistinct(c, t);
    if c.Step? {
      RootAbove(c, t);
    }
  }

  lemma LookBelow(m: Mem, c: Ctx, t: Tree)
    requires Represents(m, Plug(c, t)) && c.Step? && c.sib.Bin?
    ensures c.sib.left.Bin? ==> c.sib.left.node in m && m[c.sib.left.node].red == c.sib.left.red
    ensures c.sib.right.Bin? ==> c.sib.right.node in m && m[c.sib.right.node].red == c.sib.right.red
    ensures c.sib.node != Root(t) && Root(t) != Root(Plug(c, t))
  {
    PlugShape(m, c, t);
    PlugDistinct(c, t);
    RootAbove(c, t);
    var w := c.sib;
    assert Shape(m, w, c.node);
    assert Shape(m, w.left, w.node) && Shape(m, w.right, w.node);
  }

  lemma {:induction false} RootAbove(c: Ctx, t: Tree)
    requires c.Step?
    ensures Root(Plug(c, t)) in CtxRefs(c)
  {
    if c.up.Step? {
      RootAbove(c.up, Make(c.side, t, c.node, c.red, c.sib));
    }
  }

  // ---------- framing ----------

  ghost predicate Agree(m: Mem, m': Mem, s: set<Node>) {
    forall x | x in s && x in m :: x in m' && m[x] == m'[x]
  }

  lemma {:induction false} FrameShape(m: Mem, m': Mem, t: Tree, p: Node?)
    requires Shape(m, t, p) && Agree(m, m', Refs(t))
    ensures Shape(m', t, p)
  {
    if t.Bin? {
      FrameShape(m, m', t.left, t.node);
      FrameShape(m, m', t.right, t.node);
    }
  }

  lemma {:induction false} FrameCtx(m: Mem, m': Mem, c: Ctx, hole: Node?)
    requires CtxShape(m, c, hole) && Agree(m, m', CtxRefs(c))
    ensures CtxShape(m', c, hole)
  {
    if c.Step? {
      FrameShape(m, m', c.sib, c.node);
      FrameCtx(m, m', c.up, c.node);
    }
  }

  // a subtree is hung below another parent
  lemma Reparent(m: Mem, m': Mem, t: Tree, p: Node?, q: Node?)
    requires Shape(m, t, p) && Distinct(t)
    requires t.Bin? ==>
      t.node in m' && m'[t.node] == m[t.node].(parent := q) && Agree(m, m', Refs(t) - {t.node})
    ensures Shape(m', t, q)
  {
    if t.Bin? {
      FrameShape(m, m', t.left, t.node);
      FrameShape(m, m', t.right, t.node);
    }
  }

  // another subtree is hung into the hole
  lemma Rehole(m: Mem, m': Mem, c: Ctx, hole: Node?, n: Node?)
    requires CtxShape(m, c, hole) && DistinctCtx(c)
    requires c.Step? ==>
      && c.node in m' && m'[c.node] == m[c.node].SetChild(c.side, n)
      && Agree(m, m', CtxRefs(c) - {c.node})
    ensures CtxShape(m', c, n)
  {
    if c.Step? {
      FrameShape(m, m', c.sib, c.node);
      FrameCtx(m, m', c.up, c.node);
    }
  }

  // ---------- recolouring ----------

  ghost predicate Recolored(m: Mem, m': Mem, x: Node, red: bool) {
    && m'.Keys == m.Keys
    && (x in m ==> m'[x] == m[x].(red := red))
    && forall z | z in m && z != x :: m'[z] == m[z]
  }

  lemma RecolorShape(m: Mem, m': Mem, c: Ctx, t: Tree, red: bool)
    requires t.Bin? && Distinct(Plug(c, t)) && Shape(m, Plug(c, t), null)
    requires Recolored(m, m', t.node, red)
    ensures Shape(m', Plug(c, Paint(t, red)), null)
  {
    PlugShape(m, c, t);
    PlugDistinct(c, t);
    FrameShape(m, m', t.left, t.node);
    FrameShape(m, m', t.right, t.node);
    FrameCtx(m, m', c, t.node);
    PlugShape(m', c, Paint(t, red));
  }

  lemma RecolorRepresents(m: Mem, m': Mem, c: Ctx, t: Tree, red: bool)
    requires Represents(m, Plug(c, t))
    requires if t.Bin? then Recolored(m, m', t.node, red) else m' == m
    ensures Represents(m', Plug(c, Paint(t, red)))
    ensures Inorder(Plug(c, t)) == Inorder(Plug(c, Paint(t, red)))
    ensures Root(Plug(c, t)) == Root(Plug(c, Paint(t, red)))
  {
    PlugSameOrder(c, t, Paint(t, red));
    PlugRoot(c, t, Paint(t, red));
    if t.Bin? {
      RecolorShape(m, m', c, t, red);
    }
  }

  // ---------- rotation ----------

  // treemap_left_rotate (s == Left) and treemap_right_rotate (s == Right) at x: its
  // child y on the other side takes its place and x becomes y's child on side s.
  ghost predicate Rotated(m: Mem, m': Mem, s: Side, x: Node, y: Node) {
    && m'.Keys == m.Keys && x in m && y in m && m[x].Child(s.Other()) == y
    && var b := m[y].Child(s);
    && var p := m[x].parent;
    && m'[x] == m[x].SetChild(s.Other(), b).(parent := y)
    && m'[y] == m[y].SetChild(s, x).(parent := p)
    && (b != null ==> b in m && m'[b] == m[b].(parent := x))
    && (p != null ==> p in m && m'[p] == m[p].SetChild(if m[p].left == x then Left else Right, y))
    && forall z | z in m && z != x && z != y && z != b && z != p :: m'[z] == m[z]
  }

  ghost predicate Rotatable(m: Mem, s: Side, x: Node) {
    && x in m && m[x].Child(s.Other()) != null && m[x].Child(s.Other()) in m
    && var y := m[x].Child(s.Other());
    && var b := m[y].Child(s);
    && var p := m[x].parent;
    && x != y
    && (b != null ==> b in m && b != x && b != y)
    && (p != null ==> p in m && p != x && p != y && p != b && (m[p].left == x <==> m[p].right != x))
  }

  // a, b, d are the three subtrees around the edge from x to y
  ghost predicate Apart(c: Ctx, a: Tree, x: Node, b: Tree, y: Node, d: Tree) {
    && x != y
    && x !in Refs(a) && x !in Refs(b) && x !in Refs(d) && x !in CtxRefs(c)
    && y !in Refs(a) && y !in Refs(b) && y !in Refs(d) && y !in CtxRefs(c)
    && Refs(a) !! Refs(b) && Refs(a) !! Refs(d) && Refs(b) !! Refs(d)
    && CtxRefs(c) !! Refs(a) && CtxRefs(c) !! Refs(b) && CtxRefs(c) !! Refs(d)
    && Distinct(a) && Distinct(b) && Distinct(d) && DistinctCtx(c)
  }

  lemma SeparateRotation(s: Side, c: Ctx, a: Tree, x: Node, rx: bool, b: Tree, y: Node, ry: bool, d: Tree)
    requires Distinct(Plug(c, Make(s, a, x, rx, Make(s, b, y, ry, d))))
    ensures Apart(c, a, x, b, y, d)
  {
    var inner := Make(s, b, y, ry, d);
    PlugDistinct(c, Make(s, a, x, rx, inner));
    assert Refs(inner) == Refs(b) + {y} + Refs(d);
    assert Distinct(inner);
  }

  ghost predicate Unrotated(m: Mem, s: Side, c: Ctx, a: Tree, x: Node, b: Tree, y: Node, d: Tree) {
    && x in m && m[x] == MakeCell(s, Root(a), y, Parent(c), m[x].red)
    && y in m && m[y] == MakeCell(s, Root(b), Root(d), x, m[y].red)
    && CtxShape(m, c, x) && Shape(m, a, x) && Shape(m, b, y) && Shape(m, d, y)
  }

  lemma UnfoldRotation(m: Mem, s: Side, c: Ctx, a: Tree, x: Node, rx: bool, b: Tree, y: Node, ry: bool, d: Tree)
    requires Shape(m, Plug(c, Make(s, a, x, rx, Make(s, b, y, ry, d))), null)
    ensures Unrotated(m, s, c, a, x, b, y, d) && m[x].red == rx && m[y].red == ry
  {
    var inner := Make(s, b, y, ry, d);
    PlugShape(m, c, Make(s, a, x, rx, inner));
  }

  // what the rotation code reads, in terms of pointers
  lemma RotationLinks(m: Mem, s: Side, c: Ctx, a: Tree, x: Node, b: Tree, y: Node, d: Tree)
    requires Apart(c, a, x, b, y, d) && Unrotated(m, s, c, a, x, b, y, d)
    ensures Rotatable(m, s, x) && m[x].Child(s.Other()) == y && m[x].parent == Parent(c)
  {
  }

  lemma RotateNear(m: Mem, m': Mem, s: Side, c: Ctx, a: Tree, x: Node, b: Tree, y: Node, d: Tree)
    requires Apart(c, a, x, b, y, d) && Unrotated(m, s, c, a, x, b, y, d) && Rotated(m, m', s, x, y)
    ensures Shape(m', a, x)
  {
    FrameShape(m, m', a, x);
  }

  lemma RotateMiddle(m: Mem, m': Mem, s: Side, c: Ctx, a: Tree, x: Node, b: Tree, y: Node, d: Tree)
    requires Apart(c, a, x, b, y, d) && Unrotated(m, s, c, a, x, b, y, d) && Rotated(m, m', s, x, y)
    ensures Shape(m', b, x)
  {
    Reparent(m, m', b, y, x);
  }

  lemma RotateFar(m: Mem, m': Mem, s: Side, c: Ctx, a: Tree, x: Node, b: Tree, y: Node, d: Tree)
    requires Apart(c, a, x, b, y, d) && Unrotated(m, s, c, a, x, b, y, d) && Rotated(m, m', s, x, y)
    ensures Shape(m', d, y)
  {
    FrameShape(m, m', d, y);
  }

  lemma RotateAbove(m: Mem, m': Mem, s: Side, c: Ctx, a: Tree, x: Node, b: Tree, y: Node, d: Tree)
    requires Apart(c, a, x, b, y, d) && Unrotated(m, s, c, a, x, b, y, d) && Rotated(m, m', s, x, y)
    ensures CtxShape(m', c, y)
  {
    Rehole(m, m', c, x, y);
  }

  lemma FoldShape(m: Mem, s: Side, near: Tree, x: Node, red: bool, far: Tree, p: Node?)
    requires x in m && m[x] == MakeCell(s, Root(near), Root(far), p, red)
    requires Shape(m, near, x) && Shape(m, far, x)
    ensures Shape(m, Make(s, near, x, red, far), p) && Root(Make(s, near, x, red, far)) == x
  {
  }

  lemma FoldRotation(m: Mem, s: Side, c: Ctx, a: Tree, x: Node, rx: bool, b: Tree, y: Node, ry: bool, d: Tree)
    requires x in m && m[x] == MakeCell(s, Root(a), Root(b), y, rx)
    requires y in m && m[y] == MakeCell(s, x, Root(d), Parent(c), ry)
    requires CtxShape(m, c, y) && Shape(m, a, x) && Shape(m, b, x) && Shape(m, d, y)
    ensures Shape(m, Plug(c, Make(s, Make(s, a, x, rx, b), y, ry, d)), null)
  {
    var inner := Make(s, a, x, rx, b);
    FoldShape(m, s, a, x, rx, b, y);
    FoldShape(m, s, inner, y, ry, d, Parent(c));
    PlugShape(m, c, Make(s, inner, y, ry, d));
  }

  // A rotation turns the tree with y below x into the tree with x below y.
  lemma RotationShape(m: Mem, m': Mem, s: Side, c: Ctx, a: Tree, x: Node, rx: bool, b: Tree, y: Node, ry: bool, d: Tree)
    requires Distinct(Plug(c, Make(s, a, x, rx, Make(s, b, y, ry, d))))
    requires Shape(m, Plug(c, Make(s, a, x, rx, Make(s, b, y, ry, d))), null)
    requires Rotated(m, m', s, x, y)
    ensures Shape(m', Plug(c, Make(s, Make(s, a, x, rx, b), y, ry, d)), null)
  {
    SeparateRotation(s, c, a, x, rx, b, y, ry, d);
    UnfoldRotation(m, s, c, a, x, rx, b, y, ry, d);
    RotateNear(m, m', s, c, a, x, b, y, d);
    RotateMiddle(m, m', s, c, a, x, b, y, d);
    RotateFar(m, m', s, c, a, x, b, y, d);
    RotateAbove(m, m', s, c, a, x, b, y, d);
    FoldRotation(m', s, c, a, x, rx, b, y, ry, d);
  }

  // A rotation keeps the nodes in order.
  lemma RotationOrder(s: Side, c: Ctx, a: Tree, x: Node, rx: bool, b: Tree, y: Node, ry: bool, d: Tree)
    ensures var t := Plug(c, Make(s, a, x, rx, Make(s, b, y, ry, d)));
            var t' := Plug(c, Make(s, Make(s, a, x, rx, b), y, ry, d));
            Inorder(t) == Inorder(t') && Refs(t) == Refs(t') && (Distinct(t) ==> Distinct(t'))
  {
    var t, t' := Make(s, a, x, rx, Make(s, b, y, ry, d)), Make(s, Make(s, a, x, rx, b), y, ry, d);
    if s.Left? {
      Regroup(Inorder(a) + [x], Inorder(b), y, Inorder(d), []);
    } else {
      Regroup([], Inorder(d), y, Inorder(b), [x] + Inorder(a));
    }
    PlugSameOrder(c, t, t');
  }

  lemma RotationRepresents(m: Mem, m': Mem, s: Side, c: Ctx, a: Tree, x: Node, rx: bool, b: Tree, y: Node, ry: bool,
          d: Tree)
    requires Represents(m, Plug(c, Make(s, a, x, rx, Make(s, b, y, ry, d))))
    requires Rotated(m, m', s, x, y)
    ensures var t := Plug(c, Make(s, a, x, rx, Make(s, b, y, ry, d)));
            var t' := Plug(c, Make(s, Make(s, a, x, rx, b), y, ry, d));
            && Represents(m', t') && Inorder(t) == Inorder(t')
            && Root(t') == if c.Top? then y else Root(t)
  {
    var t, t' := Make(s, a, x, rx, Make(s, b, y, ry, d)), Make(s, Make(s, a, x, rx, b), y, ry, d);
    RotationShape(m, m', s, c, a, x, rx, b, y, ry, d);
    RotationOrder(s, c, a, x, rx, b, y, ry, d);
    if c.Step? {
      PlugRoot(c, t, t');
    }
  }

  lemma RotationReady(m: Mem, s: Side, c: Ctx, a: Tree, x: Node, rx: bool, b: Tree, y: Node, ry: bool, d: Tree)
    requires Represents(m, Plug(c, Make(s, a, x, rx, Make(s, b, y, ry, d))))
    ensures Rotatable(m, s, x) && m[x].Child(s.Other()) == y
    ensures m[x].parent == null <==> c.Top?
  {
    SeparateRotation(s, c, a, x, rx, b, y, ry, d);
    UnfoldRotation(m, s, c, a, x, rx, b, y, ry, d);
    RotationLinks(m, s, c, a, x, b, y, d);
  }

  // ---------- transplant ----------

  // treemap_transplant: n takes the place of o below o's parent
  ghost predicate Transplanted(m: Mem, m': Mem, o: Node, n: Node?) {
    && m'.Keys == m.Keys && o in m
    && var p := m[o].parent;
    && (p != null ==> p in m && m'[p] == m[p].SetChild(if m[p].left == o then Left else Right, n))
    && (n != null ==> n in m && m'[n] == m[n].(parent := p))
    && forall z | z in m && z != p && z != n :: m'[z] == m[z]
  }

  ghost predicate Transplantable(m: Mem, o: Node, n: Node?) {
    && o in m
    && var p := m[o].parent;
    && (p != null ==> p in m && p != o && p != n && (m[p].left == o <==> m[p].right != o))
    && (n != null ==> n in m && n != o)
  }

  // y has at most one child tree x, on side s
  lemma RemoveReady(m: Mem, c: Ctx, s: Side, y: Node, red: bool, x: Tree)
    requires Represents(m, Plug(c, Make(s, x, y, red, Nil)))
    ensures Transplantable(m, y, Root(x)) && m[y].parent == Parent(c)
    ensures m[y] == MakeCell(s, Root(x), null, Parent(c), red)
  {
    var t := Make(s, x, y, red, Nil);
    Look(m, c, t);
    PlugDistinct(c, t);
    PlugRefs(c, t);
  }

  lemma RemoveRepresents(m: Mem, m': Mem, c: Ctx, s: Side, y: Node, red: bool, x: Tree)
    requires Represents(m, Plug(c, Make(s, x, y, red, Nil)))
    requires Transplanted(m, m', y, Root(x))
    ensures Represents(m' - {y}, Plug(c, x))
  {
    RemoveRefs(c, s, y, red, x);
    Look(m, c, Make(s, x, y, red, Nil));
    RemoveShape(m, m' - {y}, c, s, y, red, x);
  }

  lemma RemoveRefs(c: Ctx, s: Side, y: Node, red: bool, x: Tree)
    requires Distinct(Plug(c, Make(s, x, y, red, Nil)))
    ensures Refs(Plug(c, x)) == Refs(Plug(c, Make(s, x, y, red, Nil))) - {y}
    ensures Distinct(Plug(c, x)) && DistinctCtx(c) && Distinct(x) && CtxRefs(c) !! Refs(x)
    ensures y !in Refs(x) && y !in CtxRefs(c)
  {
    var t := Make(s, x, y, red, Nil);
    assert Refs(t) == Refs(x) + {y};
    PlugDistinct(c, t);
    PlugDistinct(c, x);
    PlugRefs(c, t);
    PlugRefs(c, x);
  }

  lemma RemoveShape(m: Mem, m': Mem, c: Ctx, s: Side, y: Node, red: bool, x: Tree)
    requires Shape(m, Plug(c, Make(s, x, y, red, Nil)), null)
    requires DistinctCtx(c) && Distinct(x) && CtxRefs(c) !! Refs(x) && y !in Refs(x) && y !in CtxRefs(c)
    requires x.Bin? ==> x.node in m && x.node in m' && m'[x.node] == m[x.node].(parent := Parent(c))
    requires c.Step? ==> c.node in m && c.node in m' && m'[c.node] == m[c.node].SetChild(c.side, Root(x))
    requires forall z | z in m && z != y && z != Parent(c) && z != Root(x) :: z in m' && m'[z] == m[z]
    ensures Shape(m', Plug(c, x), null)
  {
    PlugShape(m, c, Make(s, x, y, red, Nil));
    Reparent(m, m', x, y, Parent(c));
    Rehole(m, m', c, y, Root(x));
    PlugShape(m', c, x);
  }

  // ---------- one node takes over the place of another ----------

  // y, which is not part of m, gets the links of z and z drops out
  ghost predicate Substituted(m: Mem, m': Mem, z: Node, y: Node) {
    && z in m && y !in m && m'.Keys == m.Keys - {z} + {y} && m'[y] == m[z]
    && var l := m[z].left;
    && var r := m[z].right;
    && var p := m[z].parent;
    && (l != null ==> l in m && l in m' && m'[l] == m[l].(parent := y))
    && (r != null ==> r in m && r in m' && m'[r] == m[r].(parent := y))
    && (p != null ==> p in m && p in m' && m'[p] == m[p].SetChild(if m[p].left == z then Left else Right, y))
    && forall x | x in m && x != z && x != l && x != r && x != p :: x in m' && m'[x] == m[x]
  }

  ghost predicate Replaceable(m: Mem, z: Node, y: Node) {
    && z in m && y in m && z != y && m[z].left != null && m[z].right != null
    && var l := m[z].left;
    && var r := m[z].right;
    && var p := m[z].parent;
    && l in m && r in m && l != r && l != z && l != y && r != z && r != y
    && (p != null ==> p in m && p != z && p != y && p != l && p != r && (m[p].left == z <==> m[p].right != z))
  }

  // m0 is m without y
  lemma ReplaceLinks(m: Mem, m0: Mem, c: Ctx, l: Tree, z: Node, red: bool, r: Tree, y: Node)
    requires y in m && y !in m0 && (forall x | x in m0 :: x in m && m[x] == m0[x])
    requires Represents(m0, Plug(c, Bin(l, z, red, r))) && l.Bin? && r.Bin?
    ensures Replaceable(m, z, y) && m[z] == Cell(l.node, r.node, Parent(c), red)
  {
    Look(m0, c, Bin(l, z, red, r));
    LookAround(m0, c, l, z, red, r);
  }

  lemma SubstituteRepresents(m: Mem, m': Mem, c: Ctx, l: Tree, z: Node, red: bool, r: Tree, y: Node)
    requires Represents(m, Plug(c, Bin(l, z, red, r))) && Substituted(m, m', z, y)
    ensures Represents(m', Plug(c, Bin(l, y, red, r)))
  {
    Separate(c, l, z, red, r);
    SubstituteRefs(c, l, z, red, r, y);
    Look(m, c, Bin(l, z, red, r));
    PlugShape(m, c, Bin(l, z, red, r));
    SubstituteLeft(m, m', c, l, z, r, y);
    SubstituteRight(m, m', c, l, z, r, y);
    SubstituteAbove(m, m', c, l, z, r, y);
    PlugShape(m', c, Bin(l, y, red, r));
  }

  lemma Separate(c: Ctx, l: Tree, z: Node, red: bool, r: Tree)
    requires Distinct(Plug(c, Bin(l, z, red, r)))
    ensures DistinctCtx(c) && Distinct(l) && Distinct(r)
    ensures z !in Refs(l) && z !in Refs(r) && z !in CtxRefs(c)
    ensures Refs(l) !! Refs(r) && CtxRefs(c) !! Refs(l) && CtxRefs(c) !! Refs(r)
  {
    PlugDistinct(c, Bin(l, z, red, r));
  }

  lemma SubstituteRefs(c: Ctx, l: Tree, z: Node, red: bool, r: Tree, y: Node)
    requires Distinct(Plug(c, Bin(l, z, red, r))) && y !in Refs(Plug(c, Bin(l, z, red, r)))
    ensures Refs(Plug(c, Bin(l, y, red, r))) == Refs(Plug(c, Bin(l, z, red, r))) - {z} + {y}
    ensures Distinct(Plug(c, Bin(l, y, red, r)))
  {
    Separate(c, l, z, red, r);
    PlugRefs(c, Bin(l, z, red, r));
    PlugRefs(c, Bin(l, y, red, r));
    var others := CtxRefs(c) + Refs(l) + Refs(r);
    assert Refs(Plug(c, Bin(l, z, red, r))) == others + {z} && z !in others && y !in others;
    assert Refs(Plug(c, Bin(l, y, red, r))) == others + {y};
    PlugDistinct(c, Bin(l, y, red, r));
  }

  // z with its subtrees and surroundings
  ghost predicate Around(m: Mem, c: Ctx, l: Tree, z: Node, r: Tree) {
    && DistinctCtx(c) && Distinct(l) && Distinct(r)
    && z !in Refs(l) && z !in Refs(r) && z !in CtxRefs(c)
    && Refs(l) !! Refs(r) && CtxRefs(c) !! Refs(l) && CtxRefs(c) !! Refs(r)
    && z in m && m[z].left == Root(l) && m[z].right == Root(r) && m[z].parent == Parent(c)
  }

  lemma SubstituteLeft(m: Mem, m': Mem, c: Ctx, l: Tree, z: Node, r: Tree, y: Node)
    requires Around(m, c, l, z, r) && Shape(m, l, z) && Substituted(m, m', z, y)
    ensures Shape(m', l, y)
  {
    Reparent(m, m', l, z, y);
  }

  lemma SubstituteRight(m: Mem, m': Mem, c: Ctx, l: Tree, z: Node, r: Tree, y: Node)
    requires Around(m, c, l, z, r) && Shape(m, r, z) && Substituted(m, m', z, y)
    ensures Shape(m', r, y)
  {
    Reparent(m, m', r, z, y);
  }

  lemma SubstituteAbove(m: Mem, m': Mem, c: Ctx, l: Tree, z: Node, r: Tree, y: Node)
    requires Around(m, c, l, z, r) && CtxShape(m, c, z) && Substituted(m, m', z, y)
    ensures CtxShape(m', c, y)
  {
    Rehole(m, m', c, z, y);
  }

  // z's successor y is its right child: it keeps its own right subtree
  ghost predicate Spliced(m: Mem, m': Mem, z: Node, y: Node) {
    && z in m && y in m && z != y && m'.Keys == m.Keys
    && m'[y] == Cell(m[z].left, m[y].right, m[z].parent, m[z].red)
    && var l := m[z].left;
    && var p := m[z].parent;
    && (l != null ==> l in m && m'[l] == m[l].(parent := y))
    && (p != null ==> p in m && m'[p] == m[p].SetChild(if m[p].left == z then Left else Right, y))
    && forall x | x in m && x != z && x != y && x != l && x != p :: m'[x] == m[x]
  }

  lemma SpliceRepresents(m: Mem, m': Mem, c: Ctx, l: Tree, z: Node, red: bool, y: Node, ry: bool, x: Tree)
    requires Represents(m, Plug(c, Bin(l, z, red, Bin(Nil, y, ry, x)))) && Spliced(m, m', z, y)
    ensures Represents(m' - {z}, Plug(c, Bin(l, y, red, x)))
  {
    var cy := Step(Right, z, red, l, c);
    var t := Bin(Nil, y, ry, x);
    assert Plug(cy, t) == Plug(c, Bin(l, z, red, t));
    // as if y had first been transplanted by its right child
    var m1 := map n | n in m ::
      if n == z then m[z].(right := Root(x)) else if n == Root(x) then m[n].(parent := z) else m[n];
    LookAround(m, c, l, z, red, t);
    SpliceLinks(m, c, l, z, y, ry, x);
    assert Transplanted(m, m1, y, Root(x));
    RemoveRepresents(m, m1, cy, Right, y, ry, x);
    SpliceSubstitutes(m, m1, m', z, y);
    SubstituteRepresents(m1 - {y}, m' - {z}, c, l, z, red, x, y);
  }

  lemma LookAround(m: Mem, c: Ctx, l: Tree, z: Node, red: bool, r: Tree)
    requires Represents(m, Plug(c, Bin(l, z, red, r)))
    ensures Around(m, c, l, z, r) && m[z].red == red
    ensures Shape(m, l, z) && Shape(m, r, z) && CtxShape(m, c, z)
    ensures c.Step? ==> (m[c.node].left == z <==> m[c.node].right != z)
  {
    Separate(c, l, z, red, r);
    Look(m, c, Bin(l, z, red, r));
    PlugShape(m, c, Bin(l, z, red, r));
  }

  lemma SpliceLinks(m: Mem, c: Ctx, l: Tree, z: Node, y: Node, ry: bool, x: Tree)
    requires Around(m, c, l, z, Bin(Nil, y, ry, x))
    requires Shape(m, l, z) && Shape(m, Bin(Nil, y, ry, x), z) && CtxShape(m, c, z)
    requires c.Step? ==> (m[c.node].left == z <==> m[c.node].right != z)
    ensures Splicable(m, z, y)
  {
    var t := Bin(Nil, y, ry, x);
    assert c.Step? ==> c.node in CtxRefs(c);
    assert l.Bin? ==> l.node in Refs(l);
    assert y in Refs(t);
    assert x.Bin? ==> x.node in Refs(x) && x.node in Refs(t) && Shape(m, x, y);
    assert Distinct(t);
  }

  ghost predicate Splicable(m: Mem, z: Node, y: Node) {
    && z in m && y in m && z != y && m[y].parent == z && m[z].right == y && m[z].left != y
    && var l := m[z].left;
    && var p := m[z].parent;
    && var x := m[y].right;
    && (p != null ==> p in m && p != z && p != y && p != l && (m[p].left == z <==> m[p].right != z))
    && (l != null ==> l in m && l != z)
    && (x != null ==> x in m && m[x].parent == y && x != z && x != y && x != l && x != p)
  }

  lemma SpliceSubstitutes(m: Mem, m1: Mem, m': Mem, z: Node, y: Node)
    requires Splicable(m, z, y) && Spliced(m, m', z, y) && Transplanted(m, m1, y, m[y].right)
    ensures Substituted(m1 - {y}, m' - {z}, z, y)
  {
  }

  // ---------- a new leaf ----------

  ghost predicate Attached(m: Mem, m': Mem, s: Side, p: Node?, x: Node) {
    && x !in m && m'.Keys == m.Keys + {x} && m'[x] == Cell(null, null, p, true)
    && (p != null ==> p in m && m'[p] == m[p].SetChild(s, x))
    && forall z | z in m && z != p :: m'[z] == m[z]
  }

  lemma AttachRepresents(m: Mem, m': Mem, c: Ctx, x: Node)
    requires Represents(m, Plug(c, Nil))
    requires Attached(m, m', if c.Step? then c.side else Left, Parent(c), x)
    ensures Represents(m', Plug(c, Bin(Nil, x, true, Nil)))
  {
    var t := Bin(Nil, x, true, Nil);
    PlugShape(m, c, Nil);
    PlugDistinct(c, Nil);
    PlugRefs(c, Nil);
    PlugDistinct(c, t);
    PlugRefs(c, t);
    Rehole(m, m', c, null, x);
    PlugShape(m', c, t);
  }
}
