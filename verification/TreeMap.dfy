/** src/treemap.c: the red-black map on real nodes. Each pointer step is proved against the
    snapshots of TreeLinks, each fixup iteration against the positions of RedBlackSteps. Branches
    of the C code that mirror each other are one branch with a Side. Allocation and copies may
    fail when memory is not plentiful. */
module TreeMaps {
  import opened Allocation
  import opened BinaryArithmetic
  import opened RedBlackTree
  import opened RedBlackSteps
  import opened TreeLinks
  import opened TreeOrder

  class TreeMap {
    var keyCompare: Compare
    var root: Node?
    var size: nat
    ghost var nodes: set<Node>  // the allocated nodes
    ghost var tree: Tree        // how they are linked
    ghost var contents: map<Key, Value>

    ghost function Memory(): Mem
      reads `nodes, nodes`left, nodes`right, nodes`parent, nodes`red
    {
      map n | n in nodes :: Cell(n.left, n.right, n.parent, n.red)
    }

    ghost predicate Linked(t: Tree)
      reads `root, `nodes, nodes`left, nodes`right, nodes`parent, nodes`red
    {
      Represents(Memory(), t) && root == Root(t)
    }

    // treemap_color_of: NULL counts as black
    static function RedOf(node: Node?): bool
      reads node
    {
      node != null && node.red
    }

    static function ChildOf(node: Node, s: Side): Node?
      reads node`left, node`right
    {
      if s.Left? then node.left else node.right
    }

    method LeftRotate(node: Node)
      requires Rotatable(Memory(), Left, node)
      modifies `root, nodes`left, nodes`right, nodes`parent
      ensures Rotated(old(Memory()), Memory(), Left, node, old(node.right))
      ensures root == if old(node.parent) == null then old(node.right) else old(root)
    {
      var right := node.right;

      node.right := right.left;
      if right.left != null {
        right.left.parent := node;
      }

      right.parent := node.parent;
      if node.parent == null {
        root := right;
      } else if node == node.parent.left {
        node.parent.left := right;
      } else {
        node.parent.right := right;
      }

      right.left := node;
      node.parent := right;
    }

    method RightRotate(node: Node)
      requires Rotatable(Memory(), Right, node)
      modifies `root, nodes`left, nodes`right, nodes`parent
      ensures Rotated(old(Memory()), Memory(), Right, node, old(node.left))
      ensures root == if old(node.parent) == null then old(node.left) else old(root)
    {
      var left := node.left;

      node.left := left.right;
      if left.right != null {
        left.right.parent := node;
      }

      left.parent := node.parent;
      if node.parent == null {
        root := left;
      } else if node == node.parent.right {
        node.parent.right := left;
      } else {
        node.parent.left := left;
      }

      left.right := node;
      node.parent := left;
    }

    method RotateLinks(s: Side, x: Node)
      requires Rotatable(Memory(), s, x)
      modifies `root, nodes`left, nodes`right, nodes`parent
      ensures old(Memory()[x].Child(s.Other())) != null
      ensures var y := old(Memory()[x].Child(s.Other()));
              && Rotated(old(Memory()), Memory(), s, x, y)
              && root == if old(x.parent) == null then y else old(root)
    {
      if s.Left? {
        LeftRotate(x);
      } else {
        RightRotate(x);
      }
    }

    // LeftRotate or RightRotate at x, with the tree before and after.
    method Rotate(s: Side, x: Node, ghost c: Ctx, ghost a: Tree, ghost rx: bool, ghost b: Tree, ghost y: Node,
            ghost ry: bool, ghost d: Tree)
      requires Linked(Plug(c, Make(s, a, x, rx, Make(s, b, y, ry, d))))
      modifies `root, nodes`left, nodes`right, nodes`parent
      ensures Linked(Plug(c, Make(s, Make(s, a, x, rx, b), y, ry, d)))
      ensures Inorder(Plug(c, Make(s, Make(s, a, x, rx, b), y, ry, d)))
           == Inorder(Plug(c, Make(s, a, x, rx, Make(s, b, y, ry, d))))
    {
      ghost var m := Memory();
      RotationReady(m, s, c, a, x, rx, b, y, ry, d);
      RotateLinks(s, x);
      RotationRepresents(m, Memory(), s, c, a, x, rx, b, y, ry, d);
    }

    method SetColor(node: Node?, red: bool, ghost c: Ctx, ghost t: Tree)
      requires Linked(Plug(c, t)) && node == Root(t) && (node == null || node in nodes)
      modifies nodes`red
      ensures Linked(Plug(c, Paint(t, red)))
      ensures Inorder(Plug(c, Paint(t, red))) == Inorder(Plug(c, t))
    {
      ghost var m := Memory();
      if node != null {
        node.red := red;
      }
      RecolorRepresents(m, Memory(), c, t, red);
    }

    // the pointers two levels up
    lemma LookUp(c: Ctx, t: Tree)
      requires Linked(Plug(c, t)) && c.Step? && c.up.Step? && t.Bin?
      ensures t.node in nodes && c.node in nodes && c.up.node in nodes
      ensures t.node.parent == c.node && c.node.parent == c.up.node
      ensures c.node.red == c.red && c.up.node.red == c.up.red
      ensures ChildOf(c.node, c.side) == t.node && ChildOf(c.node, c.side.Other()) != t.node
      ensures ChildOf(c.up.node, c.up.side) == c.node
      ensures ChildOf(c.up.node, c.up.side.Other()) == Root(c.up.sib) != c.node
      ensures c.up.sib.Bin? ==> c.up.sib.node in nodes && c.up.sib.node.red == c.up.sib.red
    {
      Look(Memory(), c, t);
      Look(Memory(), c.up, Make(c.side, t, c.node, c.red, c.sib));
    }

    // ---------- treemap_insert_fixup ----------

    method InsertRedUncleStep(node: Node, ghost c: Ctx, ghost t: Tree)
        returns (next: Node, ghost c': Ctx, ghost t': Tree)
      requires Linked(Plug(c, t)) && Root(t) == node && InsertPending(c, t)
      requires c.Step? && c.red && c.up.Step? && IsRed(c.up.sib)
      modifies nodes`red
      ensures Linked(Plug(c', t')) && Root(t') == next && InsertPending(c', t')
      ensures Inorder(Plug(c', t')) == Inorder(Plug(c, t)) && Depth(c') + 2 == Depth(c)
    {
      ghost var Step(s1, p, _, sib, cg) := c;
      ghost var Step(s, g, _, uncle, up) := cg;
      ghost var parent0, parent1 := Make(s1, t, p, true, sib), Make(s1, t, p, false, sib);
      InsertGrandparent(c, t);
      InsertRedUncle(s1, s, t, p, sib, g, uncle, up);
      LookUp(c, t);
      MakeOther(s1, t, p, true, sib);
      MakeOther(s, parent1, g, false, Paint(uncle, false));
      Sideways(s, parent1, g, false, uncle, up);
      Sideways(s, parent1, g, false, Paint(uncle, false), up);

      var parent := node.parent;
      var grandparent := parent.parent;
      var unclePtr := if parent == grandparent.left then grandparent.right else grandparent.left;
      SetColor(parent, false, cg, parent0);
      SetColor(unclePtr, false, Step(s.Other(), g, false, parent1, up), uncle);
      SetColor(grandparent, true, up, Make(s, parent1, g, false, Paint(uncle, false)));
      next, c', t' := grandparent, up, Make(s, parent1, g, true, Paint(uncle, false));
    }

    // node is the inner grandchild: rotate its parent, which becomes the outer one
    method InsertInnerStep(node: Node, s: Side, ghost c: Ctx, ghost t: Tree)
        returns (next: Node, ghost c': Ctx, ghost t': Tree)
      requires Linked(Plug(c, t)) && Root(t) == node && InsertPending(c, t)
      requires c.Step? && c.red && c.side == s.Other() && c.up.Step? && c.up.side == s
      modifies `root, nodes`left, nodes`right, nodes`parent
      ensures Linked(Plug(c', t')) && Root(t') == next && InsertPending(c', t')
      ensures Inorder(Plug(c', t')) == Inorder(Plug(c, t))
      ensures c'.Step? && c'.red && c'.side == s && c'.up == c.up
    {
      ghost var Step(_, p, _, sib, cg) := c;
      ghost var near, far := Child(t, s), Child(t, s.Other());
      InsertGrandparent(c, t);
      InsertInner(s, node, near, far, p, sib, cg.node, cg.sib, cg.up);
      LookUp(c, t);
      MakeOther(s, sib, p, true, t);

      next := node.parent;
      Rotate(s, next, cg, sib, true, near, node, true, far);
      c', t' := Step(s, node, true, far, cg), Make(s, sib, p, true, near);
    }

    // node is the outer grandchild: recolour, rotate its grandparent, and stop
    method InsertOuterStep(node: Node, s: Side, ghost c: Ctx, ghost t: Tree) returns (ghost c': Ctx)
      requires Linked(Plug(c, t)) && Root(t) == node && InsertPending(c, t)
      requires c.Step? && c.red && c.side == s && c.up.Step? && c.up.side == s && !IsRed(c.up.sib)
      modifies `root, nodes`left, nodes`right, nodes`parent, nodes`red
      ensures Linked(Plug(c', t)) && InsertPending(c', t)
      ensures Inorder(Plug(c', t)) == Inorder(Plug(c, t))
      ensures c'.Step? && !c'.red
    {
      ghost var Step(_, p, _, sib, cg) := c;
      ghost var Step(_, g, _, uncle, up) := cg;
      InsertGrandparent(c, t);
      InsertOuter(s, t, p, sib, g, uncle, up);
      LookUp(c, t);
      OuterForms(s, t, p, sib, g, uncle);
      MakeOther(s, t, p, true, sib);
      MakeOther(s, Make(s, t, p, false, sib), g, false, uncle);

      SetColor(node.parent, false, cg, Make(s, t, p, true, sib));
      SetColor(node.parent.parent, true, up, Make(s, Make(s, t, p, false, sib), g, false, uncle));
      Rotate(s.Other(), node.parent.parent, up, uncle, true, sib, p, false, t);
      c' := Step(s, p, false, Make(s, sib, g, true, uncle), up);
    }

    lemma OuterForms(s: Side, t: Tree, p: Node, sib: Tree, g: Node, uncle: Tree)
      ensures Make(s, Make(s, t, p, false, sib), g, true, uncle)
           == Make(s.Other(), uncle, g, true, Make(s.Other(), sib, p, false, t))
      ensures Make(s.Other(), Make(s.Other(), uncle, g, true, sib), p, false, t)
           == Make(s, t, p, false, Make(s, sib, g, true, uncle))
    {
    }

    // rounds counts the iterations, rotations the rotations in them
    method InsertFixup(inserted: Node, ghost c0: Ctx, ghost t0: Tree)
      returns (ghost tree': Tree, ghost rounds: nat, ghost rotations: nat)
      requires Linked(Plug(c0, t0)) && Root(t0) == inserted && InsertPending(c0, t0)
      modifies `root, nodes`left, nodes`right, nodes`parent, nodes`red
      ensures Linked(tree') && RedBlack(tree')
      ensures Inorder(tree') == Inorder(Plug(c0, t0))
      ensures 2 * rounds <= Depth(c0) && rotations <= 2
    {
      var node := inserted;
      rounds, rotations := 0, 0;
      ghost var c, t := c0, t0;
      Locate(c, t);
      while node != root && RedOf(node.parent)
        invariant Linked(Plug(c, t)) && Root(t) == node && InsertPending(c, t)
        invariant (node == root <==> c.Top?) && node in nodes && node.parent == Parent(c)
        invariant c.Step? ==> c.node in nodes && c.node.red == c.red
        invariant Inorder(Plug(c, t)) == Inorder(Plug(c0, t0))
        invariant if c.Step? && c.red then rotations == 0 && 2 * rounds + Depth(c) <= Depth(c0)
                  else rotations <= 2 && 2 * rounds <= Depth(c0)
        decreases if c.Step? && c.red then Depth(c) else 0
      {
        InsertGrandparent(c, t);
        LookUp(c, t);
        var s := if node.parent == node.parent.parent.left then Left else Right;
        var uncle := ChildOf(node.parent.parent, s.Other());
        if RedOf(uncle) {
          node, c, t := InsertRedUncleStep(node, c, t);
        } else {
          if node == ChildOf(node.parent, s.Other()) {
            node, c, t := InsertInnerStep(node, s, c, t);
            rotations := rotations + 1;
          }
          c := InsertOuterStep(node, s, c, t);
          rotations := rotations + 1;
        }
        rounds := rounds + 1;
        Locate(c, t);
      }
      InsertDone(c, t);
      SetColor(root, false, Top, Plug(c, t));
      tree' := Paint(Plug(c, t), false);
    }

    lemma Locate(c: Ctx, t: Tree)
      requires Linked(Plug(c, t)) && t.Bin?
      ensures t.node in nodes && t.node.parent == Parent(c) && t.node.red == t.red
      ensures t.node == root <==> c.Top?
      ensures c.Step? ==> c.node in nodes && c.node.red == c.red
    {
      Look(Memory(), c, t);
    }

    // ---------- treemap_delete_fixup ----------

    // the pointers around a possibly NULL node that has a sibling
    lemma LookAcross(c: Ctx, t: Tree)
      requires Linked(Plug(c, t)) && c.Step? && c.sib.Bin?
      ensures Root(t) != root && (t.Bin? ==> t.node in nodes && t.node.red == t.red)
      ensures c.node in nodes && c.node.parent == Parent(c.up) && c.node.red == c.red
      ensures ChildOf(c.node, c.side) == Root(t)
      ensures ChildOf(c.node, c.side.Other()) == c.sib.node != Root(t)
      ensures c.sib.node in nodes && c.sib.node.red == c.sib.red
      ensures c.sib.node.left == Root(c.sib.left) && c.sib.node.right == Root(c.sib.right)
      ensures c.sib.left.Bin? ==> c.sib.left.node in nodes && c.sib.left.node.red == c.sib.left.red
      ensures c.sib.right.Bin? ==> c.sib.right.node in nodes && c.sib.right.node.red == c.sib.right.red
    {
      Look(Memory(), c, t);
      LookBelow(Memory(), c, t);
    }

    // red sibling: recolour and rotate, so that the sibling is black
    method RedSiblingStep(parent: Node, sibling: Node, s: Side, ghost c: Ctx, ghost t: Tree) returns (ghost c': Ctx)
      requires Linked(Plug(c, t)) && DeletePending(c, t) && !IsRed(t)
      requires c.Step? && c.side == s && c.node == parent && IsRed(c.sib) && c.sib.node == sibling
      requires parent in nodes && sibling in nodes
      modifies `root, nodes`left, nodes`right, nodes`parent, nodes`red
      ensures Linked(Plug(c', t)) && DeletePending(c', t)
      ensures Inorder(Plug(c', t)) == Inorder(Plug(c, t))
      ensures c'.Step? && c'.side == s && c'.node == parent && c'.red && c'.sib.Bin? && !IsRed(c'.sib)
      ensures Depth(c'.up) == Depth(c)
    {
      ghost var Step(_, p, _, w, up) := c;
      ghost var near, far := Child(w, s), Child(w, s.Other());
      DeleteSibling(c, t);
      DeleteRedSibling(s, t, p, w.node, near, far, up);
      ghost var w' := Make(s, near, w.node, false, far);
      Sideways(s, t, p, false, w, up);
      Sideways(s, t, p, false, w', up);
      MakeOther(s, near, w.node, true, far);
      MakeOther(s, t, p, false, w');

      SetColor(sibling, false, Step(s.Other(), p, false, t, up), w);
      SetColor(parent, true, up, Make(s, t, p, false, w'));
      Rotate(s, parent, up, t, true, near, sibling, false, far);
      c' := Step(s, p, true, near, Step(s, w.node, false, far, up));
    }

    // black sibling with black children: recolour and climb
    method BlackNephewsStep(sibling: Node, s: Side, ghost c: Ctx, ghost t: Tree) returns (ghost t': Tree)
      requires Linked(Plug(c, t)) && DeletePending(c, t) && !IsRed(t)
      requires c.Step? && c.side == s && c.sib.Bin? && c.sib.node == sibling && sibling in nodes
      requires !c.sib.red && !IsRed(c.sib.left) && !IsRed(c.sib.right)
      modifies nodes`red
      ensures Linked(Plug(c.up, t')) && DeletePending(c.up, t') && t'.Bin? && t'.node == c.node && t'.red == c.red
      ensures Inorder(Plug(c.up, t')) == Inorder(Plug(c, t))
    {
      ghost var Step(_, p, rp, w, up) := c;
      ghost var near, far := Child(w, s), Child(w, s.Other());
      DeleteBlackNephews(s, t, p, rp, w.node, near, far, up);
      ghost var w' := Make(s, near, w.node, true, far);
      Sideways(s, t, p, rp, w, up);
      Sideways(s, t, p, rp, w', up);
      MakeOther(s, near, w.node, false, far);

      SetColor(sibling, true, Step(s.Other(), p, rp, t, up), w);
      t' := Make(s, t, p, rp, w');
    }

    // only the near nephew is red: rotate the sibling, so that the far one is
    method NearNephewStep(sibling: Node, nephew: Node, s: Side, ghost c: Ctx, ghost t: Tree) returns (ghost c': Ctx)
      requires Linked(Plug(c, t)) && DeletePending(c, t) && !IsRed(t)
      requires c.Step? && c.side == s && c.sib.Bin? && c.sib.node == sibling && sibling in nodes && !c.sib.red
      requires IsRed(Child(c.sib, s)) && Child(c.sib, s).node == nephew && nephew in nodes
      requires !IsRed(Child(c.sib, s.Other()))
      modifies `root, nodes`left, nodes`right, nodes`parent, nodes`red
      ensures Linked(Plug(c', t)) && DeletePending(c', t)
      ensures Inorder(Plug(c', t)) == Inorder(Plug(c, t))
      ensures c'.Step? && c'.side == s && c'.node == c.node && c'.red == c.red && c'.up == c.up
      ensures c'.sib.Bin? && !c'.sib.red && IsRed(Child(c'.sib, s.Other()))
    {
      ghost var Step(_, p, rp, w, up) := c;
      ghost var z, far := Child(w, s), Child(w, s.Other());
      ghost var zn, zf := Child(z, s), Child(z, s.Other());
      DeleteNearNephew(s, t, p, rp, w.node, z.node, zn, zf, far, up);
      ghost var cw := Step(s.Other(), p, rp, t, up);
      ghost var z' := Make(s, zn, z.node, false, zf);
      ghost var w' := Make(s, zn, z.node, false, Make(s, zf, w.node, true, far));
      Sideways(s, t, p, rp, w, up);
      Sideways(s, t, p, rp, w', up);
      Sideways(s, z, w.node, false, far, cw);
      Sideways(s, z', w.node, false, far, cw);
      MakeOther(s, zn, z.node, true, zf);
      MakeOther(s, z', w.node, false, far);
      NearForms(s, zn, z.node, zf, w.node, far);

      SetColor(nephew, false, Step(s, w.node, false, far, cw), z);
      SetColor(sibling, true, cw, Make(s, z', w.node, false, far));
      Rotate(s.Other(), sibling, cw, far, true, zf, nephew, false, zn);
      c' := Step(s, p, rp, w', up);
    }

    lemma NearForms(s: Side, zn: Tree, z: Node, zf: Tree, w: Node, far: Tree)
      ensures Make(s, Make(s, zn, z, false, zf), w, true, far)
           == Make(s.Other(), far, w, true, Make(s.Other(), zf, z, false, zn))
      ensures Make(s.Other(), Make(s.Other(), far, w, true, zf), z, false, zn)
           == Make(s, zn, z, false, Make(s, zf, w, true, far))
    {
    }

    // the far nephew is red: recolour, rotate the parent, and stop
    method FarNephewStep(parent: Node, sibling: Node, nephew: Node, s: Side, ghost c: Ctx, ghost t: Tree)
        returns (ghost tree': Tree)
      requires Linked(Plug(c, t)) && DeletePending(c, t) && !IsRed(t)
      requires c.Step? && c.side == s && c.node == parent && parent in nodes && parent.red == c.red
      requires c.sib.Bin? && c.sib.node == sibling && sibling in nodes && !c.sib.red
      requires IsRed(Child(c.sib, s.Other())) && Child(c.sib, s.Other()).node == nephew && nephew in nodes
      modifies `root, nodes`left, nodes`right, nodes`parent, nodes`red
      ensures Linked(tree') && RedBlack(tree')
      ensures Inorder(tree') == Inorder(Plug(c, t))
    {
      ghost var Step(_, p, rp, w, up) := c;
      ghost var near, far := Child(w, s), Child(w, s.Other());
      ghost var cw := Step(s.Other(), p, rp, t, up);
      ghost var cw' := Step(s.Other(), p, false, t, up);
      ghost var far' := Paint(far, false);
      DeleteFarNephew(s, t, p, rp, w.node, near, far, up);
      ghost var w1 := Make(s, near, w.node, rp, far);
      ghost var w2 := Make(s, near, w.node, rp, far');
      Sideways(s, t, p, rp, w, up);
      Sideways(s, t, p, rp, w1, up);
      Sideways(s, t, p, false, w1, up);
      Sideways(s, t, p, false, w2, up);
      Sideways(s, near, w.node, rp, far, cw');
      Sideways(s, near, w.node, rp, far', cw');
      MakeOther(s, near, w.node, false, far);
      MakeOther(s, t, p, rp, w1);

      SetColor(sibling, parent.red, cw, w);
      SetColor(parent, false, up, Make(s, t, p, rp, w1));
      SetColor(nephew, false, Step(s.Other(), w.node, rp, near, cw'), far);
      Rotate(s, parent, up, t, false, near, sibling, rp, far');
      tree' := Plug(up, Make(s, Make(s, t, p, false, near), w.node, rp, far'));
    }

    // node is one black short; it may be NULL, so its parent is passed along
    method DeleteFixup(start: Node?, startParent: Node?, ghost c0: Ctx, ghost t0: Tree)
      returns (ghost tree': Tree, ghost rounds: nat, ghost rotations: nat)
      requires Linked(Plug(c0, t0)) && Root(t0) == start && Parent(c0) == startParent && DeletePending(c0, t0)
      modifies `root, nodes`left, nodes`right, nodes`parent, nodes`red
      ensures Linked(tree') && RedBlack(tree')
      ensures Inorder(tree') == Inorder(Plug(c0, t0))
      ensures rounds <= Depth(c0) && rotations <= 3
    {
      var node, parent := start, startParent;
      rounds, rotations := 0, 0;
      ghost var c, t := c0, t0;
      LocateHole(c, t);
      while node != root && !RedOf(node)
        invariant Linked(Plug(c, t)) && Root(t) == node && Parent(c) == parent && DeletePending(c, t)
        invariant (node == root <==> c.Top?) && (node != null ==> node in nodes && node.red == IsRed(t))
        invariant Inorder(Plug(c, t)) == Inorder(Plug(c0, t0))
        invariant if IsRed(t) || c.Top? then rounds <= Depth(c0) && rotations <= 3
                  else rounds + Depth(c) <= Depth(c0) && rotations == 0
        decreases if IsRed(t) then 0 else 1 + Depth(c)
      {
        if parent == null { break; }
        ghost var turns;
        node, parent, c, t, turns := DeleteStep(node, parent, c, t);
        rounds, rotations := rounds + 1, rotations + turns;
        LocateHole(c, t);
      }
      DeleteDone(c, t);
      SetColor(node, false, c, t);
      tree' := Plug(c, Paint(t, false));
    }

    lemma LocateHole(c: Ctx, t: Tree)
      requires Linked(Plug(c, t)) && (c.Step? && t.Nil? ==> c.sib.Bin?)
      ensures Root(t) == root <==> c.Top?
      ensures t.Bin? ==> t.node in nodes && t.node.red == IsRed(t)
    {
      Look(Memory(), c, t);
      if c.Step? {
        RootAbove(c, t);
      }
    }

    // one iteration of the loop
    method DeleteStep(node: Node?, parent: Node, ghost c: Ctx, ghost t: Tree)
        returns (node': Node?, parent': Node?, ghost c': Ctx, ghost t': Tree, ghost rotations: nat)
      requires Linked(Plug(c, t)) && Root(t) == node && Parent(c) == parent && DeletePending(c, t) && !IsRed(t)
      modifies `root, nodes`left, nodes`right, nodes`parent, nodes`red
      ensures Linked(Plug(c', t')) && Root(t') == node' && Parent(c') == parent' && DeletePending(c', t')
      ensures Inorder(Plug(c', t')) == Inorder(Plug(c, t))
      ensures IsRed(t') || Depth(c') < Depth(c)
      ensures rotations <= if IsRed(t') || c'.Top? then 3 else 0
    {
      DeleteSibling(c, t);
      LookAcross(c, t);
      var s := if node == parent.left then Left else Right;
      assert s == c.side;
      var sibling := ChildOf(parent, s.Other());
      c', rotations := c, 0;
      if RedOf(sibling) {
        c' := RedSiblingStep(parent, sibling, s, c, t);
        rotations := 1;
        LookAcross(c', t);
        sibling := ChildOf(parent, s.Other());
      }

      ghost var more;
      node', parent', c', t', more := BlackSiblingStep(parent, sibling, s, c', t);
      rotations := rotations + more;
    }

    // the rest of the iteration, once the sibling is black
    method BlackSiblingStep(parent: Node, sibling0: Node, s: Side, ghost c: Ctx, ghost t: Tree)
        returns (node': Node?, parent': Node?, ghost c': Ctx, ghost t': Tree, ghost rotations: nat)
      requires Linked(Plug(c, t)) && DeletePending(c, t) && !IsRed(t)
      requires c.Step? && c.side == s && c.node == parent
      requires c.sib.Bin? && c.sib.node == sibling0 && !c.sib.red
      modifies `root, nodes`left, nodes`right, nodes`parent, nodes`red
      ensures Linked(Plug(c', t')) && Root(t') == node' && Parent(c') == parent' && DeletePending(c', t')
      ensures Inorder(Plug(c', t')) == Inorder(Plug(c, t))
      ensures (t'.Bin? && t'.red == c.red && c' == c.up && rotations == 0) || (c'.Top? && rotations <= 2)
    {
      LookAcross(c, t);
      var sibling := sibling0;
      if !RedOf(sibling.left) && !RedOf(sibling.right) {
        t' := BlackNephewsStep(sibling, s, c, t);
        c', rotations := c.up, 0;
        Locate(c', t');
        node', parent' := parent, parent.parent;
      } else {
        c', rotations := c, 1;
        if !RedOf(ChildOf(sibling, s.Other())) {
          c' := NearNephewStep(sibling, ChildOf(sibling, s), s, c, t);
          rotations := 2;
          LookAcross(c', t);
          sibling := ChildOf(parent, s.Other());
        }
        t' := FarNephewStep(parent, sibling, ChildOf(sibling, s.Other()), s, c', t);
        node', parent', c' := root, null, Top;
      }
    }

    // ---------- the map ----------

    ghost predicate Valid()
      reads this, nodes
    {
      Ordered() && Mirrors()
    }

    ghost predicate Ordered()
      reads `keyCompare, `root, `size, `nodes, `tree, nodes`left, nodes`right, nodes`parent, nodes`red
    {
      && TotalOrder(keyCompare)
      && Linked(tree) && RedBlack(tree) && Sorted(Inorder(tree), keyCompare)
      && size == |Inorder(tree)|
    }

    ghost predicate Mirrors()
      reads `nodes, `contents, nodes`value
    {
      Pairs(nodes, contents)
    }

    // m is the map from the nodes' keys to their values
    static ghost predicate Pairs(ns: set<Node>, m: map<Key, Value>)
      reads ns`value
    {
      && (forall n | n in ns :: n.key in m && m[n.key] == n.value)
      && m.Keys == set n | n in ns :: n.key
    }

    static lemma PairsAdd(ns: set<Node>, m: map<Key, Value>, n: Node)
      requires Pairs(ns, m) && n.key !in m
      ensures Pairs(ns + {n}, m[n.key := n.value])
    {
    }

    static lemma PairsRemove(ns: set<Node>, m: map<Key, Value>, n: Node)
      requires Pairs(ns, m) && UniqueKeys(ns) && n in ns
      ensures Pairs(ns - {n}, m - {n.key})
    {
    }

    constructor (keyCompare: Compare)
      requires TotalOrder(keyCompare)
      ensures Valid() && contents == map[] && nodes == {} && this.keyCompare == keyCompare
    {
      this.keyCompare := keyCompare;
      root, size := null, 0;
      nodes, tree, contents := {}, Nil, map[];
    }

    lemma SizeIsCardinality()
      requires Valid()
      ensures size == |contents| && contents.Keys == Keys(Inorder(tree))
    {
      OrderedNodes();
      SortedKeys(Inorder(tree), keyCompare);
      assert contents.Keys == Keys(Inorder(tree));
    }

    lemma Reading(c: Ctx, t: Tree)
      requires Linked(Plug(c, t)) && t.Bin?
      ensures t.node in nodes && t.node.left == Root(t.left) && t.node.right == Root(t.right)
    {
      Look(Memory(), c, t);
    }

    // at most 2 log2(size + 1)
    ghost predicate Few(steps: nat)
      reads `size
    {
      Pow2(steps) <= (size + 1) * (size + 1)
    }

    lemma StepBound(c: Ctx, t: Tree, steps: nat)
      requires Ordered() && tree == Plug(c, t) && steps <= Depth(c) + Height(t)
      ensures Few(steps)
    {
      DepthHeight(c, t);
      HeightBound(tree);
      Pow2Monotone(steps, Height(tree));
    }

    // a search for the key has come to t after some steps
    ghost predicate Searching(key: Key, c: Ctx, t: Tree, steps: nat)
      reads `keyCompare, `tree
    {
      tree == Plug(c, t) && Encloses(c, key, keyCompare) && steps == Depth(c)
    }

    lemma SearchDown(key: Key, c: Ctx, t: Tree, steps: nat, s: Side)
      requires Ordered() && Searching(key, c, t, steps) && t.Bin?
      requires if s.Left? then keyCompare(t.node.key, key) > 0 else keyCompare(t.node.key, key) < 0
      ensures Searching(key, Step(s, t.node, t.red, Child(t, s.Other()), c), Child(t, s), steps + 1)
    {
      if s.Left? {
        DescendLeft(c, t, key, keyCompare);
      } else {
        DescendRight(c, t, key, keyCompare);
      }
    }

    lemma SearchHit(key: Key, c: Ctx, t: Tree, steps: nat)
      requires Ordered() && Searching(key, c, t, steps) && t.Bin? && keyCompare(t.node.key, key) == 0
      ensures t.node.key == key && Few(steps + 1)
    {
      assert OrderLaws(keyCompare, t.node.key, key, key);
      StepBound(c, t, steps + 1);
    }

    lemma SearchMiss(key: Key, c: Ctx, steps: nat)
      requires Ordered() && Searching(key, c, Nil, steps)
      ensures Few(steps) && forall n | n in nodes :: n.key != key
    {
      StepBound(c, Nil, steps);
      Absent(c, key, keyCompare);
      assert nodes == Memory().Keys;
    }

    // treemap_find_node; steps counts the nodes compared
    method FindNode(key: Key) returns (node: Node?, ghost c: Ctx, ghost t: Tree, ghost steps: nat)
      requires Ordered()
      ensures tree == Plug(c, t) && Root(t) == node && Encloses(c, key, keyCompare)
      ensures node != null ==> node in nodes && node.key == key
      ensures node == null <==> forall n | n in nodes :: n.key != key
      ensures Few(steps)
    {
      node := root;
      c, t, steps := Top, tree, 0;
      while node != null
        invariant Searching(key, c, t, steps) && Root(t) == node
        decreases t
      {
        Reading(c, t);
        var cmp := keyCompare(node.key, key);
        if cmp > 0 {
          SearchDown(key, c, t, steps, Left);
          c, t := Step(Left, node, t.red, t.right, c), t.left;
          node := node.left;
        } else if cmp < 0 {
          SearchDown(key, c, t, steps, Right);
          c, t := Step(Right, node, t.red, t.left, c), t.right;
          node := node.right;
        } else {
          SearchHit(key, c, t, steps);
          steps := steps + 1;
          return;
        }
        steps := steps + 1;
      }
      SearchMiss(key, c, steps);
    }

    // ---------- treemap_set ----------

    // the descent of treemap_set, which keeps the last node and comparison
    method Descend(key: Key)
      returns (node: Node?, parent: Node?, cmp: int, ghost c: Ctx, ghost t: Tree, ghost steps: nat)
      requires Ordered()
      ensures tree == Plug(c, t) && Root(t) == node && Parent(c) == parent && Encloses(c, key, keyCompare)
      ensures node != null ==> node in nodes && node.key == key
      ensures node == null ==> t.Nil? && forall n | n in nodes :: n.key != key
      ensures parent != null ==> parent in nodes && (cmp > 0 <==> c.side == Left)
      ensures Few(steps)
    {
      node, parent, cmp := root, null, 0;
      c, t, steps := Top, tree, 0;
      while node != null
        invariant Searching(key, c, t, steps) && Root(t) == node && Parent(c) == parent
        invariant parent != null ==> parent in nodes && (cmp > 0 <==> c.side == Left)
        decreases t
      {
        Reading(c, t);
        var order := keyCompare(node.key, key);
        if order > 0 {
          SearchDown(key, c, t, steps, Left);
          c, t := Step(Left, node, t.red, t.right, c), t.left;
          node, parent, cmp := node.left, node, order;
        } else if order < 0 {
          SearchDown(key, c, t, steps, Right);
          c, t := Step(Right, node, t.red, t.left, c), t.right;
          node, parent, cmp := node.right, node, order;
        } else {
          SearchHit(key, c, t, steps);
          steps := steps + 1;
          return;
        }
        steps := steps + 1;
      }
      SearchMiss(key, c, steps);
    }

    // hangs a new node below parent, on the side the last comparison tells
    method Attach(created: Node, parent: Node?, cmp: int)
      requires created !in nodes && created.left == created.right == null && created.red
      requires parent != null ==> parent in nodes
      modifies `root, `nodes, created`parent, nodes`left, nodes`right
      ensures nodes == old(nodes) + {created}
      ensures Attached(old(Memory()), Memory(), if cmp > 0 then Left else Right, parent, created)
      ensures root == if parent == null then created else old(root)
    {
      created.parent := parent;
      if parent == null {
        root := created;
      } else if cmp > 0 {
        parent.left := created;
      } else {
        parent.right := created;
      }
      nodes := nodes + {created};
    }

    // hangs the node into the hole of c and restores the balance
    method Link(created: Node, parent: Node?, cmp: int, ghost c: Ctx) returns (ghost tree': Tree)
      requires Linked(Plug(c, Nil)) && RedBlack(Plug(c, Nil)) && Parent(c) == parent
      requires parent != null ==> parent in nodes && (cmp > 0 <==> c.side == Left)
      requires created !in nodes && created.left == created.right == null && created.red
      modifies `root, `nodes, created`parent, created`left, created`right, created`red
      modifies nodes`left, nodes`right, nodes`parent, nodes`red
      ensures nodes == old(nodes) + {created} && Linked(tree') && RedBlack(tree')
      ensures Inorder(tree') == Inorder(Plug(c, Bin(Nil, created, true, Nil)))
    {
      ghost var m := Memory();
      Attach(created, parent, cmp);
      AttachLinked(m, c, created);
      ghost var rounds, rotations;
      tree', rounds, rotations := InsertFixup(created, c, Bin(Nil, created, true, Nil));
    }

    lemma AttachLinked(m: Mem, c: Ctx, created: Node)
      requires Represents(m, Plug(c, Nil)) && RedBlack(Plug(c, Nil))
      requires Attached(m, Memory(), if c.Step? then c.side else Left, Parent(c), created)
      requires root == if c.Top? then created else Root(Plug(c, Nil))
      ensures var leaf := Bin(Nil, created, true, Nil);
              Linked(Plug(c, leaf)) && InsertPending(c, leaf)
    {
      AttachRepresents(m, Memory(), c, created);
      PlugRedBlack(c, Nil);
      if c.Step? {
        PlugRoot(c, Nil, Bin(Nil, created, true, Nil));
      }
    }

    // the last step of a change: the new size, and the tree and the map that the nodes now make up
    method Commit(newSize: nat, ghost t: Tree, ghost m: map<Key, Value>)
      requires TotalOrder(keyCompare) && Linked(t) && RedBlack(t) && Sorted(Inorder(t), keyCompare)
      requires newSize == |Inorder(t)| && Pairs(nodes, m)
      modifies `size, `tree, `contents
      ensures Valid() && tree == t && contents == m && nodes == old(nodes)
    {
      size := newSize;
      tree, contents := t, m;
    }

    // a new node in the hole of c
    method InsertNode(key: Key, value: Value, parent: Node?, cmp: int, ghost c: Ctx)
      returns (created: Node, ghost tree': Tree)
      requires Ordered() && tree == Plug(c, Nil) && Parent(c) == parent && Encloses(c, key, keyCompare)
      requires parent != null ==> parent in nodes && (cmp > 0 <==> c.side == Left)
      modifies `root, `nodes, nodes`left, nodes`right, nodes`parent, nodes`red
      ensures fresh(created) && created.key == key && created.value == value && nodes == old(nodes) + {created}
      ensures Linked(tree') && RedBlack(tree') && Sorted(Inorder(tree'), keyCompare) && |Inorder(tree')| == size + 1
    {
      created := new Node(key, value);
      SortedInsert(c, created, keyCompare);
      tree' := Link(created, parent, cmp, c);
    }

    // Inserts a key that is absent; c is where it belongs.
    method Insert(key: Key, value: Value, parent: Node?, cmp: int, ghost c: Ctx) returns (created: Node)
      requires Valid() && tree == Plug(c, Nil) && Parent(c) == parent && Encloses(c, key, keyCompare)
      requires parent != null ==> parent in nodes && (cmp > 0 <==> c.side == Left)
      requires key !in contents
      modifies `root, `size, `nodes, `tree, `contents, nodes`left, nodes`right, nodes`parent, nodes`red
      ensures Valid() && contents == old(contents)[key := value]
      ensures fresh(created) && created.key == key && created.value == value && nodes == old(nodes) + {created}
    {
      ghost var ns := nodes;
      ghost var tree';
      created, tree' := InsertNode(key, value, parent, cmp, c);
      PairsAdd(ns, contents, created);
      Commit(size + 1, tree', contents[key := value]);
    }

    method SetExisting(node: Node, value: Value)
      requires Valid() && node in nodes
      modifies `contents, node`value
      ensures Valid() && contents == old(contents)[node.key := value]
    {
      SortedUnique(tree, keyCompare);
      assert Refs(tree) == nodes;
      WriteValue(node, value);
    }

    method WriteValue(node: Node, value: Value)
      requires Mirrors() && UniqueKeys(nodes) && node in nodes
      modifies `contents, node`value
      ensures Mirrors() && contents == old(contents)[node.key := value]
    {
      node.value := value;
      contents := contents[node.key := value];
    }

    // A failed allocation or copy leaves the map as it was.
    method Set(key: Key, value: Value, plenty: bool) returns (ok: bool)
      requires Valid()
      modifies `root, `size, `nodes, `tree, `contents, nodes
      ensures Valid()
      ensures contents == if ok then old(contents)[key := value] else old(contents)
      ensures old(nodes) <= nodes && fresh(nodes - old(nodes))
      ensures !ok || key in old(contents) ==> nodes == old(nodes) && tree == old(tree)
      ensures plenty ==> ok
    {
      var node, parent, cmp;
      ghost var c, t, steps;
      node, parent, cmp, c, t, steps := Descend(key);
      ok := Attempt(plenty);
      if ok {
        if node != null {
          SetExisting(node, value);
        } else {
          var created := Insert(key, value, parent, cmp, c);
        }
      }
    }

    // ---------- treemap_delete ----------

    // treemap_minimum of a subtree that is not empty
    method Minimum(start: Node, ghost c: Ctx, ghost t: Tree)
      returns (node: Node, ghost k: Ctx, ghost u: Tree, ghost steps: nat)
      requires Linked(Plug(c, t)) && Root(t) == start
      ensures Plug(k, u) == t && u.Bin? && u.left.Nil? && u.node == node && Before(k) == []
      ensures k.Step? ==> Parent(k) != null && k.side.Left?
      ensures node in nodes && node.left == null && node.right == Root(u.right)
      ensures steps < Height(t)
    {
      node := start;
      k, u, steps := Top, t, 0;
      Reading(c, t);
      while node.left != null
        invariant Plug(k, u) == t && Root(u) == node && Before(k) == [] && steps + Height(u) <= Height(t)
        invariant k.Step? ==> k.side.Left?
        invariant node in nodes && node.left == Root(u.left) && node.right == Root(u.right)
        decreases u
      {
        k, u, steps := Step(Left, node, u.red, u.right, k), u.left, steps + 1;
        node := node.left;
        PlugAppend(k, c, u);
        Reading(Append(k, c), u);
      }
    }

    static ghost function Single(node: Node?): set<Node> {
      if node == null then {} else {node}
    }

    method Transplant(oldNode: Node, newNode: Node?)
      requires newNode != oldNode
      requires var p := oldNode.parent;
        p != null ==> p != oldNode && p != newNode && (p.left == oldNode <==> p.right != oldNode)
      modifies `root, Single(oldNode.parent)`left, Single(oldNode.parent)`right, Single(newNode)`parent
      ensures newNode != null ==> newNode.parent == old(oldNode.parent)
      ensures old(oldNode.parent) == null ==> root == newNode
      ensures var p := old(oldNode.parent);
        p != null ==>
          && root == old(root)
          && p.left == (if old(p.left) == oldNode then newNode else old(p.left))
          && p.right == (if old(p.left) == oldNode then old(p.right) else newNode)
    {
      if oldNode.parent == null {
        root := newNode;
      } else if oldNode == oldNode.parent.left {
        oldNode.parent.left := newNode;
      } else {
        oldNode.parent.right := newNode;
      }

      if newNode != null {
        newNode.parent := oldNode.parent;
      }
    }

    method TransplantLinks(oldNode: Node, newNode: Node?)
      requires Transplantable(Memory(), oldNode, newNode)
      modifies `root, nodes`left, nodes`right, nodes`parent
      ensures Transplanted(old(Memory()), Memory(), oldNode, newNode)
      ensures root == if old(oldNode.parent) == null then newNode else old(root)
    {
      Transplant(oldNode, newNode);
    }

    // Takes out a node whose only subtree, on side s, is x.
    method TakeOut(node: Node, child: Node?, ghost c: Ctx, ghost s: Side, ghost red: bool, ghost x: Tree)
      requires Linked(Plug(c, Make(s, x, node, red, Nil))) && Root(x) == child
      modifies `root, nodes`left, nodes`right, nodes`parent
      ensures Represents(Memory() - {node}, Plug(c, x)) && root == Root(Plug(c, x))
      ensures Memory().Keys == nodes
    {
      ghost var m := Memory();
      RemoveReady(m, c, s, node, red, x);
      TransplantLinks(node, child);
      RemoveRepresents(m, Memory(), c, s, node, red, x);
      if c.Step? {
        PlugRoot(c, x, Make(s, x, node, red, Nil));
      }
    }

    // The detached node moved takes the place of node, which has two children.
    method TakePlace(node: Node, moved: Node)
      requires node != moved && node.left != null && node.right != null && node.left != node.right
      requires node.left != moved && node.right != moved && node.left != node && node.right != node
      requires var p := node.parent;
        p != null ==>
          && p != node && p != moved && p != node.left && p != node.right
          && (p.left == node <==> p.right != node)
      modifies `root, Single(node.parent)`left, Single(node.parent)`right
      modifies moved`left, moved`right, moved`parent, moved`red, node.left`parent, node.right`parent
      ensures moved.left == old(node.left) && moved.right == old(node.right)
      ensures moved.parent == old(node.parent) && moved.red == old(node.red)
      ensures old(node.left).parent == moved && old(node.right).parent == moved
      ensures old(node.parent) == null ==> root == moved
      ensures var p := old(node.parent);
        p != null ==>
          && root == old(root)
          && p.left == (if old(p.left) == node then moved else old(p.left))
          && p.right == (if old(p.left) == node then old(p.right) else moved)
    {
      moved.right := node.right;
      moved.right.parent := moved;

      Transplant(node, moved);
      moved.left := node.left;
      moved.left.parent := moved;
      moved.red := node.red;
    }

    method TakePlaceLinks(node: Node, moved: Node)
      requires Replaceable(Memory(), node, moved)
      modifies `root, nodes`left, nodes`right, nodes`parent, nodes`red
      ensures Substituted(old(Memory()) - {moved}, Memory() - {node}, node, moved)
      ensures root == if old(node.parent) == null then moved else old(root)
    {
      TakePlace(node, moved);
    }

    // The same when moved is node's right child and keeps its own right subtree.
    method SpliceOut(node: Node, moved: Node)
      requires node != moved && node.left != null && node.left != moved && node.left != node && moved.parent == node
      requires moved.right != null ==>
        moved.right.parent == moved && moved.right != node && moved.right != moved && moved.right != node.left
      requires var p := node.parent;
        p != null ==>
          && p != node && p != moved && p != node.left && p != moved.right
          && (p.left == node <==> p.right != node)
      modifies `root, Single(node.parent)`left, Single(node.parent)`right
      modifies moved`left, moved`parent, moved`red, node.left`parent, Single(moved.right)`parent
      ensures moved.left == old(node.left)
      ensures moved.parent == old(node.parent) && moved.red == old(node.red)
      ensures old(node.left).parent == moved && (moved.right != null ==> moved.right.parent == moved)
      ensures old(node.parent) == null ==> root == moved
      ensures var p := old(node.parent);
        p != null ==>
          && root == old(root)
          && p.left == (if old(p.left) == node then moved else old(p.left))
          && p.right == (if old(p.left) == node then old(p.right) else moved)
    {
      var fixNode := moved.right;
      if fixNode != null {
        fixNode.parent := moved;
      }

      Transplant(node, moved);
      moved.left := node.left;
      moved.left.parent := moved;
      moved.red := node.red;
    }

    method SpliceOutLinks(node: Node, moved: Node)
      requires Splicable(Memory(), node, moved) && node.left != null
      modifies `root, nodes`left, nodes`right, nodes`parent, nodes`red
      ensures Spliced(old(Memory()), Memory(), node, moved)
      ensures root == if old(node.parent) == null then moved else old(root)
    {
      SpliceOut(node, moved);
    }

    // the linked structure without node, before node is freed
    ghost predicate LinkedWithout(node: Node, t: Tree)
      reads `root, `nodes, nodes`left, nodes`right, nodes`parent, nodes`red
    {
      Represents(Memory() - {node}, t) && root == Root(t)
    }

    // removes node, whose successor moved is its right child
    method UnlinkNear(node: Node, moved: Node, ghost c: Ctx, ghost l: Tree, ghost red: bool, ghost ry: bool,
            ghost x: Tree)
      requires Linked(Plug(c, Bin(l, node, red, Bin(Nil, moved, ry, x)))) && l.Bin?
      modifies `root, nodes`left, nodes`right, nodes`parent, nodes`red
      ensures LinkedWithout(node, Plug(c, Bin(l, moved, red, x)))
    {
      ghost var m := Memory();
      ghost var r := Bin(Nil, moved, ry, x);
      LookAround(m, c, l, node, red, r);
      SpliceLinks(m, c, l, node, moved, ry, x);
      SpliceOutLinks(node, moved);
      SpliceRepresents(m, Memory(), c, l, node, red, moved, ry, x);
      if c.Step? {
        PlugRoot(c, Bin(l, node, red, r), Bin(l, moved, red, x));
      }
    }

    // removes node, whose successor moved lies deeper, in the hole of k below node's right child
    method UnlinkFar(node: Node, moved: Node, ghost c: Ctx, ghost l: Tree, ghost red: bool, ghost k: Ctx,
            ghost ry: bool, ghost x: Tree)
      requires Linked(Plug(c, Bin(l, node, red, Plug(k, Bin(Nil, moved, ry, x))))) && l.Bin? && k.Step?
      modifies `root, nodes`left, nodes`right, nodes`parent, nodes`red
      ensures LinkedWithout(node, Plug(c, Bin(l, moved, red, Plug(k, x))))
    {
      ghost var kc := Append(k, Step(Right, node, red, l, c));
      ghost var u := Bin(Nil, moved, ry, x);
      PlugAppend(k, Step(Right, node, red, l, c), u);
      PlugAppend(k, Step(Right, node, red, l, c), x);
      assert Plug(kc, u) == Plug(c, Bin(l, node, red, Plug(k, u)));
      Reading(kc, u);
      TakeOut(moved, moved.right, kc, Right, ry, x);
      PlugBin(k, x);
      UnlinkReplace(node, moved, c, l, red, Plug(k, x));
    }

    method UnlinkReplace(node: Node, moved: Node, ghost c: Ctx, ghost l: Tree, ghost red: bool, ghost r: Tree)
      requires moved in nodes && LinkedWithout(moved, Plug(c, Bin(l, node, red, r))) && l.Bin? && r.Bin?
      modifies `root, nodes`left, nodes`right, nodes`parent, nodes`red
      ensures LinkedWithout(node, Plug(c, Bin(l, moved, red, r)))
    {
      ghost var m := Memory();
      ReplaceLinks(m, m - {moved}, c, l, node, red, r, moved);
      TakePlaceLinks(node, moved);
      SubstituteRepresents(m - {moved}, Memory() - {node}, c, l, node, red, r, moved);
      if c.Step? {
        PlugRoot(c, Bin(l, node, red, r), Bin(l, moved, red, r));
      }
    }

    // Node is unlinked, and the fixup has to start at fixNode below fixParent.
    ghost predicate Unlinked(node: Node, c: Ctx, t: Tree, fixNode: Node?, fixParent: Node?, removedRed: bool,
            fc: Ctx, ft: Tree)
      requires t.Bin?
      reads `root, `nodes, nodes`left, nodes`right, nodes`parent, nodes`red
    {
      && LinkedWithout(node, Plug(fc, ft)) && Root(ft) == fixNode && Parent(fc) == fixParent
      && (if removedRed then RedBlack(Plug(fc, ft)) else DeletePending(fc, ft))
      && Inorder(Plug(fc, ft)) == Before(c) + (Inorder(t.left) + Inorder(t.right)) + After(c)
    }

    method Unlink(node: Node, ghost c: Ctx, ghost t: Tree)
        returns (fixNode: Node?, fixParent: Node?, removedRed: bool, ghost fc: Ctx, ghost ft: Tree)
      requires Linked(Plug(c, t)) && RedBlack(Plug(c, t)) && Root(t) == node
      modifies `root, nodes`left, nodes`right, nodes`parent, nodes`red
      ensures Unlinked(node, c, t, fixNode, fixParent, removedRed, fc, ft)
    {
      Reading(c, t);
      Locate(c, t);
      if node.left == null {
        fixNode, fixParent, removedRed := node.right, node.parent, node.red;
        fc, ft := c, t.right;
        UnlinkOuter(node, node.right, c, t, Right, ft);
      } else if node.right == null {
        fixNode, fixParent, removedRed := node.left, node.parent, node.red;
        fc, ft := c, t.left;
        UnlinkOuter(node, node.left, c, t, Left, ft);
      } else {
        fixNode, fixParent, removedRed, fc, ft := UnlinkInner(node, c, t);
      }
    }

    // the case of at most one child
    method UnlinkOuter(node: Node, child: Node?, ghost c: Ctx, ghost t: Tree, ghost s: Side, ghost x: Tree)
      requires Linked(Plug(c, t)) && RedBlack(Plug(c, t)) && t.Bin? && t == Make(s, x, node, t.red, Nil) &&
          Root(x) == child
      modifies `root, nodes`left, nodes`right, nodes`parent
      ensures Unlinked(node, c, t, child, Parent(c), t.red, c, x)
    {
      RemovalPending(c, s, node, t.red, x);
      TakeOut(node, child, c, s, t.red, x);
      PlugOrder(c, x);
      assert Inorder(t.left) + Inorder(t.right) == Inorder(x);
    }

    // the case of two children: the successor takes the node's place
    method UnlinkInner(node: Node, ghost c: Ctx, ghost t: Tree)
        returns (fixNode: Node?, fixParent: Node?, removedRed: bool, ghost fc: Ctx, ghost ft: Tree)
      requires Linked(Plug(c, t)) && RedBlack(Plug(c, t)) && Root(t) == node && t.left.Bin? && t.right.Bin?
      modifies `root, nodes`left, nodes`right, nodes`parent, nodes`red
      ensures Unlinked(node, c, t, fixNode, fixParent, removedRed, fc, ft)
    {
      Reading(c, t);
      ghost var k, u, steps;
      var moved;
      moved, k, u, steps := Minimum(node.right, Step(Right, node, t.red, t.left, c), t.right);
      ghost var x := u.right;
      SuccessorForms(c, t, k, u);
      SuccessorOrder(c, t, k, u);
      SuccessorPending(k, node, moved, t.red, u.red, t.left, x, c);
      Locate(Append(k, Step(Right, node, t.red, t.left, c)), u);

      removedRed, fixNode := moved.red, moved.right;
      fc, ft := Append(k, Step(Right, moved, t.red, t.left, c)), x;
      if moved.parent == node {
        fixParent := moved;
        UnlinkNear(node, moved, c, t.left, t.red, u.red, x);
      } else {
        fixParent := moved.parent;
        UnlinkFar(node, moved, c, t.left, t.red, k, u.red, x);
      }
    }

    ghost method Forget(node: Node, t: Tree)
      requires LinkedWithout(node, t)
      modifies `nodes
      ensures nodes == old(nodes) - {node} && Linked(t)
    {
      ghost var m := Memory() - {node};
      nodes := nodes - {node};
      assert Memory() == m;
    }

    method UnlinkBalanced(node: Node, ghost c: Ctx, ghost t: Tree) returns (ghost tree': Tree)
      requires Linked(Plug(c, t)) && RedBlack(Plug(c, t)) && Root(t) == node
      modifies `root, `nodes, nodes`left, nodes`right, nodes`parent, nodes`red
      ensures nodes == old(nodes) - {node} && Linked(tree') && RedBlack(tree')
      ensures Inorder(tree') == Before(c) + (Inorder(t.left) + Inorder(t.right)) + After(c)
    {
      var fixNode, fixParent, removedRed;
      ghost var fc, ft;
      fixNode, fixParent, removedRed, fc, ft := Unlink(node, c, t);
      Forget(node, Plug(fc, ft));
      tree' := Plug(fc, ft);
      if !removedRed {
        ghost var rounds, rotations;
        tree', rounds, rotations := DeleteFixup(fixNode, fixParent, fc, ft);
      }
    }

    lemma RemovedOrder(c: Ctx, t: Tree)
      requires t.Bin? && Sorted(Inorder(Plug(c, t)), keyCompare)
      ensures var s := Before(c) + (Inorder(t.left) + Inorder(t.right)) + After(c);
              Sorted(s, keyCompare) && |s| + 1 == |Inorder(Plug(c, t))|
    {
      PlugOrder(c, t);
      Remove(Before(c), Inorder(t.left), t.node, Inorder(t.right), After(c));
      SortedRemove(Before(c) + Inorder(t.left), t.node, Inorder(t.right) + After(c), keyCompare);
    }

    method DeleteNode(node: Node, ghost c: Ctx, ghost t: Tree)
      requires Valid() && tree == Plug(c, t) && Root(t) == node && node in nodes && UniqueKeys(nodes)
      modifies `root, `size, `nodes, `tree, `contents, nodes`left, nodes`right, nodes`parent, nodes`red
      ensures Valid() && nodes == old(nodes) - {node} && contents == old(contents) - {node.key}
    {
      ghost var m := contents - {node.key};
      PairsRemove(nodes, contents, node);
      RemovedOrder(c, t);
      ghost var tree' := UnlinkBalanced(node, c, t);
      Commit(size - 1, tree', m);
    }

    // removed is the one node that goes; all others stay allocated
    method Delete(key: Key) returns (ok: bool, ghost removed: Node?)
      requires Valid()
      modifies `root, `size, `nodes, `tree, `contents, nodes
      ensures Valid()
      ensures ok <==> key in old(contents)
      ensures contents == old(contents) - {key}
      ensures ok ==> removed in old(nodes) && removed.key == key && nodes == old(nodes) - {removed}
      ensures !ok ==> nodes == old(nodes) && tree == old(tree)
    {
      var node;
      ghost var c, t, steps;
      node, c, t, steps := FindNode(key);
      ok, removed := node != null, node;
      if node != null {
        SortedUnique(tree, keyCompare);
        DeleteNode(node, c, t);
      }
    }

    // ---------- traversal ----------

    lemma PositionOf(node: Node) returns (c: Ctx, t: Tree)
      requires Linked(tree) && node in nodes
      ensures tree == Plug(c, t) && t.Bin? && t.node == node && NoDuplicates(Inorder(tree)) && node in Inorder(tree)
    {
      c, t := FindPosition(tree, node, Top);
      DistinctOrder(tree);
      InorderRefs(tree);
    }

    // the walk down the right side of t has come to u, at k
    static ghost predicate OnRightSide(c: Ctx, t: Tree, k: Ctx, u: Tree, steps: nat) {
      && Plug(k, u) == Plug(c, t) && u.Bin? && steps + Height(u) <= Height(t)
      && At(Inorder(u), |Inorder(u)| - 1) == At(Inorder(t), |Inorder(t)| - 1)
    }

    static lemma RightSideDown(c: Ctx, t: Tree, k: Ctx, u: Tree, steps: nat)
      requires OnRightSide(c, t, k, u, steps) && u.right.Bin?
      ensures OnRightSide(c, t, Step(Right, u.node, u.red, u.left, k), u.right, steps + 1)
    {
      var r := Inorder(u.right);
      assert r != [] && Inorder(u) == (Inorder(u.left) + [u.node]) + r;
    }

    static lemma RightSideEnd(c: Ctx, t: Tree, k: Ctx, u: Tree, steps: nat)
      requires OnRightSide(c, t, k, u, steps) && u.right.Nil?
      ensures u.node == At(Inorder(t), |Inorder(t)| - 1) && steps < Height(t)
    {
      assert Inorder(u) == Inorder(u.left) + [u.node];
    }

    // treemap_maximum of a subtree that is not empty
    method Maximum(start: Node, ghost c: Ctx, ghost t: Tree) returns (node: Node, ghost steps: nat)
      requires Linked(Plug(c, t)) && Root(t) == start
      ensures node == At(Inorder(t), |Inorder(t)| - 1)
      ensures steps < Height(t)
    {
      node, steps := start, 0;
      ghost var k, u := c, t;
      Reading(k, u);
      while node.right != null
        invariant OnRightSide(c, t, k, u, steps) && Root(u) == node
        invariant node in nodes && node.right == Root(u.right)
        decreases u
      {
        RightSideDown(c, t, k, u, steps);
        k, u, steps := Step(Right, node, u.red, u.left, k), u.right, steps + 1;
        node := node.right;
        Reading(k, u);
      }
      RightSideEnd(c, t, k, u, steps);
    }

    // the parent of the nearest node on the way up that is a left child
    method AncestorAfter(node: Node, ghost c0: Ctx, ghost t0: Tree) returns (next: Node?, ghost steps: nat)
      requires Linked(Plug(c0, t0)) && Root(t0) == node
      ensures next == At(After(c0), 0) && steps <= Depth(c0)
    {
      var n := node;
      steps := 0;
      ghost var c, t := c0, t0;
      Locate(c, t);
      while n.parent != null && n == n.parent.right
        invariant Plug(c, t) == Plug(c0, t0) && Root(t) == n && After(c) == After(c0)
        invariant steps + Depth(c) == Depth(c0)
        invariant n in nodes && n.parent == Parent(c) && (c.Step? ==> c.node in nodes)
        decreases c
      {
        Look(Memory(), c, t);
        c, t := c.up, Make(c.side, t, c.node, c.red, c.sib);
        n, steps := n.parent, steps + 1;
        Locate(c, t);
      }
      Look(Memory(), c, t);
      next := n.parent;
      steps := if n.parent == null then steps else steps + 1;
    }

    // treemap_next; steps counts the links followed
    method Next(node: Node) returns (next: Node?, ghost steps: nat)
      requires Valid() && node in nodes
      ensures node in Inorder(tree) && next == Successor(Inorder(tree), node)
      ensures Few(steps)
    {
      ghost var c, t := PositionOf(node);
      SuccessorPosition(c, t);
      Reading(c, t);
      if node.right != null {
        ghost var k, u;
        next, k, u, steps := Minimum(node.right, Step(Right, node, t.red, t.left, c), t.right);
        steps := steps + 1;
        PlugOrder(k, u);
      } else {
        next, steps := AncestorAfter(node, c, t);
      }
      StepBound(c, t, steps);
    }

    // the parent of the nearest node on the way up that is a right child
    method AncestorBefore(node: Node, ghost c0: Ctx, ghost t0: Tree) returns (prev: Node?, ghost steps: nat)
      requires Linked(Plug(c0, t0)) && Root(t0) == node
      ensures prev == At(Before(c0), |Before(c0)| - 1) && steps <= Depth(c0)
    {
      var n := node;
      steps := 0;
      ghost var c, t := c0, t0;
      Locate(c, t);
      while n.parent != null && n == n.parent.left
        invariant Plug(c, t) == Plug(c0, t0) && Root(t) == n && Before(c) == Before(c0)
        invariant steps + Depth(c) == Depth(c0)
        invariant n in nodes && n.parent == Parent(c) && (c.Step? ==> c.node in nodes)
        decreases c
      {
        Look(Memory(), c, t);
        c, t := c.up, Make(c.side, t, c.node, c.red, c.sib);
        n, steps := n.parent, steps + 1;
        Locate(c, t);
      }
      Look(Memory(), c, t);
      prev := n.parent;
      steps := if n.parent == null then steps else steps + 1;
    }

    method Prev(node: Node) returns (prev: Node?, ghost steps: nat)
      requires Valid() && node in nodes
      ensures node in Inorder(tree) && prev == Predecessor(Inorder(tree), node)
      ensures Few(steps)
    {
      ghost var c, t := PositionOf(node);
      PredecessorPosition(c, t);
      Reading(c, t);
      if node.left != null {
        prev, steps := Maximum(node.left, Step(Left, node, t.red, t.right, c), t.left);
        steps := steps + 1;
      } else {
        prev, steps := AncestorBefore(node, c, t);
      }
      StepBound(c, t, steps);
    }

    method First() returns (node: Node?, ghost steps: nat)
      requires Valid()
      ensures node == At(Inorder(tree), 0) && Few(steps)
    {
      node, steps := root, 0;
      if root != null {
        ghost var k, u;
        node, k, u, steps := Minimum(root, Top, tree);
        PlugOrder(k, u);
      }
      StepBound(Top, tree, steps);
    }

    method Last() returns (node: Node?, ghost steps: nat)
      requires Valid()
      ensures node == At(Inorder(tree), |Inorder(tree)| - 1) && Few(steps)
    {
      node, steps := root, 0;
      if root != null {
        node, steps := Maximum(root, Top, tree);
      }
      StepBound(Top, tree, steps);
    }

    lemma WalkOn(i: nat)
      requires Valid() && i < |Inorder(tree)|
      ensures Inorder(tree)[i] in nodes
      ensures Successor(Inorder(tree), Inorder(tree)[i]) == At(Inorder(tree), i + 1)
    {
      OrderedNodes();
      SuccessorOf(Inorder(tree), i);
    }

    lemma InOrder(n: Node)
      requires Valid()
      ensures n in nodes <==> n in Inorder(tree)
    {
      OrderedNodes();
    }

    // The node that follows another in the order has the least of all greater keys, so that it is
    // the upper bound of the other's key.
    lemma NextKey(node: Node, next: Node?)
      requires Valid() && node in Inorder(tree) && next == Successor(Inorder(tree), node)
      ensures next == null ==> forall n | n in nodes :: keyCompare(n.key, node.key) <= 0
      ensures next != null ==>
        && next in nodes && keyCompare(next.key, node.key) > 0
        && forall n | n in nodes && keyCompare(n.key, node.key) > 0 :: keyCompare(next.key, n.key) <= 0
    {
      SuccessorKey(Inorder(tree), node, keyCompare);
      forall n: Node ensures n in nodes <==> n in Inorder(tree) {
        InOrder(n);
      }
    }

    lemma PrevKey(node: Node, prev: Node?)
      requires Valid() && node in Inorder(tree) && prev == Predecessor(Inorder(tree), node)
      ensures prev == null ==> forall n | n in nodes :: keyCompare(n.key, node.key) >= 0
      ensures prev != null ==>
        && prev in nodes && keyCompare(prev.key, node.key) < 0
        && forall n | n in nodes && keyCompare(n.key, node.key) < 0 :: keyCompare(prev.key, n.key) >= 0
    {
      PredecessorKey(Inorder(tree), node, keyCompare);
      forall n: Node ensures n in nodes <==> n in Inorder(tree) {
        InOrder(n);
      }
    }

    // The first node has the least key of all, and the last the greatest.
    lemma EndKeys(n: Node)
      requires Valid() && n in nodes
      ensures var s := Inorder(tree);
        s != [] && keyCompare(s[0].key, n.key) <= 0 && keyCompare(s[|s| - 1].key, n.key) >= 0
    {
      InOrder(n);
      var s := Inorder(tree);
      var j :| 0 <= j < |s| && s[j] == n;
      SortedPair(s, 0, j, keyCompare);
      SortedPair(s, |s| - 1, j, keyCompare);
    }

    // a caller that walks the map from the first node on
    method ListKeys() returns (keys: seq<Key>)
      requires Valid()
      ensures forall i, j | 0 <= i < j < |keys| :: keyCompare(keys[i], keys[j]) < 0
      ensures |keys| == size && (set k | k in keys) == contents.Keys
    {
      keys := [];
      ghost var s, steps := Inorder(tree), 0;
      var node;
      node, steps := First();
      while node != null
        invariant Lists(keys, s, |keys|) && node == At(s, |keys|)
        decreases |s| - |keys|
      {
        WalkOn(|keys|);
        keys := keys + [node.key];
        node, steps := Next(node);
      }
      ListsAll(keys, s, keyCompare);
      SizeIsCardinality();
    }

    // the search for a bound has come to t after some steps, with the nodes beyond it to the right
    ghost predicate Bounding(key: Key, strict: bool, c: Ctx, t: Tree, steps: nat)
      reads `keyCompare, `tree
    {
      tree == Plug(c, t) && Divides(c, key, strict, keyCompare) && steps == Depth(c)
    }

    lemma BoundDown(key: Key, strict: bool, c: Ctx, t: Tree, steps: nat, s: Side)
      requires Ordered() && Bounding(key, strict, c, t, steps) && t.Bin?
      requires s.Left? <==> Beyond(t.node, key, strict, keyCompare)
      ensures Bounding(key, strict, Step(s, t.node, t.red, Child(t, s.Other()), c), Child(t, s), steps + 1)
    {
      if s.Left? {
        DivideLeft(c, t, key, strict, keyCompare);
      } else {
        DivideRight(c, t, key, strict, keyCompare);
      }
    }

    lemma BoundEnd(key: Key, strict: bool, c: Ctx, steps: nat)
      requires Ordered() && Bounding(key, strict, c, Nil, steps)
      ensures IsBound(At(After(c), 0), nodes, key, strict, keyCompare) && Few(steps)
    {
      StepBound(c, Nil, steps);
      BoundFound(c, key, strict, keyCompare);
      assert nodes == Memory().Keys;
    }

    // treemap_find_bound_node: lower bound, or upper bound when strict
    method FindBound(key: Key, strict: bool) returns (bound: Node?, ghost steps: nat)
      requires Valid()
      ensures !strict && bound == null ==> forall n | n in nodes :: keyCompare(n.key, key) < 0
      ensures !strict && bound != null ==>
        && bound in nodes && keyCompare(bound.key, key) >= 0
        && forall n | n in nodes && keyCompare(n.key, key) >= 0 :: keyCompare(bound.key, n.key) <= 0
      ensures strict && bound == null ==> forall n | n in nodes :: keyCompare(n.key, key) <= 0
      ensures strict && bound != null ==>
        && bound in nodes && keyCompare(bound.key, key) > 0
        && forall n | n in nodes && keyCompare(n.key, key) > 0 :: keyCompare(bound.key, n.key) <= 0
      ensures Few(steps)
    {
      var node := root;
      bound, steps := null, 0;
      ghost var c, t := Top, tree;
      while node != null
        invariant Bounding(key, strict, c, t, steps) && Root(t) == node && bound == At(After(c), 0)
        decreases t
      {
        Reading(c, t);
        var cmp := keyCompare(node.key, key);
        if cmp > 0 || (!strict && cmp == 0) {
          BoundDown(key, strict, c, t, steps, Left);
          bound := node;
          c, t := Step(Left, node, t.red, t.right, c), t.left;
          node := node.left;
        } else {
          BoundDown(key, strict, c, t, steps, Right);
          c, t := Step(Right, node, t.red, t.left, c), t.right;
          node := node.right;
        }
        steps := steps + 1;
      }
      BoundEnd(key, strict, c, steps);
    }

    // treemap_at: the value slot is the node's value field
    method Lookup(key: Key) returns (node: Node?)
      requires Valid()
      ensures node != null <==> key in contents
      ensures node != null ==> node in nodes && node.key == key && node.value == contents[key]
    {
      ghost var c, t, steps;
      node, c, t, steps := FindNode(key);
    }

    method Clear()
      requires Valid()
      modifies `root, `size, `nodes, `tree, `contents
      ensures Valid() && contents == map[] && nodes == {}
    {
      root, size := null, 0;
      nodes, tree, contents := {}, Nil, map[];
    }

    // treemap_destroy followed by treemap_init
    method Init(keyCompare: Compare)
      requires TotalOrder(keyCompare)
      modifies this
      ensures Valid() && contents == map[] && nodes == {} && this.keyCompare == keyCompare
    {
      this.keyCompare, root, size := keyCompare, null, 0;
      nodes, tree, contents := {}, Nil, map[];
    }

    // The first i of src's n entries have been set; node is the next one.
    ghost predicate Copying(src: TreeMap, i: nat, n: nat, node: Node?)
      reads this, nodes, src, src.nodes
    {
      && (forall m | m in {this, src} :: m.Valid()) && this != src && nodes !! src.nodes
      && i <= n == |Inorder(src.tree)| && node == At(Inorder(src.tree), i)
      && contents == Restricted(src.contents, Inorder(src.tree)[..i])
    }

    // copies one entry and goes on to the next node
    method CopyEntry(src: TreeMap, node: Node, ghost i: nat, ghost n: nat, plenty: bool) returns (ok: bool, next: Node?)
      requires Copying(src, i, n, node)
      modifies `root, `size, `nodes, `tree, `contents, nodes
      ensures Valid() && fresh(nodes - old(nodes)) && i < n
      ensures ok ==> Copying(src, i + 1, n, next)
      ensures plenty ==> ok
    {
      ghost var before := contents;
      src.WalkOn(i);
      next := null;
      ok := SetFrom(src, node, plenty);
      if ok {
        ghost var steps;
        next, steps := src.Next(node);
        CopyNext(src, before, i, next);
      }
    }

    lemma CopyNext(src: TreeMap, before: map<Key, Value>, i: nat, next: Node?)
      requires Valid() && src.Valid() && this != src && nodes !! src.nodes && i < |Inorder(src.tree)|
      requires var s := Inorder(src.tree);
        && s[i].key in src.contents && contents == before[s[i].key := src.contents[s[i].key]]
        && before == Restricted(src.contents, s[..i]) && next == Successor(s, s[i])
      ensures Copying(src, i + 1, |Inorder(src.tree)|, next)
    {
      src.WalkOn(i);
      RestrictedNext(src.contents, Inorder(src.tree), i);
    }

    method SetFrom(src: TreeMap, node: Node, plenty: bool) returns (ok: bool)
      requires Valid() && src.Valid() && this != src && nodes !! src.nodes && node in src.nodes
      modifies `root, `size, `nodes, `tree, `contents, nodes
      ensures Valid() && src.Valid() && fresh(nodes - old(nodes))
      ensures ok ==> contents == old(contents)[node.key := src.contents[node.key]]
      ensures plenty ==> ok
    {
      ok := Set(node.key, node.value, plenty);
    }

    // treemap_clone
    static method Clone(src: TreeMap, plenty: bool) returns (copy: TreeMap?)
      requires src.Valid()
      ensures copy != null ==>
        && fresh(copy) && fresh(copy.nodes) && copy.Valid()
        && copy.contents == src.contents && copy.keyCompare == src.keyCompare
      ensures plenty ==> copy != null
    {
      var ok := Attempt(plenty);
      if !ok {
        return null;
      }
      var dst := new TreeMap(src.keyCompare);
      ok := dst.CopyFrom(src, plenty);
      copy := if ok then dst else null;
    }

    // Makes this map equal to src; on failure it is left empty.
    method CopyFrom(src: TreeMap, plenty: bool) returns (ok: bool)
      requires Valid() && src.Valid() && (this != src ==> nodes !! src.nodes)
      modifies this
      ensures Valid() && contents == if ok then old(src.contents) else map[]
      ensures ok ==> keyCompare == old(src.keyCompare)
      ensures if this == src then ok && nodes == old(nodes) && tree == old(tree) else fresh(nodes)
      ensures plenty ==> ok
    {
      if this == src {
        return true;
      }
      Init(src.keyCompare);
      ok := CopyEntries(src, plenty);
      if !ok {
        Clear();
      }
    }

    method CopyEntries(src: TreeMap, plenty: bool) returns (ok: bool)
      requires Valid() && src.Valid() && this != src && nodes == {} && contents == map[]
      modifies `root, `size, `nodes, `tree, `contents
      ensures Valid() && fresh(nodes)
      ensures ok ==> contents == src.contents
      ensures plenty ==> ok
    {
      var node;
      ghost var i, n, steps := 0, |Inorder(src.tree)|, 0;
      node, steps := src.First();
      CopyStart(src, node);
      ok, i := CopyWalk(src, node, n, plenty);
      if ok {
        CopyDone(src, i, n);
      }
    }

    // the loop of treemap_copy: walks the nodes of src in order and sets each entry
    method CopyWalk(src: TreeMap, first: Node?, ghost n: nat, plenty: bool) returns (ok: bool, ghost i: nat)
      requires Copying(src, 0, n, first) && nodes == {}
      modifies `root, `size, `nodes, `tree, `contents
      ensures Valid() && fresh(nodes)
      ensures ok ==> Copying(src, i, n, null)
      ensures plenty ==> ok
    {
      var node := first;
      ok, i := true, 0;
      while ok && node != null
        invariant forall x | x in nodes :: fresh(x)
        invariant if ok then Copying(src, i, n, node) else Valid()
        invariant plenty ==> ok
        decreases ok, n - i
      {
        ok, node := CopyEntry(src, node, i, n, plenty);
        i := i + 1;
      }
    }

    lemma CopyStart(src: TreeMap, node: Node?)
      requires Valid() && src.Valid() && this != src && nodes !! src.nodes && contents == map[]
      requires node == At(Inorder(src.tree), 0)
      ensures Copying(src, 0, |Inorder(src.tree)|, node)
    {
    }

    lemma CopyDone(src: TreeMap, i: nat, n: nat)
      requires Copying(src, i, n, null)
      ensures contents == src.contents
    {
      src.RestrictedAll();
      assert Inorder(src.tree)[..i] == Inorder(src.tree);
    }

    // the nodes in order, each once
    lemma OrderedNodes()
      requires Valid()
      ensures NoDuplicates(Inorder(tree)) && nodes == set n | n in Inorder(tree)
    {
      DistinctOrder(tree);
      InorderRefs(tree);
      assert nodes == Memory().Keys;
    }

    lemma RestrictedAll()
      requires Valid()
      ensures Restricted(contents, Inorder(tree)) == contents
    {
      OrderedNodes();
      forall k | k in contents ensures k in (set n | n in Inorder(tree) :: n.key) {
        var n :| n in nodes && n.key == k;
        assert n in Inorder(tree);
      }
    }

    // the entries of m for the keys of s
    static ghost function Restricted(m: map<Key, Value>, s: seq<Node>): map<Key, Value> {
      map k | k in m && k in (set n | n in s :: n.key) :: m[k]
    }

    static lemma RestrictedNext(m: map<Key, Value>, s: seq<Node>, i: nat)
      requires i < |s| && s[i].key in m
      ensures Restricted(m, s[..i + 1]) == Restricted(m, s[..i])[s[i].key := m[s[i].key]]
    {
      assert s[..i + 1] == s[..i] + [s[i]];
      var a, b := (set n | n in s[..i] :: n.key), (set n | n in s[..i + 1] :: n.key);
      assert b == a + {s[i].key};
    }
  }
}
