/** The balance argument for the two fixup loops of src/treemap.c, step by step.
    Side s is the side of the parent on which the loop's node hangs, so each lemma
    covers both mirrored branches of the loop body. */
module RedBlackSteps {
  import opened RedBlackTree

  // ---------- insertion ----------

  // treemap_insert_fixup: the node is red; everything is in order except that its
  // parent may be red too.
  ghost predicate InsertPending(c: Ctx, t: Tree) {
    Balanced(t) && IsRed(t) && Fits(c, BlackHeight(t), false)
  }

  lemma InsertDone(c: Ctx, t: Tree)
    requires InsertPending(c, t) && (c.Step? ==> !c.red)
    ensures c.Step? ==> RedBlack(Plug(c, t))
    ensures c.Top? ==> RedBlack(Paint(t, false))
  {
    PlugRedBlack(c, t);
  }

  // A red parent always has a black parent of its own.
  lemma InsertGrandparent(c: Ctx, t: Tree)
    requires InsertPending(c, t) && c.Step? && c.red
    ensures c.up.Step? && !c.up.red && !IsRed(c.sib)
  {
    assert Fits(c.up, BlackHeight(t), true);
  }

  // red uncle: recolour and climb two levels
  lemma InsertRedUncle(s1: Side, s2: Side, t: Tree, p: Node, sib: Tree, g: Node, uncle: Tree, up: Ctx)
    requires InsertPending(Step(s1, p, true, sib, Step(s2, g, false, uncle, up)), t) && IsRed(uncle)
    ensures InsertPending(up, Make(s2, Make(s1, t, p, false, sib), g, true, Paint(uncle, false)))
  {
    assert Fits(Step(s2, g, false, uncle, up), BlackHeight(t), true);
    assert Fits(up, BlackHeight(t) + 1, false);
  }

  // black uncle, node on the inner side: rotate the parent to get the outer case
  lemma InsertInner(s: Side, n: Node, near: Tree, far: Tree, p: Node, sib: Tree, g: Node, uncle: Tree, up: Ctx)
    requires InsertPending(Step(s.Other(), p, true, sib, Step(s, g, false, uncle, up)), Make(s, near, n, true, far))
    ensures InsertPending(Step(s, n, true, far, Step(s, g, false, uncle, up)), Make(s, sib, p, true, near))
  {
  }

  // black uncle, node on the outer side: recolour, rotate the grandparent, and stop
  lemma InsertOuter(s: Side, t: Tree, p: Node, sib: Tree, g: Node, uncle: Tree, up: Ctx)
    requires InsertPending(Step(s, p, true, sib, Step(s, g, false, uncle, up)), t) && !IsRed(uncle)
    ensures InsertPending(Step(s, p, false, Make(s, sib, g, true, uncle), up), t)
  {
    assert Fits(Step(s, g, false, uncle, up), BlackHeight(t), true);
  }

  // ---------- deletion ----------

  // treemap_delete_fixup: the subtree at node is one black short.
  ghost predicate DeletePending(c: Ctx, t: Tree) {
    Balanced(Paint(t, false)) && Fits(c, BlackHeight(t) + 1, false)
  }

  lemma DeleteDone(c: Ctx, t: Tree)
    requires DeletePending(c, t) && (c.Top? || IsRed(t))
    ensures RedBlack(Plug(c, Paint(t, false)))
  {
    PlugRedBlack(c, Paint(t, false));
  }

  // A black node that is one black short has a sibling, even when node is NULL.
  lemma DeleteSibling(c: Ctx, t: Tree)
    requires DeletePending(c, t) && c.Step?
    ensures c.sib.Bin?
    ensures IsRed(c.sib) ==> !c.red && c.sib.left.Bin? && c.sib.right.Bin?
    ensures IsRed(c.sib) ==> !IsRed(c.sib.left) && !IsRed(c.sib.right)
  {
  }

  lemma DeleteRedSibling(s: Side, t: Tree, p: Node, w: Node, near: Tree, far: Tree, up: Ctx)
    requires !IsRed(t) && DeletePending(Step(s, p, false, Make(s, near, w, true, far), up), t)
    ensures DeletePending(Step(s, p, true, near, Step(s, w, false, far, up)), t)
    ensures near.Bin? && !IsRed(near)
  {
  }

  lemma DeleteBlackNephews(s: Side, t: Tree, p: Node, rp: bool, w: Node, near: Tree, far: Tree, up: Ctx)
    requires !IsRed(t) && DeletePending(Step(s, p, rp, Make(s, near, w, false, far), up), t)
    requires !IsRed(near) && !IsRed(far)
    ensures DeletePending(up, Make(s, t, p, rp, Make(s, near, w, true, far)))
  {
    assert Paint(t, false) == t;
    var w' := Make(s, near, w, true, far);
    assert Balanced(w') && BlackHeight(w') == BlackHeight(t);
    assert Balanced(Make(s, t, p, false, w'));
    assert Fits(up, if rp then BlackHeight(t) + 1 else BlackHeight(t) + 2, rp);
  }

  lemma DeleteNearNephew(s: Side, t: Tree, p: Node, rp: bool, w: Node, z: Node, zn: Tree, zf: Tree, far: Tree, up: Ctx)
    requires !IsRed(t) && !IsRed(far)
    requires DeletePending(Step(s, p, rp, Make(s, Make(s, zn, z, true, zf), w, false, far), up), t)
    ensures DeletePending(Step(s, p, rp, Make(s, zn, z, false, Make(s, zf, w, true, far)), up), t)
  {
    var near := Make(s, zn, z, true, zf);
    assert Balanced(near) && Balanced(far) && BlackHeight(near) == BlackHeight(far);
    assert Balanced(Make(s, zf, w, true, far));
  }

  lemma DeleteFarNephew(s: Side, t: Tree, p: Node, rp: bool, w: Node, near: Tree, far: Tree, up: Ctx)
    requires !IsRed(t) && IsRed(far)
    requires DeletePending(Step(s, p, rp, Make(s, near, w, false, far), up), t)
    ensures RedBlack(Plug(up, Make(s, Make(s, t, p, false, near), w, rp, Paint(far, false))))
  {
    var t' := Make(s, Make(s, t, p, false, near), w, rp, Paint(far, false));
    assert Paint(t, false) == t;
    assert Balanced(near) && Balanced(far) && BlackHeight(near) == BlackHeight(far) == BlackHeight(t);
    assert Balanced(Make(s, t, p, false, near)) && Balanced(Paint(far, false));
    assert BlackHeight(Make(s, t, p, false, near)) == BlackHeight(Paint(far, false)) == BlackHeight(t) + 1;
    assert Fits(up, if rp then BlackHeight(t) + 1 else BlackHeight(t) + 2, rp);
    assert BlackHeight(t') == if rp then BlackHeight(t) + 1 else BlackHeight(t) + 2;
    PlugRedBlack(up, t');
  }

  // What is left when a node with at most one child, x, is taken out.
  lemma RemovalPending(c: Ctx, s: Side, y: Node, red: bool, x: Tree)
    requires RedBlack(Plug(c, Make(s, x, y, red, Nil)))
    ensures if red then RedBlack(Plug(c, x)) else DeletePending(c, x)
  {
    PlugRedBlack(c, Make(s, x, y, red, Nil));
    PlugRedBlack(c, x);
  }

  // Balance does not depend on which node sits where.
  lemma {:induction false} FitsOther(k: Ctx, s: Side, z: Node, y: Node, red: bool, l: Tree, c: Ctx, h: nat, r: bool)
    requires Fits(Append(k, Step(s, z, red, l, c)), h, r)
    ensures Fits(Append(k, Step(s, y, red, l, c)), h, r)
  {
    if k.Step? {
      FitsOther(k.up, s, z, y, red, l, c, if k.red then h else h + 1, k.red);
    }
  }

  // z's successor y, taken out of the hole of k below z, replaces z.
  lemma SuccessorPending(k: Ctx, z: Node, y: Node, red: bool, ry: bool, l: Tree, x: Tree, c: Ctx)
    requires RedBlack(Plug(Append(k, Step(Right, z, red, l, c)), Bin(Nil, y, ry, x)))
    ensures var kc := Append(k, Step(Right, y, red, l, c));
            if ry then RedBlack(Plug(kc, x)) else DeletePending(kc, x)
  {
    var kz := Append(k, Step(Right, z, red, l, c));
    RemovalPending(kz, Right, y, ry, x);
    if ry {
      PlugRedBlack(kz, x);
      FitsOther(k, Right, z, y, red, l, c, BlackHeight(x), IsRed(x));
      PlugRedBlack(Append(k, Step(Right, y, red, l, c)), x);
    } else {
      FitsOther(k, Right, z, y, red, l, c, BlackHeight(x) + 1, false);
    }
  }
}
