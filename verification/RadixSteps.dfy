/** What each change that src/radixmap.c makes to the siblings in a hole does to the whole:
    storing at a node, adding a leaf, splitting an edge, cutting a subtree off, and merging
    a node with its only child. */
module RadixSteps {
  import opened Options
  import opened RadixForest

  // f' is f with x under the key; it is as compressed as f
  ghost predicate Changed(f: Forest, f': Forest, key: string, x: Option<Value>) {
    && Updated(f, f', key, x)
    && Values(f') + (if Stored(f, key).Some? then 1 else 0) == Values(f) + (if x.Some? then 1 else 0)
    && Keeps(f, f', 1) && Keeps(f, f', 2)
  }

  ghost predicate Keeps(f: Forest, f': Forest, need: nat) {
    Shaped(f, need) ==> Shaped(f', need)
  }

  // a change in a hole that shows the same first characters and the same number of siblings
  lemma PlugChanged(c: Ctx, t: Forest, t': Forest, k: string, x: Option<Value>, key: string)
    requires Leads(c, k, key) && Changed(t, t', k, x)
    requires Firsts(t') == Firsts(t) && Len(t') == Len(t)
    requires c.Step? ==> Compressed(t, 1)
    ensures Changed(Plug(c, t), Plug(c, t'), key, x)
  {
    PlugUpdated(c, t, t', k, x, key);
    PlugValues(c, t, t');
    PlugStored(c, t, k, key);
    PlugKeeps(c, t, t', 1);
    PlugKeeps(c, t, t', 2);
  }

  lemma {:induction false} PlugKeeps(c: Ctx, t: Forest, t': Forest, need: nat)
    requires Keeps(t, t', need) && Firsts(t') == Firsts(t) && Len(t') == Len(t)
    requires c.Step? ==> (Compressed(t, need) ==> Compressed(t', need))
    ensures Keeps(Plug(c, t), Plug(c, t'), need)
  {
    if c.Step? {
      var f := Make(c.field, t, c.node, c.segment, c.value, c.other);
      var f' := Make(c.field, t', c.node, c.segment, c.value, c.other);
      PlugKeeps(c.up, f, f', need);
    }
  }

  // ---------- radixmap_set ----------

  lemma StoreChanged(t: Forest, x: Value)
    requires t.Tree? && Shaped(t, 1)
    ensures var t' := t.(value := Some(x));
      && Changed(t, t', t.segment, Some(x)) && Firsts(t') == Firsts(t)
      && Values(t') == Values(t) + if t.value.Some? then 0 else 1
  {
    var t' := t.(value := Some(x));
    assert t.segment[|t.segment|..] == "";
    NoFirst(t.child, "");
    NoFirst(t.next, t.segment);
  }

  lemma LeafChanged(c: Ctx, k: string, key: string, leaf: Node, x: Value)
    requires Leads(c, k, key) && k != ""
    ensures Changed(Plug(c, Nil), Plug(c, Tree(leaf, k, Some(x), Nil, Nil)), key, Some(x))
  {
    var t' := Tree(leaf, k, Some(x), Nil, Nil);
    PlugUpdated(c, Nil, t', k, Some(x), key);
    PlugValues(c, Nil, t');
    PlugStored(c, Nil, k, key);
    GrowKeeps(c, k, key, Nil, t', 1);
    GrowKeeps(c, k, key, Nil, t', 2);
  }

  // one more sibling, with a first character that the key has and no sibling before
  lemma {:induction false} GrowKeeps(c: Ctx, k: string, key: string, t: Forest, t': Forest, need: nat)
    requires Leads(c, k, key) && k != ""
    requires Firsts(t') == Firsts(t) + {k[0]} && Len(t') == Len(t) + 1 && (Compressed(t, need) ==> Compressed(t', need))
    ensures c.Step? ==> Keeps(Plug(c, t), Plug(c, t'), need)
  {
    if c.Step? {
      var f := Make(c.field, t, c.node, c.segment, c.value, c.other);
      var f' := Make(c.field, t', c.node, c.segment, c.value, c.other);
      if c.field.Child? {
        PlugKeeps(c.up, f, f', need);
      } else {
        assert Firsts(f') == Firsts(f) + {k[0]};
        assert c.up.Top? ==> Plug(c, t) == f && Plug(c, t') == f';
        GrowKeeps(c.up, k, key, f, f', need);
      }
    }
  }

  // k and the segment of t agree on exactly n characters, fewer than the segment has
  ghost predicate Parts(t: Forest, k: string, n: nat) {
    && t.Tree? && 0 < n < |t.segment| && n <= |k| && t.segment[..n] == k[..n]
    && (n < |k| ==> k[n] != t.segment[n])
  }

  // the edge of t split after n characters, and x stored under k
  ghost function Split(t: Forest, k: string, n: nat, prefix: Node, leaf: Node, x: Value): Forest
    requires Parts(t, k, n)
  {
    var rest := Tree(t.node, t.segment[n..], t.value, t.child, Nil);
    if n == |k| then Tree(prefix, k, Some(x), rest, t.next)
    else Tree(prefix, k[..n], None, Tree(leaf, k[n..], Some(x), Nil, rest), t.next)
  }

  lemma SplitChanged(t: Forest, k: string, n: nat, prefix: Node, leaf: Node, x: Value)
    requires Compressed(t, 1) && Parts(t, k, n)
    ensures var t' := Split(t, k, n, prefix, leaf, x);
      && Changed(t, t', k, Some(x)) && Firsts(t') == Firsts(t) && Len(t') == Len(t)
      && Values(t') == Values(t) + 1 && Compressed(t', 1)
  {
    assert k != "" && k[0] == k[..n][0] == t.segment[..n][0] == t.segment[0];
    assert !(t.segment <= k) by {
      assert n < |k| ==> k[n] != t.segment[n];
    }
    Enter(t, k);
    NoFirst(t.next, k);
    SplitUpdated(t, k, n, prefix, leaf, x);
    SplitKeeps(t, k, n, prefix, leaf, x, 1);
    SplitKeeps(t, k, n, prefix, leaf, x, 2);
  }

  lemma Alone(f: Forest)
    requires f.Tree? && f.segment != "" && f.next.Nil?
    ensures Firsts(f) == {f.segment[0]} && Len(f) == 1
  {
    assert Firsts(f.next) == {} && Len(f.next) == 0;
  }

  lemma SplitKeeps(t: Forest, k: string, n: nat, prefix: Node, leaf: Node, x: Value, need: nat)
    requires Parts(t, k, n) && need <= 2
    ensures var t' := Split(t, k, n, prefix, leaf, x);
      Keeps(t, t', need) && Firsts(t') == Firsts(t) && Len(t') == Len(t) && Values(t') == Values(t) + 1
  {
    assert k[0] == k[..n][0] == t.segment[..n][0] == t.segment[0];
    var rest := Tree(t.node, t.segment[n..], t.value, t.child, Nil);
    assert t.segment[n..][0] == t.segment[n] && (n < |k| ==> k[n..][0] == k[n]);
    Alone(rest);
    assert Values(rest) == (if t.value.Some? then 1 else 0) + Values(t.child);
    assert Compressed(t, need) ==> Compressed(rest, need);
    if n < |k| {
      var both := Tree(leaf, k[n..], Some(x), Nil, rest);
      assert Len(both) == 2 && Values(both) == 1 + Values(rest);
      assert Compressed(t, need) ==> Compressed(both, need);
    }
  }

  lemma SplitUpdated(t: Forest, k: string, n: nat, prefix: Node, leaf: Node, x: Value)
    requires Parts(t, k, n) && Stored(t.next, k).None?
    ensures Updated(t, Split(t, k, n, prefix, leaf, x), k, Some(x))
  {
    var p, s, rest := t.segment[..n], k[n..], Tree(t.node, t.segment[n..], t.value, t.child, Nil);
    var between := Tree(prefix, p, None, rest, t.next);
    assert t.segment == p + t.segment[n..];
    forall q ensures Stored(between, q) == Stored(t, q) {
      JoinedStored(t.node, prefix, t.node, p, t.segment[n..], t.value, t.child, t.next, q);
    }
    assert k == p + s;
    if n < |k| {
      var both := Tree(leaf, s, Some(x), Nil, rest);
      assert Updated(rest, both, s, Some(x));
      UpdateChild(rest, both, s, Some(x), prefix, p, None, t.next);
    } else {
      assert k == p;
    }
  }

  // an edge stores what its two parts in a row do
  lemma JoinedStored(w: Node, x: Node, y: Node, p: string, s: string, value: Option<Value>, child: Forest,
          next: Forest, q: string)
    ensures Stored(Tree(x, p, None, Tree(y, s, value, child, Nil), next), q) ==
        Stored(Tree(w, p + s, value, child, next), q)
  {
    assert p + s <= q ==> p <= q by {
      assert p + s <= q ==> q[..|p|] == (p + s)[..|p|] == p;
    }
    if p <= q {
      assert q == p + q[|p|..];
      CommonPrefix(p, s, q[|p|..]);
      assert Stored(Tree(y, s, value, child, Nil), q[|p|..]) ==
        if q == p + s && value.Some? then value
        else if p + s <= q then Stored(child, q[|p + s|..])
        else None;
    }
  }

  lemma CommonPrefix(p: string, s: string, r: string)
    ensures p + s <= p + r <==> s <= r
    ensures p + s == p + r <==> s == r
    ensures s <= r ==> (p + r)[|p + s|..] == r[|s|..]
  {
    assert (p + r)[|p|..] == r && (p + s)[|p|..] == s;
    if s <= r {
      assert r == s + r[|s|..];
      assert p + r == (p + s) + r[|s|..];
    }
    if p + s <= p + r {
      assert r[..|s|] == (p + r)[|p|..|p| + |s|];
    }
  }

  // ---------- the whole map ----------

  // f, from the root on, is a compressed tree of the map m
  ghost predicate Sound(f: Forest, size: nat, m: map<string, Value>) {
    && f.Tree? && f.segment == "" && Shaped(f, 1)
    && Holds(f, m) && size == Values(f) == |m|
  }

  lemma DeleteSound(f: Forest, f': Forest, key: string, ok: bool, skipped: bool, size: nat, m: map<string, Value>)
    requires Sound(f, size, m) && (ok <==> Stored(f, key).Some?)
    requires if ok then Deleted(f, f', key, false, skipped) else f' == f
    ensures (ok <==> key in m) && (ok ==> size > 0)
    ensures Sound(f', if ok then size - 1 else size, m - {key}) && ((ok && skipped) || Keeps(f, f', 2))
  {
    assert f.segment + key == key;
    forall k ensures Stored(f', k) == if k in m - {key} then Some((m - {key})[k]) else None {
      assert Stored(f, k) == if k in m then Some(m[k]) else None;
    }
    assert (m - {key}).Keys == m.Keys - {key};
    assert !ok ==> m - {key} == m;
  }

  lemma CopiesSound(f: Forest, g: Forest, size: nat, m: map<string, Value>)
    requires Sound(f, size, m) && Copies(f, g)
    ensures Sound(g, size, m) && Keeps(f, g, 2)
  {
    CopiesCompressed(f, g, 1);
    CopiesCompressed(f.child, g.child, 1);
    CopiesCompressed(f.child, g.child, 2);
    forall k ensures Stored(g, k) == Stored(f, k) {
      CopiesStored(f, g, k);
    }
  }

  lemma HereSound(c: Ctx, t: Forest, key: string, x: Value, size: nat, m: map<string, Value>)
    requires Sound(Plug(c, t), size, m) && t.Tree? && Shaped(t, 1)
    requires Leads(c, t.segment, key) && (c.Step? ==> t.segment != "")
    ensures var f, f' := Plug(c, t), Plug(c, t.(value := Some(x)));
      Sound(f', if t.value.Some? then size else size + 1, m[key := x]) && Keeps(f, f', 2)
  {
    var t' := t.(value := Some(x));
    StoreChanged(t, x);
    PlugChanged(c, t, t', t.segment, Some(x), key);
    PlugValues(c, t, t');
    RootSegment(c, t, t');
  }

  lemma LeafSound(c: Ctx, k: string, leaf: Node, key: string, x: Value, size: nat, m: map<string, Value>)
    requires Sound(Plug(c, Nil), size, m) && c.Step? && Leads(c, k, key) && k != ""
    ensures var f, f' := Plug(c, Nil), Plug(c, Tree(leaf, k, Some(x), Nil, Nil));
      Sound(f', size + 1, m[key := x]) && Keeps(f, f', 2)
  {
    var t' := Tree(leaf, k, Some(x), Nil, Nil);
    LeafChanged(c, k, key, leaf, x);
    PlugValues(c, Nil, t');
    RootSegment(c, Nil, t');
  }

  lemma SplitSound(c: Ctx, t: Forest, k: string, n: nat, prefix: Node, leaf: Node, key: string, x: Value, size: nat,
          m: map<string, Value>)
    requires Sound(Plug(c, t), size, m) && c.Step? && Compressed(t, 1) && Parts(t, k, n) && Leads(c, k, key)
    ensures var f, f' := Plug(c, t), Plug(c, Split(t, k, n, prefix, leaf, x));
      Sound(f', size + 1, m[key := x]) && Keeps(f, f', 2)
  {
    var t' := Split(t, k, n, prefix, leaf, x);
    SplitChanged(t, k, n, prefix, leaf, x);
    PlugChanged(c, t, t', k, Some(x), key);
    PlugValues(c, t, t');
    RootSegment(c, t, t');
  }

  // ---------- radixmap_delete_node ----------

  // t' is t without the value below it under k. When nothing else was at t, the caller is to
  // cut it off. A canonical t stays canonical unless memory for merging segments ran out.
  ghost predicate Deleted(t: Forest, t': Forest, k: string, removeSelf: bool, skipped: bool) {
    && t.Tree? && t'.Tree? && t'.node == t.node && t'.next == t.next
    && t.segment <= t'.segment && (t.segment == "" ==> t'.segment == "" && !removeSelf)
    && Updated(t, t', t.segment + k, None) && Values(t') + 1 == Values(t)
    && (removeSelf ==> t'.value.None? && t'.child.Nil?)
    && (removeSelf || (Keeps(t, t', 1) && (skipped || Keeps(t, t', 2))))
  }

  // the value is gone from t, whose own shape has not been looked at
  ghost predicate Emptied(t: Forest, t': Forest, k: string, skipped: bool) {
    && t.Tree? && t'.Tree? && t'.node == t.node && t'.next == t.next && t'.segment == t.segment
    && Updated(t, t', t.segment + k, None) && Values(t') + 1 == Values(t)
    && KeepsCompressed(t.child, t'.child, 1) && (skipped || KeepsCompressed(t.child, t'.child, 2))
  }

  ghost predicate KeepsCompressed(f: Forest, f': Forest, need: nat) {
    Compressed(f, need) ==> Compressed(f', need)
  }

  // the value of t itself is deleted
  lemma ValueEmptied(t: Forest)
    requires t.Tree? && Shaped(t, 1) && t.value.Some?
    ensures Emptied(t, t.(value := None), "", false)
  {
    var t' := t.(value := None);
    assert t.segment + "" == t.segment;
    NoFirst(t.child, "");
    NoFirst(t.next, t.segment);
    forall q ensures Stored(t', q) == if q == t.segment then None else Stored(t, q) {
      if q == t.segment {
        assert q[|t.segment|..] == "";
      }
    }
  }

  // c is a run of siblings
  ghost predicate Chain(c: Ctx) { c.Step? ==> c.field.Next? && Chain(c.up) }

  lemma {:induction false} ChainCompressed(c: Ctx, t: Forest, need: nat)
    requires Chain(c) && Compressed(Plug(c, t), need)
    ensures Compressed(t, need)
  {
    if c.Step? {
      ChainCompressed(c.up, Make(c.field, t, c.node, c.segment, c.value, c.other), need);
    }
  }

  lemma {:induction false} ShrinkKeeps(c: Ctx, t: Forest, t': Forest, need: nat)
    requires Chain(c) && Firsts(t') <= Firsts(t) && KeepsCompressed(t, t', need)
    ensures KeepsCompressed(Plug(c, t), Plug(c, t'), need)
  {
    if c.Step? {
      ShrinkKeeps(c.up, Make(c.field, t, c.node, c.segment, c.value, c.other),
                  Make(c.field, t', c.node, c.segment, c.value, c.other), need);
    }
  }

  // A value is deleted below the child u of t, and u is cut off if nothing is left of it.
  lemma ChildEmptied(t: Forest, c: Ctx, u: Forest, u': Forest, k: string, bare: bool, skipped: bool)
    requires t.Tree? && Shaped(t, 1) && t.child == Plug(c, u) && Chain(c) && Leads(c, k, k)
    requires u.Tree? && u.segment <= k && Deleted(u, u', k[|u.segment|..], bare, skipped)
    ensures Emptied(t, t.(child := Plug(c, if bare then u'.next else u')), k, skipped)
  {
    var w := if bare then u'.next else u';
    ChainCompressed(c, u, 1);
    assert k != "" && k == u.segment + k[|u.segment|..];
    CutUpdated(u, u', k[|u.segment|..], bare, skipped);
    PlugUpdated(c, u, w, k, None, k);
    PlugValues(c, u, w);
    NoFirst(t.next, t.segment + k);
    UpdateChild(t.child, Plug(c, w), k, None, t.node, t.segment, t.value, t.next);
    ChildKeeps(c, u, u', bare, 1);
    if !skipped {
      ChildKeeps(c, u, u', bare, 2);
    }
  }

  // cutting off what holds nothing changes nothing
  lemma CutUpdated(u: Forest, u': Forest, r: string, bare: bool, skipped: bool)
    requires Deleted(u, u', r, bare, skipped)
    ensures var w := if bare then u'.next else u';
      Updated(u, w, u.segment + r, None) && Values(w) == Values(u')
  {
    if bare {
      assert Stored(Nil, r).None?;
      forall q ensures Stored(u'.next, q) == Stored(u', q) {
      }
    }
  }

  lemma ChildKeeps(c: Ctx, u: Forest, u': Forest, bare: bool, need: nat)
    requires Chain(c) && u.Tree? && u'.Tree? && u.segment <= u'.segment && u'.next == u.next && u.segment != ""
    requires bare || Keeps(u, u', need)
    ensures KeepsCompressed(Plug(c, u), Plug(c, if bare then u'.next else u'), need)
  {
    assert u'.segment[0] == u.segment[0];
    ShrinkKeeps(c, u, if bare then u'.next else u', need);
  }

  // What is left at a node after the deletion: nothing more to do at the root, at a node with
  // a value, or at one with two children.
  lemma KeptDeleted(t: Forest, t1: Forest, k: string, skipped: bool)
    requires Emptied(t, t1, k, skipped) && (t.segment == "" || t1.value.Some? || Len(t1.child) >= 2)
    ensures Deleted(t, t1, k, false, skipped)
  {
  }

  lemma BareDeleted(t: Forest, t1: Forest, k: string, skipped: bool)
    requires Emptied(t, t1, k, skipped) && t.segment != "" && t1.value.None? && t1.child.Nil?
    ensures Deleted(t, t1, k, true, skipped)
  {
  }

  // the merge is skipped
  lemma SkippedDeleted(t: Forest, t1: Forest, k: string, skipped: bool)
    requires Emptied(t, t1, k, skipped) && t1.value.None? && t1.child.Tree?
    ensures Deleted(t, t1, k, false, true)
  {
  }

  // a node without a value takes over its only child
  ghost function Merged(t: Forest): Forest
    requires t.Tree? && t.child.Tree?
  {
    Tree(t.node, t.segment + t.child.segment, t.child.value, t.child.child, t.next)
  }

  lemma MergedDeleted(t: Forest, t1: Forest, k: string, skipped: bool)
    requires Emptied(t, t1, k, skipped) && t.segment != "" && t1.value.None? && t1.child.Tree? && t1.child.next.Nil?
    ensures Deleted(t, Merged(t1), k, false, skipped)
  {
    var t2, y := Merged(t1), t1.child;
    assert t1.child == Tree(y.node, y.segment, y.value, y.child, Nil);
    forall q ensures Stored(t2, q) == Stored(t1, q) {
      JoinedStored(t.node, t.node, y.node, t1.segment, y.segment, y.value, y.child, t1.next, q);
    }
    assert Values(y) == (if y.value.Some? then 1 else 0) + Values(y.child);
    assert t2.segment[0] == t.segment[0];
    assert Updated(t, t2, t.segment + k, None);
  }
}
