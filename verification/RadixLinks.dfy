/** How the pointers of the nodes represent a radix map. A snapshot of the heap is a map
    from nodes to their fields; the lemmas say which forest the snapshot represents after
    each pointer change of src/radixmap.c. */
module RadixLinks {
  import opened Options
  import opened RadixForest
  import opened RadixSteps

  datatype Cell = Cell(child: Node?, next: Node?, segment: string, value: Option<Value>) {
    function Set(field: Field, p: Node?): Cell {
      if field.Child? then this.(child := p) else this.(next := p)
    }
  }

  type Mem = map<Node, Cell>

  ghost function Root(f: Forest): Node? { if f.Nil? then null else f.node }

  ghost function MakeCell(field: Field, hole: Node?, segment: string, value: Option<Value>, other: Node?): Cell {
    if field.Child? then Cell(hole, other, segment, value) else Cell(other, hole, segment, value)
  }

  ghost function Refs(f: Forest): set<Node> {
    if f.Nil? then {} else {f.node} + Refs(f.child) + Refs(f.next)
  }

  ghost function CtxRefs(c: Ctx): set<Node> {
    if c.Top? then {} else {c.node} + Refs(c.other) + CtxRefs(c.up)
  }

  ghost predicate Distinct(f: Forest) {
    f.Tree? ==>
      && f.node !in Refs(f.child) && f.node !in Refs(f.next) && Refs(f.child) !! Refs(f.next)
      && Distinct(f.child) && Distinct(f.next)
  }

  ghost predicate DistinctCtx(c: Ctx) {
    c.Step? ==>
      && c.node !in Refs(c.other) && c.node !in CtxRefs(c.up) && Refs(c.other) !! CtxRefs(c.up)
      && Distinct(c.other) && DistinctCtx(c.up)
  }

  ghost predicate Shape(m: Mem, f: Forest) {
    f.Tree? ==>
      && f.node in m && m[f.node] == Cell(Root(f.child), Root(f.next), f.segment, f.value)
      && Shape(m, f.child) && Shape(m, f.next)
  }

  // the surroundings of a hole whose first node is hole are c
  ghost predicate CtxShape(m: Mem, c: Ctx, hole: Node?) {
    c.Step? ==>
      && c.node in m && m[c.node] == MakeCell(c.field, hole, c.segment, c.value, Root(c.other))
      && Shape(m, c.other) && CtxShape(m, c.up, c.node)
  }

  lemma {:induction false} PlugParts(m: Mem, c: Ctx, t: Forest)
    ensures Refs(Plug(c, t)) == CtxRefs(c) + Refs(t)
    ensures Distinct(Plug(c, t)) <==> DistinctCtx(c) && Distinct(t) && CtxRefs(c) !! Refs(t)
    ensures Shape(m, Plug(c, t)) <==> CtxShape(m, c, Root(t)) && Shape(m, t)
  {
    if c.Step? {
      PlugParts(m, c.up, Make(c.field, t, c.node, c.segment, c.value, c.other));
    }
  }

  // m holds exactly the nodes of f, linked as f says
  ghost predicate Represents(m: Mem, f: Forest) {
    m.Keys == Refs(f) && Distinct(f) && Shape(m, f)
  }

  lemma Look(m: Mem, c: Ctx, t: Forest)
    requires Represents(m, Plug(c, t))
    ensures t.Tree? ==> t.node in m && m[t.node] == Cell(Root(t.child), Root(t.next), t.segment, t.value)
    ensures c.Step? ==> c.node in m && m[c.node] == MakeCell(c.field, Root(t), c.segment, c.value, Root(c.other))
    ensures c.Step? ==> Root(t) != c.node
  {
    PlugParts(m, c, t);
  }

  // ---------- framing ----------

  ghost predicate Agree(m: Mem, m': Mem, s: set<Node>) {
    forall x | x in s && x in m :: x in m' && m'[x] == m[x]
  }

  lemma {:induction false} FrameShape(m: Mem, m': Mem, f: Forest)
    requires Shape(m, f) && Agree(m, m', Refs(f))
    ensures Shape(m', f)
  {
    if f.Tree? {
      FrameShape(m, m', f.child);
      FrameShape(m, m', f.next);
    }
  }

  lemma {:induction false} FrameCtx(m: Mem, m': Mem, c: Ctx, hole: Node?)
    requires CtxShape(m, c, hole) && Agree(m, m', CtxRefs(c))
    ensures CtxShape(m', c, hole)
  {
    if c.Step? {
      FrameShape(m, m', c.other);
      FrameCtx(m, m', c.up, c.node);
    }
  }

  // the link into the hole is changed to p, and nothing else around the hole
  ghost predicate Relinked(m: Mem, m': Mem, c: Ctx, p: Node?) {
    && Agree(m, m', if c.Top? then {} else CtxRefs(c) - {c.node})
    && (c.Step? && c.node in m ==> c.node in m' && m'[c.node] == m[c.node].Set(c.field, p))
  }

  // another forest is hung into the hole
  lemma Graft(m: Mem, m': Mem, c: Ctx, t: Forest, t': Forest)
    requires Represents(m, Plug(c, t)) && Relinked(m, m', c, Root(t'))
    requires Shape(m', t') && Distinct(t') && Refs(t') !! CtxRefs(c) && m'.Keys == CtxRefs(c) + Refs(t')
    ensures Represents(m', Plug(c, t'))
  {
    PlugParts(m, c, t);
    PlugParts(m', c, t');
    if c.Step? {
      FrameShape(m, m', c.other);
      FrameCtx(m, m', c.up, c.node);
    }
  }

  // ---------- the changes ----------

  ghost predicate Elsewhere(m: Mem, m': Mem, s: set<Node>) {
    forall x | x in m && x !in s :: x in m' && m'[x] == m[x]
  }

  // a node gets another value
  ghost predicate ValueLinks(m: Mem, m': Mem, x: Node, value: Option<Value>) {
    && x in m && m'.Keys == m.Keys && Elsewhere(m, m', {x}) && m'[x] == m[x].(value := value)
  }

  lemma ValueRepresents(m: Mem, m': Mem, c: Ctx, t: Forest, value: Option<Value>)
    requires Represents(m, Plug(c, t)) && t.Tree? && ValueLinks(m, m', t.node, value)
    ensures Represents(m', Plug(c, t.(value := value)))
  {
    Look(m, c, t);
    PlugParts(m, c, t);
    FrameShape(m, m', t.child);
    FrameShape(m, m', t.next);
    Graft(m, m', c, t, t.(value := value));
  }

  // a new leaf is hung into an empty hole
  ghost predicate LeafLinks(m: Mem, m': Mem, c: Ctx, leaf: Node, segment: string, value: Option<Value>) {
    && c.Step? && c.node in m && leaf !in m && m'.Keys == m.Keys + {leaf} && Elsewhere(m, m', {c.node})
    && m'[leaf] == Cell(null, null, segment, value) && m'[c.node] == m[c.node].Set(c.field, leaf)
  }

  lemma LeafRepresents(m: Mem, m': Mem, c: Ctx, leaf: Node, segment: string, value: Option<Value>)
    requires Represents(m, Plug(c, Nil)) && LeafLinks(m, m', c, leaf, segment, value)
    ensures Represents(m', Plug(c, Tree(leaf, segment, value, Nil, Nil)))
  {
    Look(m, c, Nil);
    PlugParts(m, c, Nil);
    Graft(m, m', c, Nil, Tree(leaf, segment, value, Nil, Nil));
  }

  // an edge is split by a new prefix node, perhaps with a new leaf before the old node
  ghost predicate SplitLinks(m: Mem, m': Mem, c: Ctx, t: Forest, k: string, n: nat, prefix: Node, leaf: Node, x: Value)
    requires Parts(t, k, n)
  {
    && c.Step? && c.node in m && t.node in m && prefix !in m && (n < |k| ==> leaf !in m && prefix != leaf)
    && m'.Keys == m.Keys + (if n == |k| then {prefix} else {prefix, leaf})
    && Elsewhere(m, m', {t.node, c.node})
    && m'[c.node] == m[c.node].Set(c.field, prefix)
    && m'[t.node] == Cell(m[t.node].child, null, t.segment[n..], m[t.node].value)
    && m'[prefix] == (
         if n == |k| then Cell(t.node, m[t.node].next, k, Some(x))
         else Cell(leaf, m[t.node].next, k[..n], None))
    && (n < |k| ==> m'[leaf] == Cell(null, t.node, k[n..], Some(x)))
  }

  lemma SplitRepresents(m: Mem, m': Mem, c: Ctx, t: Forest, k: string, n: nat, prefix: Node, leaf: Node, x: Value)
    requires Represents(m, Plug(c, t)) && Parts(t, k, n) && SplitLinks(m, m', c, t, k, n, prefix, leaf, x)
    ensures Represents(m', Plug(c, Split(t, k, n, prefix, leaf, x)))
  {
    Look(m, c, t);
    PlugParts(m, c, t);
    SplitShape(m, m', t, k, n, prefix, leaf, x);
    Graft(m, m', c, t, Split(t, k, n, prefix, leaf, x));
  }

  lemma SplitShape(m: Mem, m': Mem, t: Forest, k: string, n: nat, prefix: Node, leaf: Node, x: Value)
    requires Parts(t, k, n) && Shape(m, t) && Distinct(t) && Refs(t) <= m.Keys
    requires prefix !in m && prefix in m' && (n < |k| ==> leaf !in m && prefix != leaf && leaf in m')
    requires Agree(m, m', Refs(t) - {t.node}) && t.node in m'
    requires m'[t.node] == Cell(Root(t.child), null, t.segment[n..], t.value)
    requires n == |k| ==> m'[prefix] == Cell(t.node, Root(t.next), k, Some(x))
    requires n < |k| ==> m'[prefix] == Cell(leaf, Root(t.next), k[..n], None)
    requires n < |k| ==> m'[leaf] == Cell(null, t.node, k[n..], Some(x))
    ensures var t' := Split(t, k, n, prefix, leaf, x);
      Shape(m', t') && Distinct(t') && Refs(t') == Refs(t) + if n == |k| then {prefix} else {prefix, leaf}
  {
    RestShape(m, m', t, t.segment[n..]);
  }

  lemma RestShape(m: Mem, m': Mem, t: Forest, segment: string)
    requires t.Tree? && Shape(m, t) && Distinct(t) && Agree(m, m', Refs(t) - {t.node}) && t.node in m'
    requires m'[t.node] == Cell(Root(t.child), null, segment, t.value)
    ensures var rest := Tree(t.node, segment, t.value, t.child, Nil);
      Shape(m', rest) && Distinct(rest) && Refs(rest) == {t.node} + Refs(t.child) && Shape(m', t.next)
  {
    FrameShape(m, m', t.child);
    FrameShape(m, m', t.next);
  }

  // the first node of the hole, without children, is taken out
  ghost predicate CutLinks(m: Mem, m': Mem, c: Ctx, x: Node) {
    && c.Step? && c.node in m && x in m && x != c.node && m'.Keys == m.Keys - {x} && Elsewhere(m, m', {c.node, x})
    && m'[c.node] == m[c.node].Set(c.field, m[x].next)
  }

  lemma CutRepresents(m: Mem, m': Mem, c: Ctx, t: Forest)
    requires Represents(m, Plug(c, t)) && t.Tree? && t.child.Nil? && CutLinks(m, m', c, t.node)
    ensures Represents(m', Plug(c, t.next))
  {
    Look(m, c, t);
    PlugParts(m, c, t);
    assert Refs(t) == {t.node} + Refs(t.next) && t.node !in CtxRefs(c);
    assert Shape(m', t.next) by {
      FrameShape(m, m', t.next);
    }
    assert Relinked(m, m', c, Root(t.next));
    Graft(m, m', c, t, t.next);
  }

  // a node takes over its only child
  ghost predicate MergeLinks(m: Mem, m': Mem, x: Node, y: Node) {
    && x in m && y in m && x != y && m'.Keys == m.Keys - {y} && Elsewhere(m, m', {x, y})
    && m'[x] == Cell(m[y].child, m[x].next, m[x].segment + m[y].segment, m[y].value)
  }

  lemma MergeRepresents(m: Mem, m': Mem, c: Ctx, t: Forest)
    requires Represents(m, Plug(c, t)) && t.Tree? && t.child.Tree? && t.child.next.Nil?
    requires MergeLinks(m, m', t.node, t.child.node)
    ensures Represents(m', Plug(c, Merged(t)))
  {
    Look(m, c, t);
    PlugParts(m, c, t);
    MergeShape(m, m', t);
    Graft(m, m', c, t, Merged(t));
  }

  lemma MergeShape(m: Mem, m': Mem, t: Forest)
    requires t.Tree? && t.child.Tree? && t.child.next.Nil? && Shape(m, t) && Distinct(t)
    requires MergeLinks(m, m', t.node, t.child.node)
    ensures Shape(m', Merged(t)) && Distinct(Merged(t)) && Refs(Merged(t)) == Refs(t) - {t.child.node}
  {
    var y := t.child;
    assert Shape(m, y) && Refs(y) == {y.node} + Refs(y.child);
    FrameShape(m, m', y.child);
    FrameShape(m, m', t.next);
  }

  lemma {:induction false} RefsCount(f: Forest)
    requires Distinct(f)
    ensures |Refs(f)| == Nodes(f)
  {
    if f.Tree? {
      RefsCount(f.child);
      RefsCount(f.next);
      assert Refs(f) == {f.node} + (Refs(f.child) + Refs(f.next));
    }
  }

  lemma PlugRoot(c: Ctx, t: Forest, t': Forest)
    requires c.Step? || Root(t) == Root(t')
    ensures Root(Plug(c, t)) == Root(Plug(c, t'))
  {
  }

  // a root by itself
  lemma SingleRoot(x: Node)
    ensures var t := Tree(x, "", None, Nil, Nil);
      Represents(map[x := Cell(null, null, "", None)], t) && Holds(t, map[]) && Shaped(t, 2) && Values(t) == 0
  {
  }
}
