/** src/radixmap.c: a compressed radix map from strings, as first-child/next-sibling nodes.
    A pointer to a link is the node that holds it and the field's name. Allocation and value
    copies may fail when memory is not plentiful. */
module RadixMaps {
  import opened Allocation
  import opened Options
  import opened RadixForest
  import opened RadixSteps
  import opened RadixLinks
  import opened RadixCanonical

  class RadixMap {
    var root: Node
    var size: nat
    ghost var nodes: set<Node>  // the allocated nodes
    ghost var tree: Forest      // how they are linked
    ghost var contents: map<string, Value>

    static ghost function Snapshot(s: set<Node>): Mem
      reads s
    {
      map n | n in s :: Cell(n.child, n.next, n.segment, n.value)
    }

    ghost function Memory(): Mem
      reads `nodes, nodes
    {
      Snapshot(nodes)
    }

    ghost predicate Linked(f: Forest)
      reads `root, `nodes, nodes
    {
      Represents(Memory(), f) && Root(f) == root
    }

    // the nodes make up a compressed tree of the map
    ghost predicate Valid()
      reads this, nodes
    {
      Linked(tree) && Sound(tree, size, contents)
    }

    // Besides the root, every node without a value has at least two children.
    ghost predicate Canonical()
      reads `tree
    {
      Shaped(tree, 2)
    }

    constructor ()
      ensures Valid() && Canonical() && contents == map[] && fresh(nodes)
    {
      var node := new Node("", None);
      root, size, nodes, tree, contents := node, 0, {node}, Tree(node, "", None, Nil, Nil), map[];
      new;
      SingleRoot(root);
      assert Memory() == map[root := Cell(null, null, "", None)];
    }

    // A canonical map is small.
    lemma FewNodes()
      requires Valid() && Canonical()
      ensures |nodes| <= 2 * size + 1
    {
      CanonicalNodes(tree.child);
      RefsCount(tree);
      assert Memory().Keys == nodes;
      assert Nodes(tree) == 1 + Nodes(tree.child) && Values(tree) >= Values(tree.child);
    }

    // the same tree but for the order of siblings; when exact, with the same values
    ghost predicate Resembles(other: RadixMap, exact: bool)
      reads `tree, other`tree
    {
      && tree.Tree? && other.tree.Tree?
      && Match(tree.value, other.tree.value, exact) && Alike(tree.child, other.tree.child, exact)
    }

    // The key set fixes the shape of a canonical map, up to the order of siblings, and the
    // shape the key set.
    lemma KeysFixShape(other: RadixMap)
      requires Valid() && Canonical() && other.Valid() && other.Canonical()
      ensures contents.Keys == other.contents.Keys <==> Resembles(other, false)
    {
      SameIffResembles(other, false);
      StoredMatch(other, false);
    }

    // The same with the values.
    lemma ContentsFixShape(other: RadixMap)
      requires Valid() && Canonical() && other.Valid() && other.Canonical()
      ensures contents == other.contents <==> Resembles(other, true)
    {
      SameIffResembles(other, true);
      StoredMatch(other, true);
    }

    lemma StoredMatch(other: RadixMap, exact: bool)
      requires Valid() && other.Valid()
      ensures SameKeys(tree, other.tree, exact)
         <==> if exact then contents == other.contents else contents.Keys == other.contents.Keys
    {
      if SameKeys(tree, other.tree, exact) {
        forall k ensures k in contents <==> k in other.contents {
          assert Match(Stored(tree, k), Stored(other.tree, k), exact);
        }
        forall k | exact && k in contents ensures contents[k] == other.contents[k] {
          assert Match(Stored(tree, k), Stored(other.tree, k), exact);
        }
      } else {
        var k :| !Match(Stored(tree, k), Stored(other.tree, k), exact);
        assert k in contents || k in other.contents;
      }
    }

    lemma SameIffResembles(other: RadixMap, exact: bool)
      requires Valid() && Canonical() && other.Valid() && other.Canonical()
      ensures SameKeys(tree, other.tree, exact) <==> Resembles(other, exact)
    {
      RootMatch(tree, other.tree, exact);
      if SameKeys(tree.child, other.tree.child, exact) {
        RadixCanonical.KeysFixShape(tree.child, other.tree.child, exact);
      }
      if Alike(tree.child, other.tree.child, exact) {
        ShapeFixesKeys(tree.child, other.tree.child, exact);
      }
    }

    // Only the root can store the empty key, and it stores nothing else.
    static lemma RootMatch(t: Forest, u: Forest, exact: bool)
      requires t.Tree? && t.segment == "" && Shaped(t, 1) && u.Tree? && u.segment == "" && Shaped(u, 1)
      ensures SameKeys(t, u, exact) <==> Match(t.value, u.value, exact) && SameKeys(t.child, u.child, exact)
    {
      NoFirst(t.child, "");
      NoFirst(u.child, "");
      forall k ensures Stored(t, k) == Below(t, k) && Stored(u, k) == Below(u, k) {
        RootStored(t, k);
        RootStored(u, k);
      }
      if SameKeys(t, u, exact) {
        assert Match(Stored(t, ""), Stored(u, ""), exact);
        forall k ensures Match(Stored(t.child, k), Stored(u.child, k), exact) {
          assert Match(Stored(t, k), Stored(u, k), exact);
        }
      }
      if Match(t.value, u.value, exact) && SameKeys(t.child, u.child, exact) {
        forall k ensures Match(Stored(t, k), Stored(u, k), exact) {
          assert Match(Stored(t.child, k), Stored(u.child, k), exact);
        }
      }
    }

    static lemma RootStored(t: Forest, k: string)
      requires t.Tree? && t.segment == "" && Shaped(t, 1)
      ensures Stored(t, k) == Below(t, k)
    {
      NoFirst(t.child, "");
      assert k[0..] == k;
    }

    // how far a segment and a key agree
    static method CommonPrefixLen(segment: string, key: string) returns (n: nat)
      ensures n <= |segment| && n <= |key| && segment[..n] == key[..n]
      ensures n < |segment| && n < |key| ==> segment[n] != key[n]
    {
      n := 0;
      while n < |segment| && n < |key| && segment[n] == key[n]
        invariant n <= |segment| && n <= |key| && segment[..n] == key[..n]
      {
        n := n + 1;
      }
    }

    lemma Reading(c: Ctx, t: Forest)
      requires Linked(Plug(c, t))
      ensures t.Tree? ==> t.node in nodes && t.node.child == Root(t.child) && t.node.next == Root(t.next)
      ensures t.Tree? ==> t.node.segment == t.segment && t.node.value == t.value
      ensures c.Step? ==> c.node in nodes && Root(t) != c.node
      ensures c.Step? ==> (if c.field.Child? then c.node.child else c.node.next) == Root(t)
    {
      Look(Memory(), c, t);
    }

    // The link to the child of node that starts with ch, or else the last link of the siblings:
    // the children are d around u, and k is any key that starts with ch.
    method FindChildLink(node: Node, ch: char, ghost c: Ctx, ghost t: Forest, ghost k: string)
      returns (owner: Node, field: Field, child: Node?, ghost d: Ctx, ghost u: Forest)
      requires Linked(Plug(c, t)) && t.Tree? && t.node == node && Compressed(t.child, 1)
      requires k != "" && k[0] == ch
      ensures Plug(d, u) == t.child && Chain(d) && Leads(d, k, k) && Compressed(u, 1) && Root(u) == child
      ensures u.Tree? ==> u.segment[0] == ch
      ensures Linked(Plug(Append(d, Inside(c, t)), u))
      ensures Append(d, Inside(c, t)).node == owner && Append(d, Inside(c, t)).field == field
    {
      owner, field := node, Child;
      Reading(c, t);
      child := node.child;
      d, u := Top, t.child;
      while child != null
        invariant Plug(d, u) == t.child && Chain(d) && Leads(d, k, k) && Compressed(u, 1) && Root(u) == child
        invariant Append(d, Inside(c, t)).node == owner && Append(d, Inside(c, t)).field == field
        decreases u
      {
        InsideChain(c, t, d, u);
        Reading(Append(d, Inside(c, t)), u);
        if child.segment[0] == ch {
          return;
        }
        d, u := Step(Next, u.node, u.segment, u.value, u.child, d), u.next;
        owner, field := child, Next;
        child := child.next;
      }
      InsideChain(c, t, d, u);
    }

    // The child of node whose segment starts the key, which is not empty, if there is one.
    method MatchChild(node: Node, key: string, ghost c: Ctx, ghost t: Forest)
      returns (owner: Node, field: Field, child: Node?, common: nat, ghost d: Ctx, ghost u: Forest)
      requires Linked(Plug(c, t)) && t.Tree? && t.node == node && Compressed(t.child, 1) && key != ""
      ensures child == null ==> Below(t, key).None?
      ensures child != null ==>
        && Plug(d, u) == t.child && Chain(d) && Leads(d, key, key) && Compressed(u, 1)
        && Append(d, Inside(c, t)).node == owner && Append(d, Inside(c, t)).field == field
        && u.Tree? && u.node == child && u.segment <= key && common == |u.segment| > 0
        && Below(t, key) == Below(u, key[common..])
    {
      owner, field, child, d, u := FindChildLink(node, key[0], c, t, key);
      common := 0;
      PlugStored(d, u, key, key);
      if child != null {
        Reading(Append(d, Inside(c, t)), u);
        Enter(u, key);
        common := CommonPrefixLen(child.segment, key);
        if common != |child.segment| {
          child := null;
        }
      }
    }

    // ---------- reading ----------

    method At(key: string) returns (r: Option<Value>)
      requires Valid()
      ensures r == if key in contents then Some(contents[key]) else None
    {
      var node, k := root, key;
      ghost var c, t := Top, tree;
      RootStored(tree, key);
      while k != ""
        invariant tree == Plug(c, t) && t.Tree? && t.node == node && Compressed(t.child, 1)
        invariant Stored(tree, key) == Below(t, k)
        decreases |k|
      {
        var owner, field, child, common;
        ghost var d, u;
        owner, field, child, common, d, u := MatchChild(node, k, c, t);
        if child == null {
          return None;
        }
        InsideChain(c, t, d, u);
        k := k[common..];
        node := child;
        c, t := Append(d, Inside(c, t)), u;
      }
      Reading(c, t);
      r := node.value;
    }

    method Contains(key: string) returns (found: bool)
      requires Valid()
      ensures found <==> key in contents
    {
      var r := At(key);
      found := r.Some?;
    }

    // Does any key start with the prefix? The prefix may end inside a segment.
    method HasPrefix(prefix: string) returns (found: bool)
      requires Valid()
      ensures found <==> exists k :: k in contents && prefix <= k
    {
      AnyBelowContents(prefix);
      if prefix == "" {
        SomeKey();
        return size != 0;
      }
      var node, p := root, prefix;
      ghost var c, t := Top, tree;
      RootPrefix(tree, prefix);
      while p != ""
        invariant tree == Plug(c, t) && t.Tree? && t.node == node && Compressed(t.child, 1)
        invariant AnyBelow(tree, prefix) <==> p == "" || AnyBelow(t.child, p)
        decreases |p|
      {
        var owner, field, child;
        ghost var d, u;
        owner, field, child, d, u := FindChildLink(node, p[0], c, t, p);
        ChainPrefix(d, u, p);
        if child == null {
          return false;
        }
        Reading(Append(d, Inside(c, t)), u);
        EnterPrefix(u, p);
        var common := CommonPrefixLen(child.segment, p);
        assert common > 0;
        if common == |p| {
          assert p <= u.segment;
          return common > 0;
        }
        if common != |child.segment| {
          return false;
        }
        InsideChain(c, t, d, u);
        p := p[common..];
        node := child;
        c, t := Append(d, Inside(c, t)), u;
      }
      return true;
    }

    lemma AnyBelowContents(prefix: string)
      requires Valid()
      ensures AnyBelow(tree, prefix) <==> exists k :: k in contents && prefix <= k
    {
      if AnyBelow(tree, prefix) {
        var k :| Stored(tree, k).Some? && prefix <= k;
        assert k in contents;
      }
      if exists k :: k in contents && prefix <= k {
        var k :| k in contents && prefix <= k;
        assert Stored(tree, k).Some?;
      }
    }

    lemma SomeKey()
      requires Valid()
      ensures size != 0 <==> exists k :: k in contents && "" <= k
    {
      if size != 0 {
        assert contents.Keys != {};
        var k :| k in contents.Keys;
        assert k in contents && "" <= k;
      }
    }

    static lemma RootPrefix(t: Forest, prefix: string)
      requires t.Tree? && t.segment == "" && Shaped(t, 1) && prefix != ""
      ensures AnyBelow(t, prefix) <==> AnyBelow(t.child, prefix)
    {
      forall k | prefix <= k ensures Stored(t, k) == Stored(t.child, k) {
        RootStored(t, k);
      }
    }

    static lemma {:induction false} ChainPrefix(d: Ctx, u: Forest, p: string)
      requires Chain(d) && Leads(d, p, p) && p != ""
      ensures AnyBelow(Plug(d, u), p) <==> AnyBelow(u, p)
    {
      forall k | p <= k ensures Stored(Plug(d, u), k) == Stored(u, k) {
        ChainLeads(d, p, k);
        PlugStored(d, u, k, k);
      }
    }

    static lemma {:induction false} ChainLeads(d: Ctx, p: string, k: string)
      requires Chain(d) && Leads(d, p, p) && p != "" && p <= k
      ensures Leads(d, k, k)
    {
      if d.Step? {
        ChainLeads(d.up, p, k);
      }
    }

    // ---------- radixmap_set ----------

    method StoreValue(node: Node, value: Option<Value>, ghost c: Ctx, ghost t: Forest)
      requires Linked(Plug(c, t)) && t.Tree? && t.node == node
      modifies nodes`value
      ensures Linked(Plug(c, t.(value := value)))
    {
      ghost var m := Memory();
      Reading(c, t);
      node.value := value;
      ValueRepresents(m, Memory(), c, t, value);
      PlugRoot(c, t, t.(value := value));
    }

    static method SetLink(owner: Node, field: Field, p: Node?)
      modifies owner`child, owner`next
      ensures owner.child == if field.Child? then p else old(owner.child)
      ensures owner.next == if field.Child? then old(owner.next) else p
    {
      if field.Child? {
        owner.child := p;
      } else {
        owner.next := p;
      }
    }

    method AttachLeaf(owner: Node, field: Field, segment: string, value: Value, ghost c: Ctx) returns (leaf: Node)
      requires c.Step? && c.node == owner && c.field == field && owner in nodes
      modifies `nodes, nodes`child, nodes`next
      ensures fresh(leaf) && nodes == old(nodes) + {leaf}
      ensures LeafLinks(old(Memory()), Memory(), c, leaf, segment, Some(value))
    {
      leaf := new Node(segment, Some(value));
      SetLink(owner, field, leaf);
      nodes := nodes + {leaf};
    }

    method AddLeaf(owner: Node, field: Field, segment: string, value: Value, ghost c: Ctx) returns (leaf: Node)
      requires Linked(Plug(c, Nil)) && c.Step? && c.node == owner && c.field == field
      modifies `nodes, nodes`child, nodes`next
      ensures old(nodes) <= nodes && fresh(nodes - old(nodes))
      ensures Linked(Plug(c, Tree(leaf, segment, Some(value), Nil, Nil)))
    {
      ghost var m := Memory();
      Reading(c, Nil);
      leaf := AttachLeaf(owner, field, segment, value, c);
      LeafRepresents(m, Memory(), c, leaf, segment, Some(value));
      PlugRoot(c, Nil, Tree(leaf, segment, Some(value), Nil, Nil));
    }

    // radixmap_split_insert once its allocations have succeeded
    method SplitEdge(owner: Node, field: Field, node: Node, key: string, common: nat, value: Value, ghost c: Ctx,
            ghost t: Forest)
      returns (prefix: Node, ghost leaf: Node)
      requires Linked(Plug(c, t)) && c.Step? && c.node == owner && c.field == field
      requires t.Tree? && t.node == node && Parts(t, key, common)
      modifies `nodes, nodes`child, nodes`next, nodes`segment
      ensures old(nodes) <= nodes && fresh(nodes - old(nodes))
      ensures Linked(Plug(c, Split(t, key, common, prefix, leaf, value)))
    {
      ghost var m := Memory();
      Reading(c, t);
      prefix, leaf := SplitNodes(owner, field, node, key, common, value, c, t);
      SplitRepresents(m, Memory(), c, t, key, common, prefix, leaf, value);
      PlugRoot(c, t, Split(t, key, common, prefix, leaf, value));
    }

    method SplitNodes(owner: Node, field: Field, node: Node, key: string, common: nat, value: Value, ghost c: Ctx,
            ghost t: Forest)
      returns (prefix: Node, ghost leaf: Node)
      requires c.Step? && c.node == owner && c.field == field && owner in nodes && node in nodes && owner != node
      requires Parts(t, key, common) && t.node == node && node.segment == t.segment
      modifies `nodes, nodes`child, nodes`next, nodes`segment
      ensures fresh(prefix) && fresh(leaf) && nodes == old(nodes) + if common == |key| then {prefix} else {prefix, leaf}
      ensures SplitLinks(old(Memory()), Memory(), c, t, key, common, prefix, leaf, value)
    {
      prefix, leaf := SplitBelow(node, key, common, value);
      SetLink(owner, field, prefix);
      nodes := nodes + if common == |key| then {prefix} else {prefix, leaf};
    }

    static method SplitBelow(node: Node, key: string, common: nat, value: Value)
        returns (prefix: Node, ghost leaf: Node)
      requires common <= |key| && common <= |node.segment|
      modifies node`next, node`segment
      ensures fresh(prefix) && fresh(leaf) && (common < |key| ==> prefix != leaf)
      ensures node.next == null && node.segment == old(node.segment[common..])
      ensures prefix.next == old(node.next) && prefix.segment == key[..common]
      ensures prefix.child == (if common == |key| then node else leaf)
      ensures prefix.value == (if common == |key| then Some(value) else None)
      ensures common < |key| ==> leaf.child == null && leaf.next == node
      ensures common < |key| ==> leaf.segment == key[common..] && leaf.value == Some(value)
    {
      var suffix := node.segment[common..];
      prefix := new Node(key[..common], None);
      var tail: Node? := null;
      if common == |key| {
        prefix.value := Some(value);
        leaf := prefix;
      } else {
        tail := new Node(key[common..], Some(value));
        leaf := tail;
      }

      prefix.next := node.next;
      prefix.child := node;

      node.segment := suffix;
      node.next := null;

      if tail != null {
        tail.next := prefix.child;
        prefix.child := tail;
      }
    }

    // Adds or replaces a value. A failed allocation or copy leaves the map as it was.
    method Set(key: string, value: Value, plenty: bool) returns (ok: bool)
      requires Valid()
      modifies this, nodes
      ensures Valid() && (old(Canonical()) ==> Canonical())
      ensures contents == if ok then old(contents)[key := value] else old(contents)
      ensures root == old(root) && old(nodes) <= nodes && fresh(nodes - old(nodes))
      ensures !ok ==> tree == old(tree) && nodes == old(nodes)
      ensures plenty ==> ok
    {
      var node, k, owner, field, child, common;
      ghost var c, t;
      node, k, owner, field, child, common, c, t := Descend(key);
      ok := Attempt(plenty);
      if ok {
        if k == "" {
          SetHere(node, value, c, t, key);
        } else if child == null {
          SetLeaf(owner, field, k, value, c, key);
        } else {
          SetSplit(owner, field, child, k, common, value, c, t, key);
        }
      }
    }

    // The loop of radixmap_set, up to what it does in the end: at node with nothing left of the
    // key, or at a link with k left, where no child or one that agrees on common characters is.
    method Descend(key: string)
      returns (node: Node, k: string, owner: Node, field: Field, child: Node?, common: nat, ghost c: Ctx,
              ghost t: Forest)
      requires Valid()
      ensures tree == Plug(c, t)
      ensures k == "" ==>
        && t.Tree? && t.node == node && Shaped(t, 1)
        && Leads(c, t.segment, key) && (c.Step? ==> t.segment != "")
      ensures k != "" ==>
        && c.Step? && c.node == owner && c.field == field
        && Root(t) == child && Compressed(t, 1) && Leads(c, k, key)
      ensures k != "" && child != null ==> Parts(t, k, common)
    {
      node, k := root, key;
      owner, field, child, common := root, Child, null, 0;
      c, t := Top, tree;
      while k != ""
        invariant tree == Plug(c, t) && t.Tree? && t.node == node && Shaped(t, 1)
        invariant Leads(c, t.segment + k, key) && (c.Step? ==> t.segment != "")
        decreases |k|
      {
        ghost var d, u;
        owner, field, child, d, u := FindChildLink(node, k[0], c, t, k);
        InsideChain(c, t, d, u);
        LeadsInside(c, t, d, k, key);
        c, t := Append(d, Inside(c, t)), u;
        if child == null {
          return;
        }
        Reading(c, t);
        common := CommonPrefixLen(child.segment, k);
        if common != |child.segment| {
          return;
        }
        assert k == t.segment + k[common..];
        node := child;
        k := k[common..];
      }
      assert t.segment + k == t.segment;
    }

    lemma LeadsInside(c: Ctx, t: Forest, d: Ctx, k: string, key: string)
      requires t.Tree? && Shaped(t, 1) && Leads(c, t.segment + k, key) && k != "" && Leads(d, k, k)
      ensures Leads(Append(d, Inside(c, t)), k, key)
    {
      assert (t.segment + k)[0] == if t.segment == "" then k[0] else t.segment[0];
      LeadsAppend(d, Inside(c, t), k, k, key);
    }

    // the last step of a change: the new size, and the tree and the map that the nodes now make up
    method Commit(newSize: nat, ghost f: Forest, ghost m: map<string, Value>)
      requires Linked(f) && Sound(f, newSize, m)
      modifies `size, `tree, `contents
      ensures Valid() && tree == f && contents == m && nodes == old(nodes)
    {
      size := newSize;
      tree, contents := f, m;
    }

    method SetHere(node: Node, value: Value, ghost c: Ctx, ghost t: Forest, ghost key: string)
      requires Valid() && tree == Plug(c, t) && t.Tree? && t.node == node && Shaped(t, 1)
      requires Leads(c, t.segment, key) && (c.Step? ==> t.segment != "")
      modifies `size, `tree, `contents, nodes`value
      ensures Valid() && (old(Canonical()) ==> Canonical())
      ensures contents == old(contents)[key := value]
    {
      Reading(c, t);
      HereSound(c, t, key, value, size, contents);
      var hadValue := node.value.Some?;
      StoreValue(node, Some(value), c, t);
      Commit(if hadValue then size else size + 1, Plug(c, t.(value := Some(value))), contents[key := value]);
    }

    method SetLeaf(owner: Node, field: Field, k: string, value: Value, ghost c: Ctx, ghost key: string)
      requires Valid() && tree == Plug(c, Nil) && c.Step? && c.node == owner && c.field == field
      requires Leads(c, k, key) && k != ""
      modifies `size, `tree, `contents, `nodes, nodes`child, nodes`next
      ensures Valid() && (old(Canonical()) ==> Canonical())
      ensures contents == old(contents)[key := value]
      ensures old(nodes) <= nodes && fresh(nodes - old(nodes))
    {
      var leaf := AddLeaf(owner, field, k, value, c);
      LeafSound(c, k, leaf, key, value, size, contents);
      Commit(size + 1, Plug(c, Tree(leaf, k, Some(value), Nil, Nil)), contents[key := value]);
    }

    method SetSplit(owner: Node, field: Field, child: Node, k: string, common: nat, value: Value, ghost c: Ctx,
            ghost t: Forest, ghost key: string)
      requires Valid() && tree == Plug(c, t) && c.Step? && c.node == owner && c.field == field
      requires t.Tree? && t.node == child && Compressed(t, 1) && Parts(t, k, common) && Leads(c, k, key)
      modifies `size, `tree, `contents, `nodes, nodes`child, nodes`next, nodes`segment
      ensures Valid() && (old(Canonical()) ==> Canonical())
      ensures contents == old(contents)[key := value]
      ensures old(nodes) <= nodes && fresh(nodes - old(nodes))
    {
      var prefix;
      ghost var leaf;
      prefix, leaf := SplitEdge(owner, field, child, k, common, value, c, t);
      SplitSound(c, t, k, common, prefix, leaf, key, value, size, contents);
      Commit(size + 1, Plug(c, Split(t, k, common, prefix, leaf, value)), contents[key := value]);
    }

    // ---------- radixmap_delete ----------

    // points the link past the child, which is freed after that
    method CutChild(owner: Node, field: Field, child: Node, ghost c: Ctx, ghost u: Forest)
      requires Linked(Plug(c, u)) && c.Step? && c.node == owner && c.field == field
      requires u.Tree? && u.node == child && u.child.Nil?
      modifies `nodes, nodes`child, nodes`next
      ensures nodes == old(nodes) - {child} && Linked(Plug(c, u.next))
    {
      ghost var m := Memory();
      Reading(c, u);
      SetLink(owner, field, child.next);
      nodes := nodes - {child};
      child.next := null;
      assert CutLinks(m, Memory(), c, child);
      CutRepresents(m, Memory(), c, u);
      PlugRoot(c, u, u.next);
    }

    // Merges a node that has no value with its only child, unless memory runs out.
    method TryMergeChild(node: Node, ghost c: Ctx, ghost t: Forest, plenty: bool)
        returns (ghost t': Forest, ghost skipped: bool)
      requires Linked(Plug(c, t)) && t.Tree? && t.node == node
      modifies `nodes, nodes`child, nodes`segment, nodes`value
      ensures nodes <= old(nodes) && Linked(Plug(c, t'))
      ensures t' == if t.value.None? && Len(t.child) == 1 && !skipped then Merged(t) else t
      ensures skipped ==> t.value.None? && Len(t.child) == 1
      ensures plenty ==> !skipped
    {
      Reading(c, t);
      t', skipped := t, false;
      if t.child.Tree? {
        InsideChain(c, t, Top, t.child);
        Reading(Inside(c, t), t.child);
      }
      if node.value.Some? || node.child == null || node.child.next != null {
        return;
      }
      assert Len(t.child) == 1;
      var ok := Attempt(plenty);
      if !ok {
        skipped := true;
        return;
      }
      MergeChild(node, node.child, c, t);
      t' := Merged(t);
    }

    method MergeChild(node: Node, child: Node, ghost c: Ctx, ghost t: Forest)
      requires Linked(Plug(c, t)) && t.Tree? && t.node == node
      requires t.child.Tree? && t.child.node == child && t.child.next.Nil?
      modifies `nodes, nodes`child, nodes`segment, nodes`value
      ensures nodes == old(nodes) - {child} && Linked(Plug(c, Merged(t)))
    {
      ghost var m := Memory();
      Reading(c, t);
      InsideChain(c, t, Top, t.child);
      Reading(Inside(c, t), t.child);
      node.segment := node.segment + child.segment;
      node.child := child.child;
      node.value := child.value;
      nodes := nodes - {child};
      assert MergeLinks(m, Memory(), node, child);
      MergeRepresents(m, Memory(), c, t);
      PlugRoot(c, t, Merged(t));
    }

    // Deletes what is stored at or below node under the rest of a key, given that node is where
    // t is. A node that is left bare is for the caller to cut off.
    method DeleteNode(node: Node, key: string, isRoot: bool, ghost c: Ctx, ghost t: Forest, plenty: bool)
      returns (ok: bool, removeSelf: bool, ghost t': Forest, ghost skipped: bool)
      requires Linked(Plug(c, t)) && t.Tree? && t.node == node && Shaped(t, 1)
      requires (isRoot <==> t.segment == "") && Values(t) <= size
      modifies `size, `nodes, nodes
      ensures nodes <= old(nodes) && Linked(Plug(c, t'))
      ensures ok <==> Below(t, key).Some?
      ensures size == if ok then old(size) - 1 else old(size)
      ensures if ok then Deleted(t, t', key, removeSelf, skipped) else t' == t && !removeSelf && !skipped
      ensures plenty ==> !skipped
      decreases |key|, 2
    {
      removeSelf, t', skipped := false, t, false;
      if key == "" {
        Reading(c, t);
        if node.value.None? {
          return false, false, t, false;
        }
        StoreValue(node, None, c, t);
        size := size - 1;
        ok, t' := true, t.(value := None);
        ValueEmptied(t);
      } else {
        ok, t', skipped := DeleteBelow(node, key, c, t, plenty);
        if !ok {
          return false, false, t, false;
        }
      }
      removeSelf, t', skipped := FinishNode(node, isRoot, c, t, t', key, skipped, plenty);
    }

    // the part of radixmap_delete_node that recurses into a child
    method DeleteBelow(node: Node, key: string, ghost c: Ctx, ghost t: Forest, plenty: bool)
      returns (ok: bool, ghost t1: Forest, ghost skipped: bool)
      requires Linked(Plug(c, t)) && t.Tree? && t.node == node && Shaped(t, 1) && Values(t) <= size && key != ""
      modifies `size, `nodes, nodes
      ensures nodes <= old(nodes) && Linked(Plug(c, t1))
      ensures ok <==> Below(t, key).Some?
      ensures size == if ok then old(size) - 1 else old(size)
      ensures if ok then Emptied(t, t1, key, skipped) else t1 == t
      ensures plenty ==> !skipped
      decreases |key|, 1
    {
      var owner, field, child, common;
      ghost var d, u;
      owner, field, child, common, d, u := MatchChild(node, key, c, t);
      if child == null {
        return false, t, false;
      }
      InsideChain(c, t, d, u);
      ok, t1, skipped := DeleteChild(owner, field, child, common, key, c, t, d, u, plenty);
    }

    method DeleteChild(owner: Node, field: Field, child: Node, common: nat, key: string, ghost c: Ctx,
            ghost t: Forest, ghost d: Ctx, ghost u: Forest, plenty: bool)
      returns (ok: bool, ghost t1: Forest, ghost skipped: bool)
      requires t.Tree? && Shaped(t, 1) && Values(t) <= size && Linked(Plug(Append(d, Inside(c, t)), u))
      requires Append(d, Inside(c, t)).node == owner && Append(d, Inside(c, t)).field == field
      requires Plug(d, u) == t.child && Chain(d) && Leads(d, key, key) && Compressed(u, 1)
      requires u.Tree? && u.node == child && u.segment <= key && common == |u.segment|
      modifies `size, `nodes, nodes
      ensures nodes <= old(nodes) && Linked(Plug(c, t1))
      ensures ok <==> Below(u, key[common..]).Some?
      ensures size == if ok then old(size) - 1 else old(size)
      ensures if ok then Emptied(t, t1, key, skipped) else t1 == t
      ensures plenty ==> !skipped
      decreases |key|, 0
    {
      ValuesBelow(t, d, u);
      var removeChild;
      ghost var c', u' := Append(d, Inside(c, t)), u;
      ok, removeChild, u', skipped := DeleteNode(child, key[common..], false, c', u, plenty);
      ghost var w := if removeChild then u'.next else u';
      PlugAppend(d, Inside(c, t), w);
      t1 := t.(child := Plug(d, w));
      if ok {
        ChildEmptied(t, d, u, u', key, removeChild, skipped);
        if removeChild {
          CutChild(owner, field, child, c', u');
        }
      }
    }

    static lemma {:induction false} ValuesBelow(t: Forest, d: Ctx, u: Forest)
      requires t.Tree? && t.child == Plug(d, u)
      ensures Values(u) <= Values(t)
    {
      PlugValues(d, Nil, u);
    }

    // the end of radixmap_delete_node: nothing to do, or the node goes, or it is merged
    method FinishNode(node: Node, isRoot: bool, ghost c: Ctx, ghost t: Forest, ghost t1: Forest, ghost key: string,
            ghost skipped0: bool, plenty: bool)
      returns (removeSelf: bool, ghost t': Forest, ghost skipped: bool)
      requires Linked(Plug(c, t1)) && t.Tree? && t1.Tree? && t1.node == node && (isRoot <==> t.segment == "")
      requires Emptied(t, t1, key, skipped0)
      modifies `nodes, nodes`child, nodes`segment, nodes`value
      ensures nodes <= old(nodes) && Linked(Plug(c, t')) && Deleted(t, t', key, removeSelf, skipped)
      ensures plenty && !skipped0 ==> !skipped
    {
      removeSelf, t', skipped := false, t1, skipped0;
      Reading(c, t1);
      if !isRoot && node.value.None? {
        if node.child == null {
          BareDeleted(t, t1, key, skipped);
          return true, t1, skipped;
        }
        ghost var missed;
        t', missed := TryMergeChild(node, c, t1, plenty);
        if missed {
          SkippedDeleted(t, t1, key, skipped);
          skipped := true;
        } else if Len(t1.child) == 1 {
          MergedDeleted(t, t1, key, skipped);
        } else {
          KeptDeleted(t, t1, key, skipped);
        }
      } else {
        KeptDeleted(t, t1, key, skipped);
      }
    }

    // Deletes a key. A canonical map stays canonical unless memory for a merge ran out (skipped).
    method Delete(key: string, plenty: bool) returns (ok: bool, ghost skipped: bool)
      requires Valid()
      modifies this, nodes
      ensures Valid() && (old(Canonical()) && !skipped ==> Canonical())
      ensures ok <==> key in old(contents)
      ensures contents == old(contents) - {key}
      ensures root == old(root) && nodes <= old(nodes)
      ensures plenty ==> !skipped
    {
      ghost var f, canonical;
      ok, f, skipped, canonical := DeleteRoot(key, plenty);
      Commit(size, f, contents - {key});
    }

    method DeleteRoot(key: string, plenty: bool)
      returns (ok: bool, ghost f: Forest, ghost skipped: bool, ghost canonical: bool)
      requires Valid()
      modifies `size, `nodes, nodes
      ensures nodes <= old(nodes) && (ok <==> key in contents)
      ensures Linked(f) && Sound(f, size, contents - {key})
      ensures (canonical ==> Shaped(f, 2)) && (old(Canonical()) && !skipped ==> canonical)
      ensures plenty ==> !skipped
    {
      RootStored(tree, key);
      ghost var n := size;
      var removeRoot;
      ok, removeRoot, f, skipped := DeleteNode(root, key, true, Top, tree, plenty);
      DeleteSound(tree, f, key, ok, skipped, n, contents);
      canonical := Shaped(f, 2);
    }

    method Clear()
      requires Valid()
      modifies this, nodes
      ensures Valid() && Canonical() && contents == map[] && root == old(root) && nodes == {root}
    {
      Reading(Top, tree);
      nodes := {root};
      root.value := None;
      root.child := null;
      SingleRoot(root);
      assert Memory() == map[root := Cell(null, null, "", None)];
      Commit(0, Tree(root, "", None, Nil, Nil), map[]);
    }

    // ---------- radixmap_copy ----------

    // the nodes of g are linked as g says
    static ghost predicate Built(g: Forest)
      reads Refs(g)
    {
      Represents(Snapshot(Refs(g)), g)
    }

    // Copies a chain of siblings with all that is below it, in the new nodes created; null when
    // there is none, or when an allocation or a value copy failed.
    static method CloneChain(src: Node?, ghost f: Forest, ghost from: set<Node>, plenty: bool)
      returns (copy: Node?, ghost g: Forest, ghost created: set<Node>)
      requires Shape(Snapshot(from), f) && Root(f) == src
      ensures Root(g) == copy && Built(g) && created == Refs(g) && fresh(created)
      ensures if src == null then g == Nil else copy == null || Copies(f, g)
      ensures plenty && src != null ==> copy != null
      decreases f, 1
    {
      copy, g, created := null, Nil, {};
      if src == null {
        return;
      }
      var ok := Attempt(plenty);
      if !ok {
        return;
      }
      var segment, value := src.segment, src.value;
      var child, next;
      ghost var below, behind;
      ok, child, next, below, behind := CloneLinks(src, f, from, plenty);
      if ok {
        copy, g := CloneNode(segment, value, child, next, below, behind);
        created := Refs(g);
      }
    }

    // the two recursive calls of that
    static method CloneLinks(src: Node, ghost f: Forest, ghost from: set<Node>, plenty: bool)
      returns (ok: bool, child: Node?, next: Node?, ghost below: Forest, ghost behind: Forest)
      requires Shape(Snapshot(from), f) && Root(f) == src
      ensures ok ==> Root(below) == child && Built(below) && Copies(f.child, below) && fresh(Refs(below))
      ensures ok ==> Root(behind) == next && Built(behind) && Copies(f.next, behind) && fresh(Refs(behind))
      ensures ok ==> Refs(below) !! Refs(behind)
      ensures plenty ==> ok
      decreases f, 0
    {
      next, behind := null, Nil;
      ghost var created1, created2;
      child, below, created1 := CloneChain(src.child, f.child, from, plenty);
      if src.child != null && child == null {
        return false, child, next, below, behind;
      }
      next, behind, created2 := CloneChain(src.next, f.next, from, plenty);
      ok := src.next == null || next != null;
      assert created1 !! created2;
    }

    // a new node over copies of the children and the next siblings
    static method CloneNode(segment: string, value: Option<Value>, child: Node?, next: Node?, ghost below: Forest,
            ghost behind: Forest)
      returns (copy: Node, ghost g: Forest)
      requires Built(below) && Built(behind) && Refs(below) !! Refs(behind)
      requires Root(below) == child && Root(behind) == next
      ensures fresh(copy) && g == Tree(copy, segment, value, below, behind) && Built(g)
    {
      ghost var m1, m2 := Snapshot(Refs(below)), Snapshot(Refs(behind));
      copy := new Node(segment, value);
      copy.child, copy.next := child, next;
      g := Tree(copy, segment, value, below, behind);
      CloneShape(copy, below, behind, m1, m2, Snapshot(Refs(g)));
    }

    static lemma CloneShape(copy: Node, below: Forest, behind: Forest, m1: Mem, m2: Mem, m: Mem)
      requires Represents(m1, below) && Represents(m2, behind) && Refs(below) !! Refs(behind)
      requires copy !in Refs(below) && copy !in Refs(behind) && copy in m
      requires Agree(m1, m, Refs(below)) && Agree(m2, m, Refs(behind))
      ensures var g := Tree(copy, m[copy].segment, m[copy].value, below, behind);
        Distinct(g) && (m[copy].child == Root(below) && m[copy].next == Root(behind) ==> Shape(m, g))
    {
      FrameShape(m1, m, below);
      FrameShape(m2, m, behind);
    }

    // Makes this map equal to src; a failure leaves it as it was.
    method CopyFrom(src: RadixMap, plenty: bool) returns (ok: bool)
      requires Valid() && src.Valid()
      modifies this
      ensures Valid()
      ensures contents == if ok then old(src.contents) else old(contents)
      ensures ok && this != src ==> fresh(nodes) && (src.Canonical() ==> Canonical())
      ensures !ok || this == src ==> nodes == old(nodes) && tree == old(tree)
      ensures plenty ==> ok
    {
      if this == src {
        return true;
      }
      var copy;
      ghost var g;
      copy, g := CloneTree(src, plenty);
      if copy == null {
        return false;
      }
      CopiesSound(src.tree, g, src.size, src.contents);
      Replace(copy, g, src.size, src.contents);
      return true;
    }

    // takes over the copy that has been built
    method Replace(copy: Node, ghost g: Forest, newSize: nat, ghost m: map<string, Value>)
      requires Root(g) == copy && Built(g) && Sound(g, newSize, m)
      modifies this
      ensures Valid() && tree == g && contents == m && nodes == Refs(g)
    {
      Rehome(copy, g);
      Commit(newSize, g, m);
    }

    method Rehome(copy: Node, ghost g: Forest)
      requires Root(g) == copy && Built(g)
      modifies `root, `nodes
      ensures Linked(g) && nodes == Refs(g)
    {
      ghost var m := Snapshot(Refs(g));
      root, nodes := copy, Refs(g);
      assert Memory() == m;
    }

    // the new root and the copies below it
    static method CloneTree(src: RadixMap, plenty: bool) returns (copy: Node?, ghost g: Forest)
      requires src.Linked(src.tree) && src.tree.Tree? && src.tree.segment == "" && src.tree.next.Nil?
      ensures Root(g) == copy && Built(g) && fresh(Refs(g))
      ensures copy != null ==> Copies(src.tree, g)
      ensures plenty ==> copy != null
    {
      g := Nil;
      var ok := Attempt(plenty);
      if !ok {
        return null, g;
      }
      src.Reading(Top, src.tree);
      var value := src.root.value;
      var child;
      ghost var below, created;
      child, below, created := CloneChain(src.root.child, src.tree.child, src.nodes, plenty);
      if src.root.child != null && child == null {
        return null, g;
      }
      copy, g := CloneNode("", value, child, null, below, Nil);
    }
  }
}
