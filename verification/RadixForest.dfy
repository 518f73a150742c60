/** The values behind the compressed radix map of src/radixmap.c: chains of sibling
    subtrees labelled with key segments, chains with a hole, the map a chain stands
    for, and the compressed form. Nothing here reads the heap. */
module RadixForest {
  import opened Options

  type Value

  class Node {
    var child: Node?
    var next: Node?        // next_sibling
    var segment: string
    var value: Option<Value>  // has_value and the bytes after the node

    constructor (segment: string, value: Option<Value>)
      ensures this.segment == segment && this.value == value && child == null && next == null
    {
      this.segment, this.value := segment, value;
      child, next := null, null;
    }
  }

  // the siblings from node on
  datatype Forest = Nil | Tree(node: Node, segment: string, value: Option<Value>, child: Forest, next: Forest)

  datatype Field = Child | Next

  // A forest with a hole: the hole is the named field of node, other is what its other
  // field holds, and up is what surrounds node.
  datatype Ctx = Top | Step(field: Field, node: Node, segment: string, value: Option<Value>, other: Forest, up: Ctx)

  ghost function Make(field: Field, hole: Forest, node: Node, segment: string, value: Option<Value>,
          other: Forest): Forest {
    if field.Child? then Tree(node, segment, value, hole, other) else Tree(node, segment, value, other, hole)
  }

  ghost function Plug(c: Ctx, t: Forest): Forest {
    if c.Top? then t else Plug(c.up, Make(c.field, t, c.node, c.segment, c.value, c.other))
  }

  ghost function Append(c: Ctx, d: Ctx): Ctx {
    if c.Top? then d else c.(up := Append(c.up, d))
  }

  lemma {:induction false} PlugAppend(c: Ctx, d: Ctx, t: Forest)
    ensures Plug(Append(c, d), t) == Plug(d, Plug(c, t))
  {
    if c.Step? {
      PlugAppend(c.up, d, Make(c.field, t, c.node, c.segment, c.value, c.other));
    }
  }

  // ---------- the map ----------

  // the value a forest stores under a key
  ghost function Stored(f: Forest, key: string): Option<Value> {
    if f.Nil? then None
    else if key == f.segment && f.value.Some? then f.value
    else if f.segment <= key && Stored(f.child, key[|f.segment|..]).Some? then Stored(f.child, key[|f.segment|..])
    else Stored(f.next, key)
  }

  // f' stores x under the key, and otherwise what f stores
  ghost predicate Updated(f: Forest, f': Forest, key: string, x: Option<Value>) {
    forall q {:trigger Stored(f', q)} {:trigger Stored(f, q)} :: Stored(f', q) == if q == key then x else Stored(f, q)
  }

  ghost function Values(f: Forest): nat {
    if f.Nil? then 0 else (if f.value.Some? then 1 else 0) + Values(f.child) + Values(f.next)
  }

  ghost function Len(f: Forest): nat { if f.Nil? then 0 else 1 + Len(f.next) }

  ghost function Nodes(f: Forest): nat { if f.Nil? then 0 else 1 + Nodes(f.child) + Nodes(f.next) }

  ghost function Firsts(f: Forest): set<char> {
    if f.Nil? then {} else (if f.segment == "" then {} else {f.segment[0]}) + Firsts(f.next)
  }

  // ---------- the compressed form ----------

  // Segments are not empty, siblings start with different characters, and a node without a
  // value has at least need children. With need 1 every subtree holds a value; need 2 is the
  // canonical form.
  ghost predicate Compressed(f: Forest, need: nat) {
    f.Tree? ==>
      && f.segment != "" && f.segment[0] !in Firsts(f.next)
      && (f.value.None? ==> Len(f.child) >= need)
      && Compressed(f.child, need) && Compressed(f.next, need)
  }

  lemma {:induction false} CompressedLess(f: Forest, need: nat, less: nat)
    requires Compressed(f, need) && less <= need
    ensures Compressed(f, less)
  {
    if f.Tree? {
      CompressedLess(f.child, need, less);
      CompressedLess(f.next, need, less);
    }
  }

  // the same for the root, the one node with an empty segment
  ghost predicate Shaped(f: Forest, need: nat) {
    if f.Tree? && f.segment == "" then f.next.Nil? && Compressed(f.child, need) else Compressed(f, need)
  }

  // ---------- searching ----------

  lemma {:induction false} NoFirst(f: Forest, key: string)
    requires Compressed(f, 1) && (key == "" || key[0] !in Firsts(f))
    ensures Stored(f, key).None?
  {
    if f.Tree? {
      NoFirst(f.next, key);
    }
  }

  // what lies at or below the node of a subtree, the rest of the key being key
  ghost function Below(t: Forest, key: string): Option<Value>
    requires t.Tree?
  {
    if key == "" then t.value else Stored(t.child, key)
  }

  lemma Skip(f: Forest, key: string)
    requires Compressed(f, 1) && f.Tree? && key != "" && f.segment[0] != key[0]
    ensures Stored(f, key) == Stored(f.next, key)
  {
  }

  lemma Enter(f: Forest, key: string)
    requires Compressed(f, 1) && f.Tree? && key != "" && f.segment[0] == key[0]
    ensures Stored(f, key) == if f.segment <= key then Below(f, key[|f.segment|..]) else None
  {
    NoFirst(f.next, key);
    NoFirst(f.child, "");
    if f.segment <= key && key[|f.segment|..] == "" {
      assert key == f.segment;
    }
  }

  // every subtree holds a value
  ghost function Sample(f: Forest): (key: string)
    requires Compressed(f, 1) && f.Tree?
    ensures Stored(f, key).Some? && f.segment <= key
  {
    if f.value.Some? then f.segment
    else
      var rest := Sample(f.child);
      assert (f.segment + rest)[|f.segment|..] == rest;
      f.segment + rest
  }

  ghost predicate AnyBelow(f: Forest, prefix: string) {
    exists k :: Stored(f, k).Some? && prefix <= k
  }

  // how the rest of a prefix compares with the segment that has its first character
  lemma EnterPrefix(f: Forest, prefix: string)
    requires Compressed(f, 1) && f.Tree? && prefix != "" && f.segment[0] == prefix[0]
    ensures prefix <= f.segment ==> AnyBelow(f, prefix)
    ensures f.segment <= prefix && prefix != f.segment ==>
        (AnyBelow(f, prefix) <==> AnyBelow(f.child, prefix[|f.segment|..]))
    ensures !(prefix <= f.segment) && !(f.segment <= prefix) ==> !AnyBelow(f, prefix)
  {
    if prefix <= f.segment {
      assert prefix <= Sample(f);
    }
    forall k | prefix <= k && Stored(f, k).Some? ensures f.segment <= k {
      Enter(f, k);
    }
    if f.segment <= prefix && prefix != f.segment {
      var n := |f.segment|;
      forall k | prefix <= k ensures Stored(f, k) == Stored(f.child, k[n..]) && prefix[n..] <= k[n..] {
        Enter(f, k);
      }
      forall r | prefix[n..] <= r ensures Stored(f, f.segment + r) == Stored(f.child, r) && prefix <= f.segment + r {
        assert (f.segment + r)[n..] == r;
        assert prefix == f.segment + prefix[n..];
        Enter(f, f.segment + r);
      }
    }
  }

  // ---------- changing what a forest stores ----------

  // a key that starts at the top of c reaches the hole with the rest k left
  ghost predicate Leads(c: Ctx, k: string, key: string) {
    if c.Top? then k == key
    else
      && k != "" && Compressed(c.other, 1)
      && if c.field.Child? then (c.segment + k)[0] !in Firsts(c.other) && Leads(c.up, c.segment + k, key)
         else c.segment != "" && c.segment[0] != k[0] && Leads(c.up, k, key)
  }

  lemma {:induction false} LeadsAppend(c: Ctx, d: Ctx, k: string, middle: string, key: string)
    requires Leads(c, k, middle) && Leads(d, middle, key)
    ensures Leads(Append(c, d), k, key)
  {
    if c.Step? {
      LeadsAppend(c.up, d, if c.field.Child? then c.segment + k else k, middle, key);
    }
  }

  lemma UpdateChild(t: Forest, t': Forest, k: string, x: Option<Value>, node: Node, segment: string,
          value: Option<Value>, next: Forest)
    requires Updated(t, t', k, x) && k != "" && Stored(next, segment + k).None?
    ensures Updated(Tree(node, segment, value, t, next), Tree(node, segment, value, t', next), segment + k, x)
  {
  }

  lemma {:induction false} PlugUpdated(c: Ctx, t: Forest, t': Forest, k: string, x: Option<Value>, key: string)
    requires Leads(c, k, key) && Updated(t, t', k, x)
    ensures Updated(Plug(c, t), Plug(c, t'), key, x)
  {
    if c.Step? {
      if c.field.Child? {
        NoFirst(c.other, c.segment + k);
        UpdateChild(t, t', k, x, c.node, c.segment, c.value, c.other);
        PlugUpdated(c.up, Make(c.field, t, c.node, c.segment, c.value, c.other),
                    Make(c.field, t', c.node, c.segment, c.value, c.other), c.segment + k, x, key);
      } else {
        PlugUpdated(c.up, Make(c.field, t, c.node, c.segment, c.value, c.other),
                    Make(c.field, t', c.node, c.segment, c.value, c.other), k, x, key);
      }
    }
  }

  lemma {:induction false} PlugValues(c: Ctx, t: Forest, t': Forest)
    ensures Values(Plug(c, t')) - Values(Plug(c, t)) == Values(t') - Values(t)
  {
    if c.Step? {
      PlugValues(c.up, Make(c.field, t, c.node, c.segment, c.value, c.other),
                 Make(c.field, t', c.node, c.segment, c.value, c.other));
    }
  }

  lemma {:induction false} PlugStored(c: Ctx, t: Forest, k: string, key: string)
    requires Leads(c, k, key)
    ensures Stored(Plug(c, t), key) == Stored(t, k)
  {
    if c.Step? {
      var f := Make(c.field, t, c.node, c.segment, c.value, c.other);
      if c.field.Child? {
        NoFirst(c.other, c.segment + k);
        assert (c.segment + k)[|c.segment|..] == k;
        PlugStored(c.up, f, c.segment + k, key);
      } else {
        PlugStored(c.up, f, k, key);
      }
    }
  }

  // a hole below a node, in the field for its children
  ghost function Inside(c: Ctx, t: Forest): Ctx
    requires t.Tree?
  {
    Step(Child, t.node, t.segment, t.value, t.next, c)
  }

  lemma InsideChain(c: Ctx, t: Forest, d: Ctx, u: Forest)
    requires t.Tree? && Plug(d, u) == t.child
    ensures Plug(Append(d, Inside(c, t)), u) == Plug(c, t)
  {
  }

  lemma {:induction false} RootSegment(c: Ctx, t: Forest, t': Forest)
    requires c.Step? || (t.Tree? && t'.Tree? && t.segment == t'.segment)
    ensures Plug(c, t).Tree? && Plug(c, t').Tree? && Plug(c, t').segment == Plug(c, t).segment
  {
    if c.Step? {
      RootSegment(c.up, Make(c.field, t, c.node, c.segment, c.value, c.other),
                  Make(c.field, t', c.node, c.segment, c.value, c.other));
    }
  }

  // what the forest stores is the map m
  ghost predicate Holds(f: Forest, m: map<string, Value>) {
    forall k :: Stored(f, k) == if k in m then Some(m[k]) else None
  }

  // g is f with other nodes
  ghost predicate Copies(f: Forest, g: Forest) {
    && (f.Tree? <==> g.Tree?)
    && (f.Tree? ==> f.segment == g.segment && f.value == g.value && Copies(f.child, g.child) && Copies(f.next, g.next))
  }

  lemma {:induction false} CopiesStored(f: Forest, g: Forest, key: string)
    requires Copies(f, g)
    ensures Stored(f, key) == Stored(g, key)
  {
    if f.Tree? {
      if f.segment <= key {
        CopiesStored(f.child, g.child, key[|f.segment|..]);
      }
      CopiesStored(f.next, g.next, key);
    }
  }

  lemma {:induction false} CopiesCompressed(f: Forest, g: Forest, need: nat)
    requires Copies(f, g)
    ensures Values(f) == Values(g) && Len(f) == Len(g) && Firsts(f) == Firsts(g)
    ensures Compressed(f, need) <==> Compressed(g, need)
  {
    if f.Tree? {
      CopiesCompressed(f.child, g.child, need);
      CopiesCompressed(f.next, g.next, need);
    }
  }
}
