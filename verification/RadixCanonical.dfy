/** The canonical form of the radix map: it is small, and the keys stored in it fix it up to
    the order of siblings. */
module RadixCanonical {
  import opened Options
  import opened RadixForest

  // A canonical forest has fewer than twice as many nodes as values.
  lemma {:induction false} CanonicalNodes(f: Forest)
    requires Compressed(f, 2)
    ensures Nodes(f) + Len(f) <= 2 * Values(f)
  {
    if f.Tree? {
      CanonicalNodes(f.child);
      CanonicalNodes(f.next);
    }
  }

  // the sibling that starts with ch
  ghost function Branch(f: Forest, ch: char): (b: Forest)
    ensures b.Tree? ==> b.segment != "" && b.segment[0] == ch && Nodes(b.child) < Nodes(f)
  {
    if f.Nil? then Nil
    else if f.segment != "" && f.segment[0] == ch then f
    else Branch(f.next, ch)
  }

  // both values or neither; when exact, the same one
  ghost predicate Match(x: Option<Value>, y: Option<Value>, exact: bool) {
    if exact then x == y else x.Some? == y.Some?
  }

  // the same tree, whatever the order of siblings; when exact, with the same values
  ghost predicate Alike(f: Forest, g: Forest, exact: bool)
    decreases Nodes(f)
  {
    forall ch :: AlikeBranch(f, g, ch, exact)
  }

  ghost predicate AlikeBranch(f: Forest, g: Forest, ch: char, exact: bool)
    decreases Nodes(f), 0
  {
    var a, b := Branch(f, ch), Branch(g, ch);
    && (a.Tree? <==> b.Tree?)
    && (a.Tree? ==> a.segment == b.segment && Match(a.value, b.value, exact) && Alike(a.child, b.child, exact))
  }

  // the same keys; when exact, the same map
  ghost predicate SameKeys(f: Forest, g: Forest, exact: bool) {
    forall k :: Match(Stored(f, k), Stored(g, k), exact)
  }

  // what a key finds in the branch of its first character
  lemma {:induction false} StoredBranch(f: Forest, key: string)
    requires Compressed(f, 1) && key != ""
    ensures var b := Branch(f, key[0]);
      Stored(f, key) == if b.Tree? && b.segment <= key then Below(b, key[|b.segment|..]) else None
  {
    if f.Tree? {
      if f.segment[0] == key[0] {
        Enter(f, key);
      } else {
        Skip(f, key);
        StoredBranch(f.next, key);
      }
    }
  }

  lemma {:induction false} BranchCompressed(f: Forest, ch: char, need: nat)
    requires Compressed(f, need)
    ensures Compressed(Branch(f, ch), need)
  {
    if f.Tree? {
      BranchCompressed(f.next, ch, need);
    }
  }

  // A prefix of two texts ends where they differ.
  lemma PrefixOfBoth(s: string, k1: string, k2: string, n: nat)
    requires s <= k1 && s <= k2 && n < |k1| && n < |k2| && k1[n] != k2[n]
    ensures s <= k1[..n]
  {
  }

  // Two siblings store keys that differ at once.
  lemma SiblingKeys(y: Forest)
    requires y.Tree? && y.next.Tree? && Compressed(y, 1)
    ensures Stored(y, Sample(y)).Some? && Stored(y, Sample(y.next)).Some?
    ensures Sample(y) != "" && Sample(y.next) != "" && Sample(y)[0] != Sample(y.next)[0]
  {
    assert y.next.segment[0] in Firsts(y.next);
    Skip(y, Sample(y.next));
  }

  // If every key below a starts with s, the segment of a starts with s as well.
  lemma SegmentCovers(a: Forest, s: string)
    requires a.Tree? && Compressed(a, 2)
    requires forall r {:trigger Below(a, r)} :: Below(a, r).Some? ==> s <= a.segment + r
    ensures s <= a.segment
  {
    CompressedLess(a, 2, 1);
    var n := |a.segment|;
    if a.value.Some? {
      assert Below(a, "").Some? && a.segment + "" == a.segment;
    } else {
      var y := a.child;
      assert Len(y) == 1 + Len(y.next) && Len(y) >= 2;
      SiblingKeys(y);
      var k1, k2 := a.segment + Sample(y), a.segment + Sample(y.next);
      assert Below(a, Sample(y)).Some? && Below(a, Sample(y.next)).Some?;
      assert k1[..n] == a.segment;
      PrefixOfBoth(s, k1, k2, n);
    }
  }

  // The keys stored in a canonical forest fix it up to the order of siblings.
  lemma {:induction false} KeysFixShape(f: Forest, g: Forest, exact: bool)
    requires Compressed(f, 2) && Compressed(g, 2) && SameKeys(f, g, exact)
    ensures Alike(f, g, exact)
    decreases Nodes(f)
  {
    forall ch ensures AlikeBranch(f, g, ch, exact) {
      BranchExists(f, g, ch, exact);
      BranchExists(g, f, ch, exact);
      var a, b := Branch(f, ch), Branch(g, ch);
      if a.Tree? {
        BranchSegment(f, g, ch, exact);
        BranchSegment(g, f, ch, exact);
        BranchBelow(f, g, ch, exact);
        BranchCompressed(f, ch, 2);
        BranchCompressed(g, ch, 2);
        KeysFixShape(a.child, b.child, exact);
      }
    }
  }

  lemma BranchExists(f: Forest, g: Forest, ch: char, exact: bool)
    requires Compressed(f, 2) && Compressed(g, 2) && SameKeys(f, g, exact)
    ensures Branch(f, ch).Tree? ==> Branch(g, ch).Tree?
  {
    var a := Branch(f, ch);
    if a.Tree? {
      CompressedLess(f, 2, 1);
      CompressedLess(g, 2, 1);
      BranchCompressed(f, ch, 1);
      var k := Sample(a);
      Enter(a, k);
      StoredBranch(f, k);
      StoredBranch(g, k);
      assert Match(Stored(f, k), Stored(g, k), exact);
    }
  }

  lemma BranchSegment(f: Forest, g: Forest, ch: char, exact: bool)
    requires Compressed(f, 2) && Compressed(g, 2) && SameKeys(f, g, exact) && Branch(f, ch).Tree? && Branch(g, ch).Tree?
    ensures Branch(g, ch).segment <= Branch(f, ch).segment
  {
    var a, b := Branch(f, ch), Branch(g, ch);
    CompressedLess(f, 2, 1);
    CompressedLess(g, 2, 1);
    BranchCompressed(f, ch, 2);
    forall r | Below(a, r).Some? ensures b.segment <= a.segment + r {
      var k := a.segment + r;
      assert k[|a.segment|..] == r;
      StoredBranch(f, k);
      StoredBranch(g, k);
      assert Match(Stored(f, k), Stored(g, k), exact);
    }
    SegmentCovers(a, b.segment);
  }

  lemma BranchBelow(f: Forest, g: Forest, ch: char, exact: bool)
    requires Compressed(f, 2) && Compressed(g, 2) && SameKeys(f, g, exact) && Branch(f, ch).Tree? && Branch(g, ch).Tree?
    requires Branch(f, ch).segment == Branch(g, ch).segment
    ensures Match(Branch(f, ch).value, Branch(g, ch).value, exact)
    ensures SameKeys(Branch(f, ch).child, Branch(g, ch).child, exact)
  {
    var a, b := Branch(f, ch), Branch(g, ch);
    CompressedLess(f, 2, 1);
    CompressedLess(g, 2, 1);
    BranchCompressed(f, ch, 1);
    BranchCompressed(g, ch, 1);
    forall r ensures Match(Below(a, r), Below(b, r), exact) {
      var k := a.segment + r;
      assert k[|a.segment|..] == r;
      StoredBranch(f, k);
      StoredBranch(g, k);
      assert Match(Stored(f, k), Stored(g, k), exact);
    }
    assert Match(Below(a, ""), Below(b, ""), exact);
    forall r ensures Match(Stored(a.child, r), Stored(b.child, r), exact) {
      NoFirst(a.child, "");
      NoFirst(b.child, "");
      assert Match(Below(a, r), Below(b, r), exact);
    }
  }

  // and the other way round
  lemma {:induction false} ShapeFixesKeys(f: Forest, g: Forest, exact: bool)
    requires Compressed(f, 1) && Compressed(g, 1) && Alike(f, g, exact)
    ensures SameKeys(f, g, exact)
    decreases Nodes(f)
  {
    NoFirst(f, "");
    NoFirst(g, "");
    forall k | k != "" ensures Match(Stored(f, k), Stored(g, k), exact) {
      StoredBranch(f, k);
      StoredBranch(g, k);
      var a, b := Branch(f, k[0]), Branch(g, k[0]);
      assert AlikeBranch(f, g, k[0], exact);
      if a.Tree? {
        BranchCompressed(f, k[0], 1);
        BranchCompressed(g, k[0], 1);
        ShapeFixesKeys(a.child, b.child, exact);
      }
    }
  }
}
