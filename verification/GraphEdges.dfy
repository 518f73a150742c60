/** The multigraph of src/graph.c as a bag of stored edges for each vertex: what adding and
    deleting a logical edge does to the bags. */
module GraphEdges {
  datatype Edge = Edge(to: nat, weight: int)

  type Bags = seq<multiset<Edge>>

  function Bag(adj: seq<Edge>): multiset<Edge> { multiset(adj) }

  // a list without its entry i, the others in order
  ghost function Erased(adj: seq<Edge>, i: nat): (rest: seq<Edge>)
    requires i < |adj|
    ensures |rest| == |adj| - 1
    ensures forall k | 0 <= k < |rest| :: rest[k] == if k < i then adj[k] else adj[k + 1]
  {
    adj[..i] + adj[i + 1..]
  }

  ghost function BagsOf(adj: seq<seq<Edge>>): (b: Bags)
    ensures |b| == |adj|
  {
    seq(|adj|, u requires 0 <= u < |adj| => Bag(adj[u]))
  }

  ghost function Degrees(b: Bags): nat {
    if b == [] then 0 else Degrees(b[..|b| - 1]) + |b[|b| - 1]|
  }

  // one directed edge more, or less
  ghost function With(b: Bags, from: nat, e: Edge): Bags
    requires from < |b|
  {
    b[from := b[from] + multiset{e}]
  }

  ghost function Without(b: Bags, from: nat, e: Edge): Bags
    requires from < |b|
  {
    b[from := b[from] - multiset{e}]
  }

  // one logical edge more, or less: an undirected edge is stored in both directions, and a loop
  // twice
  ghost function Add(b: Bags, directed: bool, from: nat, to: nat, weight: int): Bags
    requires from < |b| && to < |b|
  {
    if directed then With(b, from, Edge(to, weight))
    else With(With(b, from, Edge(to, weight)), to, Edge(from, weight))
  }

  ghost function Delete(b: Bags, directed: bool, from: nat, to: nat, weight: int): Bags
    requires from < |b| && to < |b|
  {
    if directed then Without(b, from, Edge(to, weight))
    else Without(Without(b, from, Edge(to, weight)), to, Edge(from, weight))
  }

  // every stored edge leads to a vertex
  ghost predicate InRange(b: Bags) {
    forall u, e | 0 <= u < |b| && e in b[u] :: e.to < |b|
  }

  // Each edge is stored as often at the one end as at the other, and each loop in pairs.
  ghost predicate Symmetric(b: Bags) {
    && (forall u, v, w | 0 <= u < |b| && 0 <= v < |b| && u != v :: Mirrored(b, u, v, w))
    && (forall u, w | 0 <= u < |b| :: Paired(b, u, w))
  }

  ghost predicate Mirrored(b: Bags, u: nat, v: nat, w: int)
    requires u < |b| && v < |b|
  {
    b[u][Edge(v, w)] == b[v][Edge(u, w)]
  }

  ghost predicate Paired(b: Bags, u: nat, w: int)
    requires u < |b|
  {
    b[u][Edge(u, w)] % 2 == 0
  }

  ghost predicate Sound(b: Bags, directed: bool, edgeCount: nat) {
    && InRange(b)
    && Degrees(b) == (if directed then edgeCount else 2 * edgeCount)
    && (directed || Symmetric(b))
  }

  lemma {:induction false} DegreesUpdate(b: Bags, u: nat, m: multiset<Edge>)
    requires u < |b|
    ensures Degrees(b[u := m]) == Degrees(b) - |b[u]| + |m|
  {
    var n := |b| - 1;
    if u == n {
      assert b[u := m][..n] == b[..n];
    } else {
      assert b[u := m][..n] == b[..n][u := m];
      DegreesUpdate(b[..n], u, m);
    }
  }

  lemma WithInRange(b: Bags, from: nat, e: Edge)
    requires InRange(b) && from < |b| && e.to < |b|
    ensures InRange(With(b, from, e)) && Degrees(With(b, from, e)) == Degrees(b) + 1
  {
    DegreesUpdate(b, from, b[from] + multiset{e});
  }

  lemma WithoutInRange(b: Bags, from: nat, e: Edge)
    requires InRange(b) && from < |b| && e in b[from]
    ensures InRange(Without(b, from, e)) && Degrees(Without(b, from, e)) == Degrees(b) - 1
  {
    DegreesUpdate(b, from, b[from] - multiset{e});
  }

  lemma AddMirrored(b: Bags, from: nat, to: nat, weight: int, u: nat, v: nat, w: int)
    requires from < |b| && to < |b| && u < |b| && v < |b| && u != v && Mirrored(b, u, v, w)
    ensures Mirrored(Add(b, false, from, to, weight), u, v, w)
  {
  }

  lemma AddPaired(b: Bags, from: nat, to: nat, weight: int, u: nat, w: int)
    requires from < |b| && to < |b| && u < |b| && Paired(b, u, w)
    ensures Paired(Add(b, false, from, to, weight), u, w)
  {
  }

  lemma AddSymmetric(b: Bags, from: nat, to: nat, weight: int)
    requires Symmetric(b) && from < |b| && to < |b|
    ensures Symmetric(Add(b, false, from, to, weight))
  {
    var c := Add(b, false, from, to, weight);
    forall u, v, w | 0 <= u < |b| && 0 <= v < |b| && u != v ensures Mirrored(c, u, v, w) {
      AddMirrored(b, from, to, weight, u, v, w);
    }
    forall u, w | 0 <= u < |b| ensures Paired(c, u, w) {
      AddPaired(b, from, to, weight, u, w);
    }
  }

  lemma AddSound(b: Bags, directed: bool, edgeCount: nat, from: nat, to: nat, weight: int)
    requires Sound(b, directed, edgeCount) && from < |b| && to < |b|
    ensures Sound(Add(b, directed, from, to, weight), directed, edgeCount + 1)
  {
    WithInRange(b, from, Edge(to, weight));
    if !directed {
      WithInRange(With(b, from, Edge(to, weight)), to, Edge(from, weight));
      AddSymmetric(b, from, to, weight);
    }
  }

  // A stored undirected edge is stored the other way round as well; a loop, once more.
  lemma ReverseStored(b: Bags, from: nat, to: nat, weight: int)
    requires Symmetric(b) && from < |b| && to < |b| && Edge(to, weight) in b[from]
    ensures Edge(from, weight) in Without(b, from, Edge(to, weight))[to]
  {
    if from != to {
      assert Mirrored(b, from, to, weight);
    } else {
      assert Paired(b, from, weight);
    }
  }

  lemma WithoutCount(b: Bags, from: nat, e: Edge, u: nat, x: Edge)
    requires from < |b| && u < |b|
    ensures Without(b, from, e)[u][x] == if u == from && x == e && b[u][x] > 0 then b[u][x] - 1 else b[u][x]
  {
  }

  lemma DeleteMirrored(b: Bags, from: nat, to: nat, weight: int, u: nat, v: nat, w: int)
    requires from < |b| && to < |b| && u < |b| && v < |b| && u != v && Mirrored(b, u, v, w)
    ensures Mirrored(Delete(b, false, from, to, weight), u, v, w)
  {
    var e, r := Edge(to, weight), Edge(from, weight);
    var b1 := Without(b, from, e);
    WithoutCount(b, from, e, u, Edge(v, w));
    WithoutCount(b1, to, r, u, Edge(v, w));
    WithoutCount(b, from, e, v, Edge(u, w));
    WithoutCount(b1, to, r, v, Edge(u, w));
  }

  lemma DeletePaired(b: Bags, from: nat, to: nat, weight: int, u: nat, w: int)
    requires from < |b| && to < |b| && u < |b| && Paired(b, u, w)
    ensures Paired(Delete(b, false, from, to, weight), u, w)
  {
    var e, r := Edge(to, weight), Edge(from, weight);
    var b1 := Without(b, from, e);
    WithoutCount(b, from, e, u, Edge(u, w));
    WithoutCount(b1, to, r, u, Edge(u, w));
  }

  lemma DeleteSymmetric(b: Bags, from: nat, to: nat, weight: int)
    requires Symmetric(b) && from < |b| && to < |b|
    ensures Symmetric(Delete(b, false, from, to, weight))
  {
    var c := Delete(b, false, from, to, weight);
    forall u, v, w | 0 <= u < |b| && 0 <= v < |b| && u != v ensures Mirrored(c, u, v, w) {
      DeleteMirrored(b, from, to, weight, u, v, w);
    }
    forall u, w | 0 <= u < |b| ensures Paired(c, u, w) {
      DeletePaired(b, from, to, weight, u, w);
    }
  }

  lemma DeleteSound(b: Bags, directed: bool, edgeCount: nat, from: nat, to: nat, weight: int)
    requires Sound(b, directed, edgeCount) && from < |b| && to < |b| && Edge(to, weight) in b[from]
    ensures edgeCount > 0 && Sound(Delete(b, directed, from, to, weight), directed, edgeCount - 1)
  {
    WithoutInRange(b, from, Edge(to, weight));
    if !directed {
      ReverseStored(b, from, to, weight);
      WithoutInRange(Without(b, from, Edge(to, weight)), to, Edge(from, weight));
      DeleteSymmetric(b, from, to, weight);
    }
  }

  // Deleting an edge just added restores every bag.
  lemma AddDelete(b: Bags, directed: bool, from: nat, to: nat, weight: int)
    requires from < |b| && to < |b|
    ensures Delete(Add(b, directed, from, to, weight), directed, from, to, weight) == b
  {
    var e, r := Edge(to, weight), Edge(from, weight);
    if directed {
      WithWithout(b, from, e);
    } else {
      var c := With(b, from, e);
      Commute(With(c, to, r), from, e, to, r);
      WithWithout(c, to, r);
      WithWithout(b, from, e);
    }
  }

  lemma WithWithout(b: Bags, from: nat, e: Edge)
    requires from < |b|
    ensures Without(With(b, from, e), from, e) == b
  {
    assert b[from] + multiset{e} - multiset{e} == b[from];
  }

  // two entries can be taken out in either order
  lemma Commute(b: Bags, from: nat, e: Edge, to: nat, r: Edge)
    requires from < |b| && to < |b|
    ensures Without(Without(b, from, e), to, r) == Without(Without(b, to, r), from, e)
  {
    if from == to {
      assert b[from] - multiset{e} - multiset{r} == b[from] - multiset{r} - multiset{e};
    }
  }

  lemma {:induction false} DegreesEmpty(b: Bags)
    requires forall u | 0 <= u < |b| :: b[u] == multiset{}
    ensures Degrees(b) == 0
  {
    if b != [] {
      DegreesEmpty(b[..|b| - 1]);
    }
  }

  lemma EmptySound(b: Bags, directed: bool)
    requires forall u | 0 <= u < |b| :: b[u] == multiset{}
    ensures Sound(b, directed, 0)
  {
    DegreesEmpty(b);
  }

  // Erasing entry i of a list takes that entry out of the bag.
  lemma EraseBag(adj: seq<Edge>, i: nat)
    requires i < |adj|
    ensures Bag(Erased(adj, i)) == Bag(adj) - multiset{adj[i]}
  {
    assert adj == adj[..i] + [adj[i]] + adj[i + 1..];
  }
}
