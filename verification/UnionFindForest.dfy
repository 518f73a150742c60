/** The forest behind src/unionfind.c: parent links as a sequence, roots, depths, and
    the two ways the code changes the links. */
module UnionFindForest {
  import opened BinaryArithmetic

  // bound[x] bounds the number of links from x to its root; it makes the walks end.
  ghost predicate Forest(p: seq<nat>, bound: seq<nat>) {
    && |bound| == |p|
    && (forall x | 0 <= x < |p| :: p[x] < |p|)
    && (forall x {:trigger p[x]} | 0 <= x < |p| :: if p[x] == x then bound[x] == 0 else bound[p[x]] < bound[x])
  }

  ghost function Root(p: seq<nat>, bound: seq<nat>, x: nat): (r: nat)
    requires Forest(p, bound) && x < |p|
    ensures r < |p| && p[r] == r
    decreases bound[x]
  {
    if p[x] == x then x else Root(p, bound, p[x])
  }

  ghost function Depth(p: seq<nat>, bound: seq<nat>, x: nat): (d: nat)
    requires Forest(p, bound) && x < |p|
    ensures d <= bound[x]
    decreases bound[x]
  {
    if p[x] == x then 0 else 1 + Depth(p, bound, p[x])
  }

  // the elements on the way from x to its root
  ghost function Path(p: seq<nat>, bound: seq<nat>, x: nat): (s: set<nat>)
    requires Forest(p, bound) && x < |p|
    ensures forall y | y in s :: y < |p| && bound[y] <= bound[x]
    decreases bound[x]
  {
    if p[x] == x then {x} else {x} + Path(p, bound, p[x])
  }

  // The path from x is the least set that holds x and, with every element, its parent.
  lemma {:induction false} PathLeast(p: seq<nat>, bound: seq<nat>, x: nat, s: set<nat>)
    requires Forest(p, bound) && x < |p|
    requires x in s && forall y | y in s && y < |p| :: p[y] in s
    ensures x in Path(p, bound, x) && (forall y | y in Path(p, bound, x) :: p[y] in Path(p, bound, x))
    ensures Path(p, bound, x) <= s
    decreases bound[x]
  {
    if p[x] != x {
      PathLeast(p, bound, p[x], s);
    }
  }

  // ---------- path compression ----------

  // some links have been moved to the root
  ghost predicate Compressed(p: seq<nat>, bound: seq<nat>, p': seq<nat>)
    requires Forest(p, bound)
  {
    |p'| == |p| && forall x | 0 <= x < |p| :: p'[x] == p[x] || p'[x] == Root(p, bound, x)
  }

  // Compression moves no element to another root and none further away from its root.
  lemma {:induction false} CompressedRoot(p: seq<nat>, bound: seq<nat>, p': seq<nat>, x: nat)
    requires Forest(p, bound) && Compressed(p, bound, p') && Forest(p', bound) && x < |p|
    ensures Root(p', bound, x) == Root(p, bound, x)
    ensures Depth(p', bound, x) <= Depth(p, bound, x)
    decreases bound[x]
  {
    var r := Root(p, bound, x);
    assert p'[r] == r;
    if p[x] != x {
      CompressedRoot(p, bound, p', p[x]);
    }
  }

  // ---------- linking two roots ----------

  ghost function Linked(p: seq<nat>, bound: seq<nat>, b: nat): seq<nat>
    requires Forest(p, bound)
  {
    seq(|p|, x requires 0 <= x < |p| => if Root(p, bound, x) == b then bound[x] + 1 else bound[x])
  }

  // Linking root b below root a merges their classes and nothing else.
  lemma {:induction false} LinkedRoot(p: seq<nat>, bound: seq<nat>, a: nat, b: nat, x: nat)
    requires Forest(p, bound) && a < |p| && b < |p| && p[a] == a && p[b] == b && a != b && x < |p|
    requires Forest(p[b := a], Linked(p, bound, b))
    ensures Root(p[b := a], Linked(p, bound, b), x) == if Root(p, bound, x) == b then a else Root(p, bound, x)
    decreases bound[x]
  {
    var p', bound' := p[b := a], Linked(p, bound, b);
    if x == b {
      assert Root(p', bound', a) == a;
    } else if p[x] != x {
      LinkedRoot(p, bound, a, b, p[x]);
    }
  }

  // ---------- the equivalence closure of a list of pairs ----------

  // the equivalence the pairs generate, pair by pair
  ghost predicate Connected(pairs: seq<(nat, nat)>, x: nat, y: nat) {
    if pairs == [] then x == y
    else
      var rest := pairs[..|pairs| - 1];
      var (a, b) := pairs[|pairs| - 1];
      || Connected(rest, x, y)
      || (Connected(rest, x, a) && Connected(rest, b, y))
      || (Connected(rest, x, b) && Connected(rest, a, y))
  }

  lemma {:induction false} ConnectedReflexive(pairs: seq<(nat, nat)>, x: nat)
    ensures Connected(pairs, x, x)
  {
    if pairs != [] {
      ConnectedReflexive(pairs[..|pairs| - 1], x);
    }
  }

  lemma {:induction false} ConnectedSymmetric(pairs: seq<(nat, nat)>, x: nat, y: nat)
    requires Connected(pairs, x, y)
    ensures Connected(pairs, y, x)
  {
    if pairs != [] {
      var rest := pairs[..|pairs| - 1];
      var (a, b) := pairs[|pairs| - 1];
      forall u, v | Connected(rest, u, v) ensures Connected(rest, v, u) {
        ConnectedSymmetric(rest, u, v);
      }
    }
  }

  lemma {:induction false} ConnectedTransitive(pairs: seq<(nat, nat)>, x: nat, y: nat, z: nat)
    requires Connected(pairs, x, y) && Connected(pairs, y, z)
    ensures Connected(pairs, x, z)
    decreases |pairs|, 0
  {
    if pairs != [] {
      var rest := pairs[..|pairs| - 1];
      var (a, b) := pairs[|pairs| - 1];
      if Connected(rest, x, y) {
        ConnectedThrough(rest, x, y, z);
        ConnectedThrough(rest, x, y, a);
        ConnectedThrough(rest, x, y, b);
      } else if Connected(rest, x, a) && Connected(rest, b, y) {
        ConnectedThrough(rest, b, y, z);
        ConnectedThrough(rest, x, a, z);
      } else {
        ConnectedThrough(rest, a, y, z);
        ConnectedThrough(rest, x, b, z);
      }
    }
  }

  lemma {:induction false} ConnectedThrough(pairs: seq<(nat, nat)>, x: nat, y: nat, z: nat)
    ensures Connected(pairs, x, y) && Connected(pairs, y, z) ==> Connected(pairs, x, z)
    decreases |pairs|, 1
  {
    if Connected(pairs, x, y) && Connected(pairs, y, z) {
      ConnectedTransitive(pairs, x, y, z);
    }
  }

  ghost predicate Equivalence(e: (nat, nat) -> bool) {
    && (forall x :: e(x, x))
    && (forall x, y :: e(x, y) ==> e(y, x))
    && (forall x, y, z :: e(x, y) && e(y, z) ==> e(x, z))
  }

  // Connected relates every pair of the list, and every equivalence that does so
  // contains Connected: it is the equivalence closure.
  lemma {:induction false} ConnectedContains(pairs: seq<(nat, nat)>, i: nat)
    requires i < |pairs|
    ensures Connected(pairs, pairs[i].0, pairs[i].1)
  {
    var rest := pairs[..|pairs| - 1];
    if i < |rest| {
      ConnectedContains(rest, i);
    } else {
      ConnectedReflexive(rest, pairs[i].0);
      ConnectedReflexive(rest, pairs[i].1);
    }
  }

  lemma {:induction false} ConnectedLeast(pairs: seq<(nat, nat)>, e: (nat, nat) -> bool, x: nat, y: nat)
    requires Equivalence(e) && forall i | 0 <= i < |pairs| :: e(pairs[i].0, pairs[i].1)
    requires Connected(pairs, x, y)
    ensures e(x, y)
  {
    if pairs != [] {
      var rest := pairs[..|pairs| - 1];
      var (a, b) := pairs[|pairs| - 1];
      forall u, v | Connected(rest, u, v) ensures e(u, v) {
        ConnectedLeast(rest, e, u, v);
      }
    }
  }

  // ---------- the state of the structure ----------

  ghost function Class(p: seq<nat>, bound: seq<nat>, r: nat): set<nat>
    requires Forest(p, bound)
  {
    set x: nat | x < |p| && Root(p, bound, x) == r
  }

  ghost function Roots(p: seq<nat>): set<nat> {
    set x: nat | x < |p| && p[x] == x
  }

  // sizes holds the class size at each root and bounds the depth logarithmically
  ghost predicate Counts(p: seq<nat>, bound: seq<nat>, sizes: seq<nat>)
    requires Forest(p, bound)
  {
    && |sizes| == |p|
    && (forall x {:trigger sizes[x]} | 0 <= x < |p| :: sizes[x] == if p[x] == x then |Class(p, bound, x)| else 0)
    && (forall x {:trigger Pow2(bound[x])} | 0 <= x < |p| :: Pow2(bound[x]) <= sizes[Root(p, bound, x)])
  }

  // the classes are those of the equivalence closure of all unions
  ghost predicate Represents(p: seq<nat>, bound: seq<nat>, unions: seq<(nat, nat)>)
    requires Forest(p, bound)
  {
    forall x, y {:trigger Connected(unions, x, y)} | 0 <= x < |p| && 0 <= y < |p| ::
      Root(p, bound, x) == Root(p, bound, y) <==> Connected(unions, x, y)
  }

  ghost predicate State(p: seq<nat>, bound: seq<nat>, sizes: seq<nat>, setCount: nat, unions: seq<(nat, nat)>) {
    Forest(p, bound) && setCount == |Roots(p)| && Counts(p, bound, sizes) && Represents(p, bound, unions)
  }

  lemma CompressedState(p: seq<nat>, bound: seq<nat>, p': seq<nat>, sizes: seq<nat>, setCount: nat, unions: seq<(nat,
          nat)>)
    requires State(p, bound, sizes, setCount, unions) && Compressed(p, bound, p')
    ensures State(p', bound, sizes, setCount, unions)
    ensures forall x | 0 <= x < |p| :: Root(p', bound, x) == Root(p, bound, x)
    ensures forall x | 0 <= x < |p| :: Depth(p', bound, x) <= Depth(p, bound, x)
  {
    forall x | 0 <= x < |p|
      ensures Root(p', bound, x) == Root(p, bound, x) && Depth(p', bound, x) <= Depth(p, bound, x)
      ensures p'[x] == x <==> p[x] == x
    {
      CompressedRoot(p, bound, p', x);
    }
    assert Roots(p') == Roots(p);
    forall r: nat ensures Class(p', bound, r) == Class(p, bound, r) {}
  }

  // 2 to the power of an element's depth is at most the size of its set.
  lemma DepthBound(p: seq<nat>, bound: seq<nat>, sizes: seq<nat>, setCount: nat, unions: seq<(nat, nat)>, x: nat)
    requires State(p, bound, sizes, setCount, unions) && x < |p|
    ensures Pow2(Depth(p, bound, x)) <= sizes[Root(p, bound, x)]
  {
    Pow2Monotone(Depth(p, bound, x), bound[x]);
  }

  // the elements below n that the unions connect to x
  ghost function Component(n: nat, unions: seq<(nat, nat)>, x: nat): set<nat> {
    set y: nat | y < n && Connected(unions, x, y)
  }

  lemma ClassConnected(p: seq<nat>, bound: seq<nat>, sizes: seq<nat>, setCount: nat, unions: seq<(nat, nat)>, x: nat)
    requires State(p, bound, sizes, setCount, unions) && x < |p|
    ensures sizes[Root(p, bound, x)] == |Component(|p|, unions, x)|
  {
    assert Component(|p|, unions, x) == Class(p, bound, Root(p, bound, x));
  }

  lemma LinkedClasses(p: seq<nat>, bound: seq<nat>, a: nat, b: nat)
    requires Forest(p, bound) && a < |p| && b < |p| && p[a] == a && p[b] == b && a != b
    ensures Forest(p[b := a], Linked(p, bound, b))
    ensures forall x | 0 <= x < |p| ::
      Root(p[b := a], Linked(p, bound, b), x) == if Root(p, bound, x) == b then a else Root(p, bound, x)
    ensures var p', bound' := p[b := a], Linked(p, bound, b);
      && Class(p', bound', a) == Class(p, bound, a) + Class(p, bound, b)
      && Class(p, bound, a) !! Class(p, bound, b)
      && (forall r | 0 <= r < |p| && r != a && r != b :: Class(p', bound', r) == Class(p, bound, r))
      && Roots(p') == Roots(p) - {b}
  {
    var p', bound' := p[b := a], Linked(p, bound, b);
    forall x | 0 <= x < |p| ensures Root(p', bound', x) == if Root(p, bound, x) == b then a else Root(p, bound, x) {
      LinkedRoot(p, bound, a, b, x);
    }
  }

  lemma LinkedConnected(p: seq<nat>, bound: seq<nat>, unions: seq<(nat, nat)>, a: nat, b: nat, x: nat, y: nat)
    requires Forest(p, bound) && Represents(p, bound, unions)
    requires a < |p| && b < |p| && p[a] == a && p[b] == b && a != b && x < |p| && y < |p|
    requires (Root(p, bound, x) == a && Root(p, bound, y) == b) || (Root(p, bound, x) == b && Root(p, bound, y) == a)
    ensures Forest(p[b := a], Linked(p, bound, b)) && Represents(p[b := a], Linked(p, bound, b), unions + [(x, y)])
  {
    var p', bound', unions' := p[b := a], Linked(p, bound, b), unions + [(x, y)];
    LinkedClasses(p, bound, a, b);
    assert unions'[..|unions'| - 1] == unions;
    forall u, v | 0 <= u < |p| && 0 <= v < |p|
      ensures Root(p', bound', u) == Root(p', bound', v) <==> Connected(unions', u, v)
    {
      assert Connected(unions, u, v) <==> Root(p, bound, u) == Root(p, bound, v);
      assert Connected(unions, u, x) <==> Root(p, bound, u) == Root(p, bound, x);
      assert Connected(unions, u, y) <==> Root(p, bound, u) == Root(p, bound, y);
      assert Connected(unions, x, v) <==> Root(p, bound, x) == Root(p, bound, v);
      assert Connected(unions, y, v) <==> Root(p, bound, y) == Root(p, bound, v);
    }
  }

  lemma LinkedSizes(p: seq<nat>, bound: seq<nat>, sizes: seq<nat>, a: nat, b: nat, x: nat)
    requires Forest(p, bound) && Counts(p, bound, sizes) && x < |p|
    requires a < |p| && b < |p| && p[a] == a && p[b] == b && a != b
    requires Forest(p[b := a], Linked(p, bound, b))
    ensures sizes[a := sizes[a] + sizes[b]][b := 0][x]
         == if p[b := a][x] == x then |Class(p[b := a], Linked(p, bound, b), x)| else 0
  {
    LinkedClasses(p, bound, a, b);
    if x == a {
      assert |Class(p[b := a], Linked(p, bound, b), a)| == |Class(p, bound, a)| + |Class(p, bound, b)|;
    }
  }

  lemma LinkedDepth(p: seq<nat>, bound: seq<nat>, sizes: seq<nat>, a: nat, b: nat, x: nat)
    requires Forest(p, bound) && Counts(p, bound, sizes) && x < |p|
    requires a < |p| && b < |p| && a != b && sizes[b] <= sizes[a]
    ensures var r := Root(p, bound, x);
      Pow2(Linked(p, bound, b)[x]) <= sizes[a := sizes[a] + sizes[b]][b := 0][if r == b then a else r]
  {
    assert Pow2(bound[x]) <= sizes[Root(p, bound, x)];
    assert Pow2(bound[x] + 1) == 2 * Pow2(bound[x]);
  }

  lemma LinkedCounts(p: seq<nat>, bound: seq<nat>, sizes: seq<nat>, a: nat, b: nat)
    requires Forest(p, bound) && Counts(p, bound, sizes)
    requires a < |p| && b < |p| && p[a] == a && p[b] == b && a != b && sizes[b] <= sizes[a]
    requires Forest(p[b := a], Linked(p, bound, b))
    ensures Counts(p[b := a], Linked(p, bound, b), sizes[a := sizes[a] + sizes[b]][b := 0])
  {
    var p', bound', sizes' := p[b := a], Linked(p, bound, b), sizes[a := sizes[a] + sizes[b]][b := 0];
    forall x | 0 <= x < |p|
      ensures sizes'[x] == if p'[x] == x then |Class(p', bound', x)| else 0
      ensures Pow2(bound'[x]) <= sizes'[Root(p', bound', x)]
    {
      LinkedSizes(p, bound, sizes, a, b, x);
      LinkedDepth(p, bound, sizes, a, b, x);
      LinkedRoot(p, bound, a, b, x);
    }
  }

  // Linking the smaller root b below the larger root a records the union of x and y.
  lemma LinkedState(p: seq<nat>, bound: seq<nat>, sizes: seq<nat>, setCount: nat, unions: seq<(nat, nat)>, a: nat,
          b: nat, x: nat, y: nat,
      p': seq<nat>, sizes': seq<nat>)
    requires State(p, bound, sizes, setCount, unions)
    requires a < |p| && b < |p| && p[a] == a && p[b] == b && a != b && sizes[b] <= sizes[a] && x < |p| && y < |p|
    requires (Root(p, bound, x) == a && Root(p, bound, y) == b) || (Root(p, bound, x) == b && Root(p, bound, y) == a)
    requires p' == p[b := a] && sizes' == sizes[a := sizes[a] + sizes[b]][b := 0]
    ensures setCount > 0 && State(p', Linked(p, bound, b), sizes', setCount - 1, unions + [(x, y)])
  {
    LinkedClasses(p, bound, a, b);
    LinkedCounts(p, bound, sizes, a, b);
    LinkedConnected(p, bound, unions, a, b, x, y);
    assert b in Roots(p);
  }

  lemma UnitedState(p: seq<nat>, bound: seq<nat>, sizes: seq<nat>, setCount: nat, unions: seq<(nat, nat)>, x: nat,
          y: nat)
    requires State(p, bound, sizes, setCount, unions) && x < |p| && y < |p|
    requires Root(p, bound, x) == Root(p, bound, y)
    ensures State(p, bound, sizes, setCount, unions + [(x, y)])
  {
  }

  // every element its own set
  ghost function Identity(n: nat): seq<nat> { seq(n, x => x) }

  ghost function Constant(n: nat, v: nat): seq<nat> { seq(n, _ => v) }

  lemma SingletonState(n: nat)
    ensures State(Identity(n), Constant(n, 0), Constant(n, 1), n, [])
  {
    var p, bound := Identity(n), Constant(n, 0);
    forall x | 0 <= x < n ensures Class(p, bound, x) == {x} {}
    RootsIdentity(n);
  }

  lemma {:induction false} RootsIdentity(n: nat)
    ensures |Roots(Identity(n))| == n
  {
    if n == 0 {
      assert Roots(Identity(0)) == {};
    } else {
      RootsIdentity(n - 1);
      assert Roots(Identity(n)) == Roots(Identity(n - 1)) + {n - 1};
    }
  }

  // ---------- the walk of find ----------

  // path compression along the way from x, done before it reaches cur
  ghost predicate CompressedUpTo(p: seq<nat>, bound: seq<nat>, p': seq<nat>, x: nat, cur: nat)
    requires Forest(p, bound) && x < |p| && cur < |p|
  {
    && |p'| == |p| && Path(p, bound, cur) <= Path(p, bound, x)
    && forall y | 0 <= y < |p| ::
         p'[y] == if y in Path(p, bound, x) && y !in Path(p, bound, cur) then Root(p, bound, x) else p[y]
  }

  lemma {:induction false} PathRoot(p: seq<nat>, bound: seq<nat>, x: nat, y: nat)
    requires Forest(p, bound) && x < |p| && y in Path(p, bound, x)
    ensures Root(p, bound, y) == Root(p, bound, x)
    decreases bound[x]
  {
    if y != x {
      PathRoot(p, bound, p[x], y);
    }
  }

  lemma CompressDone(p: seq<nat>, bound: seq<nat>, p': seq<nat>, x: nat, cur: nat)
    requires Forest(p, bound) && x < |p| && cur < |p| && CompressedUpTo(p, bound, p', x, cur)
    ensures Compressed(p, bound, p')
    ensures p[cur] == cur ==> forall y | 0 <= y < |p| ::
      p'[y] == if y in Path(p, bound, x) then Root(p, bound, x) else p[y]
  {
    forall y | 0 <= y < |p| ensures p'[y] == p[y] || p'[y] == Root(p, bound, y) {
      if y in Path(p, bound, x) {
        PathRoot(p, bound, x, y);
      }
    }
    if p[cur] == cur {
      PathRoot(p, bound, x, cur);
    }
  }
}
