/** src/unionfind.c: disjoint sets with path compression and union by size. */
module UnionFinds {
  import opened BinaryArithmetic
  import opened UnionFindForest

  const UNIONFIND_INVALID: nat := 0xFFFF_FFFF_FFFF_FFFF

  class UnionFind {
    const size: nat
    var setCount: nat
    const parents: array<nat>
    const sizes: array<nat>
    ghost var bound: seq<nat>
    ghost var unions: seq<(nat, nat)>  // the pairs united since the last reset

    ghost predicate Valid()
      reads this, parents, sizes
    {
      && parents != sizes && parents.Length == sizes.Length == size
      && State(parents[..], bound, sizes[..], setCount, unions)
    }

    // the representative of x's set
    ghost function RootOf(x: nat): nat
      requires Valid() && x < size
      reads this, parents, sizes
    {
      Root(parents[..], bound, x)
    }

    constructor (size: nat)
      ensures Valid() && this.size == size && unions == [] && fresh(parents) && fresh(sizes)
    {
      this.size := size;
      parents := new nat[size];
      sizes := new nat[size];
      setCount := size;
      new;
      ResetArrays();
    }

    method ResetArrays()
      requires parents != sizes && parents.Length == sizes.Length == size
      modifies this, parents, sizes
      ensures Valid() && unions == []
    {
      for i := 0 to size
        invariant forall j | 0 <= j < i :: parents[j] == j && sizes[j] == 1
      {
        parents[i] := i;
        sizes[i] := 1;
      }
      setCount := size;
      bound, unions := Constant(size, 0), [];
      assert parents[..] == Identity(size) && sizes[..] == Constant(size, 1);
      SingletonState(size);
    }

    // Returns the root of x and hangs every element on the way directly below it.
    // steps and writes count the rounds of the two loops.
    method Find(x: nat) returns (root: nat, ghost steps: nat, ghost writes: nat)
      requires Valid()
      modifies parents
      ensures Valid()
      ensures x >= size ==> root == UNIONFIND_INVALID && parents[..] == old(parents[..])
      ensures x < size ==>
        && root == old(RootOf(x))
        && steps == writes == Depth(old(parents[..]), bound, x) && Pow2(steps) <= sizes[root]
        && forall y | 0 <= y < size ::
             parents[y] == if y in Path(old(parents[..]), bound, x) then root else old(parents[y])
      ensures forall y | 0 <= y < size :: RootOf(y) == old(RootOf(y))
      ensures forall y | 0 <= y < size :: Depth(parents[..], bound, y) <= Depth(old(parents[..]), bound, y)
    {
      ghost var p := parents[..];
      steps, writes := 0, 0;
      if x >= size {
        return UNIONFIND_INVALID, 0, 0;
      }
      root := x;
      while parents[root] != root
        invariant root < size && Root(p, bound, root) == Root(p, bound, x)
        invariant steps + Depth(p, bound, root) == Depth(p, bound, x)
        decreases bound[root]
      {
        root := parents[root];
        steps := steps + 1;
      }
      DepthBound(p, bound, sizes[..], setCount, unions, x);
      writes := Compress(x, root);
    }

    // the second loop of unionfind_find
    method Compress(x: nat, root: nat) returns (ghost writes: nat)
      requires Valid() && x < size && root == RootOf(x)
      modifies parents
      ensures Valid() && writes == Depth(old(parents[..]), bound, x)
      ensures forall y | 0 <= y < size ::
        parents[y] == if y in Path(old(parents[..]), bound, x) then root else old(parents[y])
      ensures forall y | 0 <= y < size :: RootOf(y) == old(RootOf(y))
      ensures forall y | 0 <= y < size :: Depth(parents[..], bound, y) <= Depth(old(parents[..]), bound, y)
    {
      ghost var p := parents[..];
      writes := CompressLinks(x, root);
      CompressedState(p, bound, parents[..], sizes[..], setCount, unions);
    }

    method CompressLinks(x: nat, root: nat) returns (ghost writes: nat)
      requires parents.Length == size && Forest(parents[..], bound) && x < size && root == Root(parents[..], bound, x)
      modifies parents
      ensures Compressed(old(parents[..]), bound, parents[..]) && writes == Depth(old(parents[..]), bound, x)
      ensures forall y | 0 <= y < size ::
        parents[y] == if y in Path(old(parents[..]), bound, x) then root else old(parents[y])
    {
      ghost var p := parents[..];
      var cur: nat := x;
      writes := 0;
      while parents[cur] != cur
        invariant cur < size && CompressedUpTo(p, bound, parents[..], x, cur)
        invariant writes + Depth(p, bound, cur) == Depth(p, bound, x)
        decreases bound[cur]
      {
        ghost var q := parents[..];
        assert cur in Path(p, bound, cur);
        var parent := parents[cur];
        parents[cur] := root;
        assert parents[..] == q[cur := root];
        cur := parent;
        writes := writes + 1;
      }
      assert cur in Path(p, bound, cur);
      CompressDone(p, bound, parents[..], x, cur);
    }

    // the same root, without compression
    method FindConst(x: nat) returns (root: nat, ghost steps: nat)
      requires Valid()
      ensures root == if x < size then RootOf(x) else UNIONFIND_INVALID
      ensures x < size ==> steps == Depth(parents[..], bound, x) && Pow2(steps) <= sizes[root]
    {
      steps := 0;
      if x >= size {
        return UNIONFIND_INVALID, 0;
      }
      root := x;
      while parents[root] != root
        invariant root < size && RootOf(root) == RootOf(x)
        invariant steps + Depth(parents[..], bound, root) == Depth(parents[..], bound, x)
        decreases bound[root]
      {
        root := parents[root];
        steps := steps + 1;
      }
      DepthBound(parents[..], bound, sizes[..], setCount, unions, x);
    }

    // 1 when two sets were merged, 0 when a and b were connected already, -1 on invalid input
    method Union(a: nat, b: nat) returns (r: int)
      requires Valid()
      modifies this, parents, sizes
      ensures Valid()
      ensures r in {-1, 0, 1} && (r == -1 <==> a >= size || b >= size)
      ensures r == -1 ==> unions == old(unions) && parents[..] == old(parents[..])
      ensures r != -1 ==> unions == old(unions) + [(a, b)]
      ensures r == 0 ==> old(Connected(unions, a, b)) && setCount == old(setCount)
      ensures r == 1 ==> !old(Connected(unions, a, b)) && setCount == old(setCount) - 1
      ensures r != 1 ==> forall y | 0 <= y < size :: RootOf(y) == old(RootOf(y))
      ensures r == 1 ==>
        var rootA, rootB := old(RootOf(a)), old(RootOf(b));
        var root := if old(sizes[rootA]) < old(sizes[rootB]) then rootB else rootA;
        forall y | 0 <= y < size ::
          RootOf(y) == if old(RootOf(y)) in {rootA, rootB} then root else old(RootOf(y))
    {
      if a >= size || b >= size {
        return -1;
      }
      var rootA, rootB;
      ghost var steps, writes;
      rootA, steps, writes := Find(a);
      rootB, steps, writes := Find(b);
      if rootA == rootB {
        UnitedState(parents[..], bound, sizes[..], setCount, unions, a, b);
        unions := unions + [(a, b)];
        return 0;
      }

      if sizes[rootA] < sizes[rootB] {
        rootA, rootB := rootB, rootA;
      }
      Link(rootA, rootB, a, b);
      return 1;
    }

    method Link(rootA: nat, rootB: nat, ghost a: nat, ghost b: nat)
      requires Valid() && rootA < size && rootB < size && a < size && b < size
      requires parents[rootA] == rootA && parents[rootB] == rootB && rootA != rootB && sizes[rootB] <= sizes[rootA]
      requires (RootOf(a) == rootA && RootOf(b) == rootB) || (RootOf(a) == rootB && RootOf(b) == rootA)
      modifies this, parents, sizes
      ensures Valid() && unions == old(unions) + [(a, b)] && setCount == old(setCount) - 1
      ensures forall y | 0 <= y < size :: RootOf(y) == if old(RootOf(y)) == rootB then rootA else old(RootOf(y))
    {
      ghost var p, bd, s, n, us := parents[..], bound, sizes[..], setCount, unions;
      bound, unions := Linked(p, bd, rootB), us + [(a, b)];
      assert rootB in Roots(p);
      setCount := setCount - 1;
      LinkArrays(rootA, rootB);
      LinkedState(p, bd, s, n, us, rootA, rootB, a, b, parents[..], sizes[..]);
      forall y | 0 <= y < size ensures RootOf(y) == if Root(p, bd, y) == rootB then rootA else Root(p, bd, y) {
        LinkedRoot(p, bd, rootA, rootB, y);
      }
    }

    method LinkArrays(rootA: nat, rootB: nat)
      requires parents != sizes && rootA < parents.Length && rootB < parents.Length == sizes.Length && rootA != rootB
      modifies parents, sizes
      ensures parents[..] == old(parents[..])[rootB := rootA]
      ensures sizes[..] == old(sizes[..])[rootA := old(sizes[rootA]) + old(sizes[rootB])][rootB := 0]
    {
      parents[rootB] := rootA;
      sizes[rootA] := sizes[rootA] + sizes[rootB];
      sizes[rootB] := 0;
    }

    // 1 when connected, 0 when not, -1 on invalid input
    method Same(a: nat, b: nat) returns (r: int)
      requires Valid()
      modifies parents
      ensures Valid()
      ensures r == if a >= size || b >= size then -1 else if Connected(unions, a, b) then 1 else 0
      ensures forall y | 0 <= y < size :: RootOf(y) == old(RootOf(y))
    {
      if a >= size || b >= size {
        return -1;
      }
      var rootA, rootB;
      ghost var steps, writes;
      rootA, steps, writes := Find(a);
      rootB, steps, writes := Find(b);
      r := if rootA == rootB then 1 else 0;
    }

    // the number of elements connected to x, or 0 on invalid input
    method SetSize(x: nat) returns (n: nat)
      requires Valid()
      modifies parents
      ensures Valid()
      ensures n == if x < size then |set y: nat | y < size && Connected(unions, x, y)| else 0
    {
      if x >= size {
        return 0;
      }
      var root;
      ghost var steps, writes;
      root, steps, writes := Find(x);
      ClassConnected(parents[..], bound, sizes[..], setCount, unions, x);
      n := sizes[root];
      assert Component(size, unions, x) == set y: nat | y < size && Connected(unions, x, y);
    }

    method Reset()
      requires Valid()
      modifies this, parents, sizes
      ensures Valid() && unions == []
    {
      ResetArrays();
    }
  }
}
