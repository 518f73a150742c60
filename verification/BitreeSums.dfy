/** The arithmetic of the Fenwick tree of src/bitree.c: the lowest set bit of an index,
    which range each node covers, and sums over ranges. */
module BitreeSums {
  import opened BinaryArithmetic

  // the lowest set bit of i
  function LowBit(i: nat): (b: nat)
    requires i > 0
    ensures 0 < b <= i
  {
    if i % 2 == 1 then 1 else 2 * LowBit(i / 2)
  }

  function PopCount(i: nat): nat { if i == 0 then 0 else PopCount(i / 2) + i % 2 }

  // i & (~i + 1) in words of w bits
  lemma {:induction false} LowBitMask(i: nat, w: nat)
    requires 0 < i < Pow2(w)
    ensures And(i, Pow2(w) - i) == LowBit(i)
  {
    var p, h := Pow2(w - 1), i / 2;
    assert Pow2(w) == 2 * p;
    if i % 2 == 1 {
      assert (2 * p - i) / 2 == p - 1 - h && (2 * p - i) % 2 == 1;
      Disjoint(h, w - 1);
    } else {
      assert (2 * p - i) / 2 == p - h && (2 * p - i) % 2 == 0;
      LowBitMask(h, w - 1);
    }
  }

  // a number and its complement share no bit
  lemma {:induction false} Disjoint(h: nat, w: nat)
    requires h < Pow2(w)
    ensures And(h, Pow2(w) - 1 - h) == 0
  {
    if h > 0 {
      var p := Pow2(w - 1);
      assert Pow2(w) == 2 * p;
      assert (2 * p - 1 - h) / 2 == p - 1 - h / 2;
      assert h % 2 == 1 ==> (2 * p - 1 - h) % 2 == 0;
      Disjoint(h / 2, w - 1);
    }
  }

  // Taking the lowest bit off leaves one bit less.
  lemma {:induction false} PopCountStep(i: nat)
    requires i > 0
    ensures PopCount(i) == PopCount(i - LowBit(i)) + 1
  {
    if i % 2 == 1 {
      assert (i - 1) / 2 == i / 2;
    } else {
      PopCountStep(i / 2);
      assert i - LowBit(i) == 2 * (i / 2 - LowBit(i / 2));
    }
  }

  // ---------- which nodes cover a position ----------

  // node i covers the positions [i - LowBit(i), i)
  ghost predicate Covers(i: nat, p: nat) { i > 0 && i - LowBit(i) <= p < i }

  lemma {:induction false} Between(i: nat, r: nat)
    requires i > 0 && 0 < r < LowBit(i)
    ensures LowBit(i + r) == LowBit(r)
  {
    if r % 2 == 1 {
      assert i % 2 == 0;
    } else {
      Between(i / 2, r / 2);
      assert (i + r) / 2 == i / 2 + r / 2;
    }
  }

  lemma {:induction false} Doubles(i: nat)
    requires i > 0
    ensures LowBit(i + LowBit(i)) >= 2 * LowBit(i)
  {
    if i % 2 == 0 {
      Doubles(i / 2);
      assert (i + LowBit(i)) / 2 == i / 2 + LowBit(i / 2);
    }
  }

  // The next node that covers p after i is i + LowBit(i).
  lemma NextCover(i: nat, p: nat)
    requires Covers(i, p)
    ensures Covers(i + LowBit(i), p)
    ensures forall j | i < j < i + LowBit(i) :: !Covers(j, p)
  {
    Doubles(i);
    forall j | i < j < i + LowBit(i) ensures !Covers(j, p) {
      Between(i, j - i);
    }
  }

  // ---------- sums ----------

  ghost function Sum(v: seq<int>, lo: nat, hi: nat): int
    requires lo <= hi <= |v|
  {
    if lo == hi then 0 else Sum(v, lo, hi - 1) + v[hi - 1]
  }

  lemma {:induction false} SumSplit(v: seq<int>, lo: nat, mid: nat, hi: nat)
    requires lo <= mid <= hi <= |v|
    ensures Sum(v, lo, hi) == Sum(v, lo, mid) + Sum(v, mid, hi)
  {
    if mid < hi {
      SumSplit(v, lo, mid, hi - 1);
    }
  }

  lemma {:induction false} SumUpdate(v: seq<int>, p: nat, x: int, lo: nat, hi: nat)
    requires p < |v| && lo <= hi <= |v|
    ensures Sum(v[p := x], lo, hi) == Sum(v, lo, hi) + if lo <= p < hi then x - v[p] else 0
  {
    if lo < hi {
      SumUpdate(v, p, x, lo, hi - 1);
    }
  }

  lemma {:induction false} SumZero(v: seq<int>, lo: nat, hi: nat)
    requires lo <= hi <= |v| && forall p | 0 <= p < |v| :: v[p] == 0
    ensures Sum(v, lo, hi) == 0
  {
    if lo < hi {
      SumZero(v, lo, hi - 1);
    }
  }

  // every node holds the sum of what it covers
  ghost predicate Tree(nodes: seq<int>, v: seq<int>) {
    && |nodes| == |v| + 1
    && forall i {:trigger nodes[i]} | 0 < i <= |v| :: nodes[i] == Sum(v, i - LowBit(i), i)
  }

  // one round of the loop for prefix sums
  lemma PrefixStep(nodes: seq<int>, v: seq<int>, c: nat)
    requires Tree(nodes, v) && 0 < c <= |v|
    ensures Sum(v, 0, c) == Sum(v, 0, c - LowBit(c)) + nodes[c] && PopCount(c) == PopCount(c - LowBit(c)) + 1
  {
    SumSplit(v, 0, c - LowBit(c), c);
    PopCountStep(c);
  }

  // When exactly the nodes that cover p have grown by d, the value at p has.
  lemma TreeAdd(nodes: seq<int>, nodes': seq<int>, v: seq<int>, p: nat, d: int)
    requires Tree(nodes, v) && p < |v| && |nodes'| == |nodes|
    requires forall i {:trigger nodes'[i]} | 0 < i <= |v| :: nodes'[i] == nodes[i] + if Covers(i, p) then d else 0
    ensures Tree(nodes', v[p := v[p] + d])
  {
    forall i | 0 < i <= |v| ensures nodes'[i] == Sum(v[p := v[p] + d], i - LowBit(i), i) {
      SumUpdate(v, p, v[p] + d, i - LowBit(i), i);
      assert nodes[i] == Sum(v, i - LowBit(i), i);
    }
  }

  // the nodes below i that cover p, and no others, have been visited
  ghost predicate Visited(visited: seq<nat>, i: nat, p: nat) {
    && Covers(i, p)
    && (forall j | j in visited :: 0 < j < i)
    && (forall j | 0 < j < i :: j in visited <==> Covers(j, p))
  }

  // each step at least doubles the lowest bit
  ghost predicate Doubled(steps: nat, i: nat, p: nat, size: nat)
    requires i > 0
  {
    && Pow2(steps) <= LowBit(i)
    && if steps == 0 then i == p + 1 else Pow2(steps - 1) <= size
  }

  // the nodes below i that cover p, and no others, have grown by d
  ghost predicate Grown(nodes: seq<int>, nodes': seq<int>, i: nat, p: nat, d: int) {
    && |nodes'| == |nodes|
    && (forall j {:trigger nodes'[j]} | 0 < j < |nodes| ::
          nodes'[j] == nodes[j] + if j < i && Covers(j, p) then d else 0)
  }

  lemma ClimbDone(nodes: seq<int>, nodes': seq<int>, v: seq<int>, visited: seq<nat>, i: nat, p: nat, d: int)
    requires Tree(nodes, v) && p < |v| < i && |nodes| == |nodes'|
    requires Visited(visited, i, p) && Doubled(|visited|, i, p, |v|) && Grown(nodes, nodes', i, p, d)
    ensures Tree(nodes', v[p := v[p] + d])
    ensures forall j | 0 < j <= |v| :: j in visited <==> Covers(j, p)
    ensures |visited| > 0 && Pow2(|visited| - 1) <= |v|
  {
    TreeAdd(nodes, nodes', v, p, d);
  }

  lemma VisitStep(visited: seq<nat>, i: nat, p: nat)
    requires Visited(visited, i, p)
    ensures Visited(visited + [i], i + LowBit(i), p)
  {
    NextCover(i, p);
    forall j | 0 < j < i + LowBit(i) ensures j in visited + [i] <==> Covers(j, p) {
      if j < i {
        assert j in visited <==> Covers(j, p);
      }
    }
  }

  lemma DoubleStep(steps: nat, i: nat, p: nat, size: nat)
    requires 0 < i <= size && Doubled(steps, i, p, size)
    ensures Doubled(steps + 1, i + LowBit(i), p, size)
  {
    Doubles(i);
  }

  lemma GrowStep(nodes: seq<int>, nodes': seq<int>, i: nat, p: nat, d: int)
    requires Covers(i, p) && Grown(nodes, nodes', i, p, d) && i < |nodes|
    ensures Grown(nodes, nodes'[i := nodes'[i] + d], i + LowBit(i), p, d)
  {
    var now, next := nodes'[i := nodes'[i] + d], i + LowBit(i);
    NextCover(i, p);
    forall j | 0 < j < |nodes| ensures now[j] == nodes[j] + if j < next && Covers(j, p) then d else 0 {
      assert nodes'[j] == nodes[j] + if j < i && Covers(j, p) then d else 0;
    }
  }

  lemma TreeZero(nodes: seq<int>, v: seq<int>)
    requires |nodes| == |v| + 1
    requires (forall i | 0 <= i < |nodes| :: nodes[i] == 0) && forall p | 0 <= p < |v| :: v[p] == 0
    ensures Tree(nodes, v)
  {
    forall i | 0 < i <= |v| ensures nodes[i] == Sum(v, i - LowBit(i), i) {
      SumZero(v, i - LowBit(i), i);
    }
  }
}
