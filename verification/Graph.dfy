/** src/graph.c: a weighted multigraph with one adjacency list per vertex. The vectors are
    sequences, and an append may fail. */
module Graphs {
  import opened Allocation
  import opened GraphEdges

  const GRAPH_EDGE_NOT_FOUND := -1  // for SIZE_MAX, the index of no edge

  class Graph {
    var vertexCount: nat
    var edgeCount: nat
    var directed: bool
    var adjLists: array<seq<Edge>>

    ghost predicate Valid()
      reads this, adjLists
    {
      adjLists.Length == vertexCount && Sound(Edges(), directed, edgeCount)
    }

    ghost function Edges(): (b: Bags)
      reads this, adjLists
      ensures |b| == adjLists.Length
    {
      BagsOf(adjLists[..])
    }

    constructor (directed: bool, vertexCount: nat)
      ensures Valid() && this.directed == directed && this.vertexCount == vertexCount && edgeCount == 0
      ensures forall u | 0 <= u < vertexCount :: Edges()[u] == multiset{}
    {
      this.directed, this.vertexCount, edgeCount := directed, vertexCount, 0;
      adjLists := new seq<Edge>[vertexCount](_ => []);
      new;
      EmptySound(Edges(), directed);
    }

    // the first entry from start on with this target and weight
    method FindDirectedEdge(from: nat, to: nat, weight: int, start: nat) returns (i: int)
      requires from < adjLists.Length
      ensures i == GRAPH_EDGE_NOT_FOUND || (start <= i < |adjLists[from]| && adjLists[from][i] == Edge(to, weight))
      ensures forall j | start <= j < (if i == GRAPH_EDGE_NOT_FOUND then |adjLists[from]| else i) ::
        adjLists[from][j] != Edge(to, weight)
    {
      i := start;
      while i < |adjLists[from]|
        invariant start <= i
        invariant forall j | start <= j < i && j < |adjLists[from]| :: adjLists[from][j] != Edge(to, weight)
      {
        if adjLists[from][i].to == to && adjLists[from][i].weight == weight {
          return;
        }
        i := i + 1;
      }
      return GRAPH_EDGE_NOT_FOUND;
    }

    // Adds one logical edge, at the end of its list or lists; when the second direction cannot be
    // stored, the first is taken back.
    method AddEdge(from: nat, to: nat, weight: int, plenty: bool) returns (ok: bool)
      requires Valid()
      modifies `edgeCount, adjLists
      ensures Valid() && (ok ==> from < vertexCount && to < vertexCount)
      ensures ok ==>
        var l := old(adjLists[..]);
        var l1 := l[from := l[from] + [Edge(to, weight)]];
        adjLists[..] == if directed then l1 else l1[to := l1[to] + [Edge(from, weight)]]
      ensures Edges() == if ok then Add(old(Edges()), directed, from, to, weight) else old(Edges())
      ensures edgeCount == if ok then old(edgeCount) + 1 else old(edgeCount)
      ensures !ok ==> adjLists[..] == old(adjLists[..])
      ensures plenty && from < vertexCount && to < vertexCount ==> ok
    {
      if from >= vertexCount || to >= vertexCount {
        return false;
      }
      AddSound(Edges(), directed, edgeCount, from, to, weight);
      ok := StoreEdge(from, to, weight, plenty);
      if ok {
        edgeCount := edgeCount + 1;
      }
    }

    method StoreEdge(from: nat, to: nat, weight: int, plenty: bool) returns (ok: bool)
      requires from < adjLists.Length && to < adjLists.Length
      modifies adjLists
      ensures ok ==>
        var l := old(adjLists[..]);
        var l1 := l[from := l[from] + [Edge(to, weight)]];
        adjLists[..] == if directed then l1 else l1[to := l1[to] + [Edge(from, weight)]]
      ensures if ok then Edges() == Add(old(Edges()), directed, from, to, weight) else adjLists[..] == old(adjLists[..])
      ensures plenty ==> ok
    {
      ok := Attempt(plenty);
      if !ok {
        return;
      }
      PushEdge(from, Edge(to, weight));
      if !directed {
        ok := Attempt(plenty);
        if !ok {
          PopEdge(from);
          return;
        }
        PushEdge(to, Edge(from, weight));
      }
    }

    // vector_push
    method PushEdge(u: nat, e: Edge)
      requires u < adjLists.Length
      modifies adjLists
      ensures adjLists[..] == old(adjLists[..])[u := old(adjLists[u]) + [e]]
      ensures Edges() == With(old(Edges()), u, e)
    {
      ghost var before := adjLists[..];
      adjLists[u] := adjLists[u] + [e];
      assert adjLists[..] == before[u := before[u] + [e]];
    }

    // vector_pop
    method PopEdge(u: nat)
      requires u < adjLists.Length && |adjLists[u]| > 0
      modifies adjLists
      ensures adjLists[..] == old(adjLists[..])[u := old(adjLists[u])[..|old(adjLists[u])| - 1]]
    {
      ghost var s := adjLists[u];
      var n := |adjLists[u]| - 1;
      EraseEdge(u, n);
      assert Erased(s, n) == s[..n];
    }

    // vector_erase
    method EraseEdge(u: nat, i: nat)
      requires u < adjLists.Length && i < |adjLists[u]|
      modifies adjLists
      ensures adjLists[..] == old(adjLists[..])[u := Erased(old(adjLists[u]), i)]
      ensures Edges() == Without(old(Edges()), u, old(adjLists[u][i]))
    {
      ghost var before := adjLists[..];
      EraseBag(adjLists[u], i);
      adjLists[u] := adjLists[u][..i] + adjLists[u][i + 1..];
      assert adjLists[..] == before[u := Erased(before[u], i)];
    }

    lemma ReverseFound(from: nat, to: nat, weight: int, fromIndex: nat, toIndex: int)
      requires Symmetric(Edges()) && from < adjLists.Length && to < adjLists.Length
      requires fromIndex < |adjLists[from]| && adjLists[from][fromIndex] == Edge(to, weight)
      requires forall j | 0 <= j < fromIndex :: adjLists[from][j] != Edge(to, weight)
      requires toIndex == GRAPH_EDGE_NOT_FOUND ==>
        forall j | (if from == to then fromIndex + 1 else 0) <= j < |adjLists[to]| ::
          adjLists[to][j] != Edge(from, weight)
      ensures toIndex != GRAPH_EDGE_NOT_FOUND
    {
      ReverseStored(Edges(), from, to, weight);
      if from == to {
        EraseBag(adjLists[from], fromIndex);
        assert Edge(from, weight) in Erased(adjLists[from], fromIndex);
      }
    }

    // The entry at i of one list is gone and, without direction, its reverse at j.
    twostate predicate BothErased(from: nat, to: nat, i: nat, j: nat)
      requires from < old(adjLists.Length) && to < old(adjLists.Length) <= adjLists.Length
      requires i < |old(adjLists[from])| && (directed || (j < |old(adjLists[to])| && (from == to ==> i < j)))
      reads this, adjLists
    {
      && (forall u | 0 <= u < old(adjLists.Length) && u != from && (directed || u != to) ::
            adjLists[u] == old(adjLists[u]))
      && if directed then adjLists[from] == Erased(old(adjLists[from]), i)
         else if from == to then adjLists[from] == Erased(Erased(old(adjLists[from]), j), i)
         else adjLists[from] == Erased(old(adjLists[from]), i) && adjLists[to] == Erased(old(adjLists[to]), j)
    }

    // the reverse direction is erased first, which in one list is the later entry
    method EraseTwo(from: nat, i: nat, to: nat, j: nat)
      requires from < adjLists.Length && to < adjLists.Length && !directed
      requires i < |adjLists[from]| && j < |adjLists[to]| && (from == to ==> i < j)
      modifies adjLists
      ensures var b, e, r := old(Edges()), old(adjLists[from][i]), old(adjLists[to][j]);
        Edges() == Without(Without(b, to, r), from, e)
      ensures BothErased(from, to, i, j)
    {
      EraseEdge(to, j);
      EraseEdge(from, i);
    }

    // the undirected case: the search for the reverse direction always succeeds
    method EraseBoth(from: nat, to: nat, weight: int, i: nat) returns (ghost j: nat)
      requires adjLists.Length == vertexCount && Symmetric(Edges()) && from < vertexCount && to < vertexCount
      requires !directed && i < |adjLists[from]| && adjLists[from][i] == Edge(to, weight)
      requires forall k | 0 <= k < i :: adjLists[from][k] != Edge(to, weight)
      modifies adjLists
      ensures Edges() == Delete(old(Edges()), false, from, to, weight)
      ensures j < |old(adjLists[to])| && old(adjLists[to])[j] == Edge(from, weight) && (from == to ==> i < j)
      ensures BothErased(from, to, i, j)
      ensures forall k | (if from == to then i + 1 else 0) <= k < j :: old(adjLists[to])[k] != Edge(from, weight)
    {
      var toIndex := FindDirectedEdge(to, from, weight, if from == to then i + 1 else 0);
      ReverseFound(from, to, weight, i, toIndex);
      if toIndex == GRAPH_EDGE_NOT_FOUND {
        assert false;
      }
      j := toIndex;
      EraseTwo(from, i, to, toIndex);
      Commute(old(Edges()), from, Edge(to, weight), to, Edge(from, weight));
    }

    method EraseFound(from: nat, to: nat, weight: int, i: nat) returns (ghost j: nat)
      requires adjLists.Length == vertexCount && (directed || Symmetric(Edges()))
      requires from < vertexCount && to < vertexCount && i < |adjLists[from]| && adjLists[from][i] == Edge(to, weight)
      requires forall k | 0 <= k < i :: adjLists[from][k] != Edge(to, weight)
      modifies adjLists
      ensures Edges() == Delete(old(Edges()), directed, from, to, weight)
      ensures !directed ==>
        && j < |old(adjLists[to])| && old(adjLists[to])[j] == Edge(from, weight) && (from == to ==> i < j)
        && forall k | (if from == to then i + 1 else 0) <= k < j :: old(adjLists[to])[k] != Edge(from, weight)
      ensures BothErased(from, to, i, j)
    {
      j := 0;
      if directed {
        EraseEdge(from, i);
      } else {
        j := EraseBoth(from, to, weight, i);
      }
    }

    // graph_delete_edge for two vertices, but for the count
    method EraseLogical(from: nat, to: nat, weight: int) returns (r: int, ghost i: nat, ghost j: nat)
      requires adjLists.Length == vertexCount && (directed || Symmetric(Edges()))
      requires from < vertexCount && to < vertexCount
      modifies adjLists
      ensures r == if Edge(to, weight) in old(adjLists[from]) then 1 else 0
      ensures r == 0 ==> adjLists[..] == old(adjLists[..])
      ensures r == 1 ==>
        && i < |old(adjLists[from])| && old(adjLists[from])[i] == Edge(to, weight)
        && forall k | 0 <= k < i :: old(adjLists[from])[k] != Edge(to, weight)
      ensures r == 1 && !directed ==>
        && j < |old(adjLists[to])| && old(adjLists[to])[j] == Edge(from, weight) && (from == to ==> i < j)
        && forall k | (if from == to then i + 1 else 0) <= k < j :: old(adjLists[to])[k] != Edge(from, weight)
      ensures r == 1 ==>
        forall u | 0 <= u < vertexCount && u != from && (directed || u != to) :: adjLists[u] == old(adjLists[u])
      ensures r == 1 && (directed || from != to) ==> adjLists[from] == Erased(old(adjLists[from]), i)
      ensures r == 1 && !directed && from != to ==> adjLists[to] == Erased(old(adjLists[to]), j)
      ensures r == 1 && !directed && from == to ==> adjLists[from] == Erased(Erased(old(adjLists[from]), j), i)
      ensures r == 1 ==> Edges() == Delete(old(Edges()), directed, from, to, weight)
    {
      i, j := 0, 0;
      var fromIndex := FindDirectedEdge(from, to, weight, 0);
      if fromIndex == GRAPH_EDGE_NOT_FOUND {
        return 0, i, j;
      }
      i := fromIndex;
      j := EraseFound(from, to, weight, fromIndex);
      return 1, i, j;
    }

    method CountDown()
      requires adjLists.Length == vertexCount && edgeCount > 0 && Sound(Edges(), directed, edgeCount - 1)
      modifies `edgeCount
      ensures Valid() && edgeCount == old(edgeCount) - 1
    {
      edgeCount := edgeCount - 1;
    }

    // Removes one logical edge: 1 when removed, 0 when there is none, -1 on invalid input. The
    // first entry that matches goes, at i, and without direction its reverse, at j.
    method DeleteEdge(from: nat, to: nat, weight: int) returns (r: int, ghost i: nat, ghost j: nat)
      requires Valid()
      modifies `edgeCount, adjLists
      ensures Valid() && (r == -1 <==> from >= vertexCount || to >= vertexCount)
      ensures r != -1 ==> r == if Edge(to, weight) in old(adjLists[from]) then 1 else 0
      ensures r == 1 ==>
        && i < |old(adjLists[from])| && old(adjLists[from])[i] == Edge(to, weight)
        && forall k | 0 <= k < i :: old(adjLists[from])[k] != Edge(to, weight)
      ensures r == 1 && !directed ==>
        && j < |old(adjLists[to])| && old(adjLists[to])[j] == Edge(from, weight) && (from == to ==> i < j)
        && forall k | (if from == to then i + 1 else 0) <= k < j :: old(adjLists[to])[k] != Edge(from, weight)
      ensures r == 1 ==>
        forall u | 0 <= u < vertexCount && u != from && (directed || u != to) :: adjLists[u] == old(adjLists[u])
      ensures r == 1 && (directed || from != to) ==> adjLists[from] == Erased(old(adjLists[from]), i)
      ensures r == 1 && !directed && from != to ==> adjLists[to] == Erased(old(adjLists[to]), j)
      ensures r == 1 && !directed && from == to ==> adjLists[from] == Erased(Erased(old(adjLists[from]), j), i)
      ensures r == 1 ==> Edges() == Delete(old(Edges()), directed, from, to, weight) && edgeCount == old(edgeCount) - 1
      ensures r != 1 ==> adjLists[..] == old(adjLists[..]) && edgeCount == old(edgeCount)
    {
      if from >= vertexCount || to >= vertexCount {
        return -1, 0, 0;
      }
      ghost var b := Edges();
      r, i, j := EraseLogical(from, to, weight);
      if r == 1 {
        DeleteSound(b, directed, edgeCount, from, to, weight);
        CountDown();
      }
    }

    // a caller that takes back an edge it has just added
    method AddThenDelete(from: nat, to: nat, weight: int, plenty: bool) returns (ok: bool, r: int)
      requires Valid()
      modifies `edgeCount, adjLists
      ensures Valid() && Edges() == old(Edges()) && edgeCount == old(edgeCount)
      ensures ok ==> r == 1
      ensures plenty && from < vertexCount && to < vertexCount ==> ok
    {
      ghost var b := Edges();
      r := 0;
      ok := AddEdge(from, to, weight, plenty);
      if ok {
        ghost var i, j;
        r, i, j := DeleteEdge(from, to, weight);
        AddDelete(b, directed, from, to, weight);
      }
    }

    // is there any edge from one vertex to another?
    method HasEdge(from: nat, to: nat) returns (found: bool)
      requires Valid()
      ensures found <==> from < vertexCount && to < vertexCount && exists w :: Edge(to, w) in adjLists[from]
    {
      if from >= vertexCount || to >= vertexCount {
        return false;
      }
      for i := 0 to |adjLists[from]|
        invariant forall j | 0 <= j < i :: adjLists[from][j].to != to
      {
        if adjLists[from][i].to == to {
          assert Edge(to, adjLists[from][i].weight) in adjLists[from];
          return true;
        }
      }
      return false;
    }

    method Degree(u: nat) returns (d: int)
      requires Valid()
      ensures d == if u < vertexCount then |adjLists[u]| else -1
    {
      d := if u < vertexCount then |adjLists[u]| else -1;
    }

    method Clear()
      requires Valid()
      modifies `edgeCount, adjLists
      ensures Valid() && edgeCount == 0
      ensures forall u | 0 <= u < vertexCount :: adjLists[u] == []
    {
      for i := 0 to vertexCount
        invariant forall j | 0 <= j < i :: adjLists[j] == []
      {
        adjLists[i] := [];
      }
      edgeCount := 0;
      EmptySound(Edges(), directed);
    }

    // Makes this graph equal to src, list by list in order; a failure leaves it as it was.
    method CopyFrom(src: Graph, plenty: bool) returns (ok: bool)
      requires Valid() && src.Valid()
      modifies this
      ensures Valid()
      ensures ok ==> adjLists[..] == old(src.adjLists[..])
      ensures ok ==> edgeCount == old(src.edgeCount) && directed == old(src.directed)
      ensures ok && this != src ==> fresh(adjLists)
      ensures !ok ==> adjLists == old(adjLists) && edgeCount == old(edgeCount) && directed == old(directed)
      ensures plenty ==> ok
    {
      if this == src {
        return true;
      }
      ok := Attempt(plenty);
      if !ok {
        return;
      }
      var lists := CopyLists(src);
      adjLists, vertexCount, edgeCount, directed := lists, src.vertexCount, src.edgeCount, src.directed;
    }

    static method CopyLists(src: Graph) returns (lists: array<seq<Edge>>)
      requires src.Valid()
      ensures fresh(lists) && lists[..] == src.adjLists[..]
    {
      lists := new seq<Edge>[src.vertexCount];
      for i := 0 to src.vertexCount
        invariant lists[..i] == src.adjLists[..i]
      {
        lists[i] := src.adjLists[i];
      }
    }
  }
}
