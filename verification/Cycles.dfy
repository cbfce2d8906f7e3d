/** The depth-first search by which the relation graph of an envelope is checked for cycles. */
module Cycles {

  type Edges = seq<(string, string)>

  ghost predicate IsPath(edges: Edges, path: seq<string>) {
    |path| >= 1 && forall i :: 0 <= i < |path| - 1 ==> (path[i], path[i + 1]) in edges
  }

  /** A non-empty path from `a` to `b`. */
  ghost predicate Reaches(edges: Edges, a: string, b: string) {
    exists path :: |path| >= 2 && IsPath(edges, path) && path[0] == a && path[|path| - 1] == b
  }

  ghost predicate Cyclic(edges: Edges) { exists node :: Reaches(edges, node, node) }

  type Outgoing = map<string, seq<string>>

  /** The adjacency lists say exactly what the edges say. */
  ghost predicate Adjacency(outgoing: Outgoing, edges: Edges) {
    && (forall a, b :: (a, b) in edges ==> a in outgoing && b in outgoing && b in outgoing[a])
    && (forall a, b :: a in outgoing && b in outgoing[a] ==> (a, b) in edges)
  }

  function SetDefault(outgoing: Outgoing, node: string): Outgoing {
    if node in outgoing then outgoing else outgoing[node := []]
  }

  method BuildOutgoing(nodes: set<string>, edges: Edges) returns (outgoing: Outgoing)
    ensures Adjacency(outgoing, edges) && nodes <= outgoing.Keys
  {
    outgoing := map node | node in nodes :: [];
    for i := 0 to |edges|
      invariant Adjacency(outgoing, edges[..i]) && nodes <= outgoing.Keys
    {
      var (start, end) := edges[i];
      assert edges[..i + 1] == edges[..i] + [(start, end)];
      outgoing := SetDefault(outgoing, start);
      outgoing := outgoing[start := outgoing[start] + [end]];
      outgoing := SetDefault(outgoing, end);
    }
    assert edges[..|edges|] == edges;
  }

  /** Once inside a set that is closed under edges, a path stays inside. */
  lemma {:induction false} PathStaysInside(edges: Edges, inside: set<string>, path: seq<string>, i: nat, j: nat)
    requires IsPath(edges, path) && i <= j < |path| && path[i] in inside
    requires forall a, b :: (a, b) in edges && a in inside ==> b in inside
    ensures path[j] in inside
  {
    if i < j {
      PathStaysInside(edges, inside, path, i, j - 1);
    }
  }

  ghost predicate Closed(edges: Edges, nodes: set<string>) {
    forall a, b :: (a, b) in edges && a in nodes ==> b in nodes
  }

  /** A finished node: everything it leads to is finished, and it is on no cycle. */
  ghost predicate Finished(edges: Edges, visited: set<string>) {
    Closed(edges, visited) && forall v :: v in visited ==> !Reaches(edges, v, v)
  }

  /** A node all of whose successors are finished is on no cycle either. */
  lemma FinishNode(edges: Edges, visited: set<string>, node: string)
    requires Finished(edges, visited) && node !in visited
    requires forall b :: (node, b) in edges ==> b in visited
    ensures Finished(edges, visited + {node})
  {
    if Reaches(edges, node, node) {
      var path :| |path| >= 2 && IsPath(edges, path) && path[0] == node && path[|path| - 1] == node;
      assert (path[0], path[1]) in edges;
      PathStaysInside(edges, visited, path, 1, |path| - 1);
    }
  }

  /** The nodes being visited, as the path that leads to `next`. */
  ghost predicate GrayPath(edges: Edges, gray: seq<string>, visiting: set<string>, next: string) {
    && (forall n :: n in visiting <==> n in gray)
    && (gray != [] ==> IsPath(edges, gray) && (gray[|gray| - 1], next) in edges)
  }

  lemma GrayCycle(edges: Edges, gray: seq<string>, visiting: set<string>, next: string)
    requires GrayPath(edges, gray, visiting, next) && next in visiting
    ensures Cyclic(edges)
  {
    var k :| 0 <= k < |gray| && gray[k] == next;
    var path := gray[k..] + [next];
    forall i | 0 <= i < |path| - 1 ensures (path[i], path[i + 1]) in edges {
      if i < |gray| - k - 1 {
        assert (gray[k + i], gray[k + i + 1]) in edges;
      } else {
        assert path[i] == gray[|gray| - 1] && path[i + 1] == next;
      }
    }
    assert IsPath(edges, path) && |path| >= 2 && path[0] == next && path[|path| - 1] == next;
    assert Reaches(edges, next, next);
  }

  lemma GrayPush(edges: Edges, gray: seq<string>, visiting: set<string>, node: string, next: string)
    requires GrayPath(edges, gray, visiting, node) && (node, next) in edges
    ensures GrayPath(edges, gray + [node], visiting + {node}, next)
  {
    var longer := gray + [node];
    forall i | 0 <= i < |longer| - 1 ensures (longer[i], longer[i + 1]) in edges {
      if i + 1 < |gray| {
        assert (gray[i], gray[i + 1]) in edges;
      }
    }
  }

  lemma CycleHasEdge(edges: Edges, outgoing: Outgoing, node: string)
    requires Adjacency(outgoing, edges) && Reaches(edges, node, node)
    ensures node in outgoing
  {
    var path :| |path| >= 2 && IsPath(edges, path) && path[0] == node && path[|path| - 1] == node;
    assert (path[0], path[1]) in edges;
  }

  class Search {
    const outgoing: Outgoing
    var visiting: set<string>
    var visited: set<string>

    constructor (outgoing: Outgoing)
      ensures this.outgoing == outgoing && visiting == {} && visited == {}
    {
      this.outgoing, visiting, visited := outgoing, {}, {};
    }

    /** Whether a cycle is found from `node`; `gray` is the path of the calls in progress. */
    method Walk(node: string, ghost edges: Edges, ghost gray: seq<string>) returns (found: bool)
      requires Adjacency(outgoing, edges) && node in outgoing
      requires Finished(edges, visited) && visiting !! visited && GrayPath(edges, gray, visiting, node)
      modifies this
      ensures found ==> Cyclic(edges)
      ensures !found ==> visiting == old(visiting) && old(visited) + {node} <= visited
      ensures !found ==> Finished(edges, visited) && visiting !! visited
      decreases outgoing.Keys - visiting - visited
    {
      if node in visiting {
        GrayCycle(edges, gray, visiting, node);
        return true;
      }
      if node in visited {
        return false;
      }
      visiting := visiting + {node};
      var successors := outgoing[node];
      for i := 0 to |successors|
        invariant visiting == old(visiting) + {node} && old(visited) <= visited
        invariant Finished(edges, visited) && visiting !! visited
        invariant forall j :: 0 <= j < i ==> successors[j] in visited
      {
        GrayPush(edges, gray, old(visiting), node, successors[i]);
        assert outgoing.Keys - visiting - visited <= outgoing.Keys - old(visiting) - old(visited) - {node};
        assert node in outgoing.Keys - old(visiting) - old(visited);
        var inner := Walk(successors[i], edges, gray + [node]);
        if inner {
          return true;
        }
      }
      FinishNode(edges, visited, node);
      visiting := visiting - {node};
      visited := visited + {node};
      return false;
    }
  }

  /**
   `has_cycle`: true exactly when some node reaches itself by a non-empty path. The start
   nodes are taken in any order, so in particular sorted.
   */
  method HasCycle(nodes: set<string>, edges: Edges) returns (found: bool)
    ensures found <==> Cyclic(edges)
  {
    var outgoing := BuildOutgoing(nodes, edges);
    var search := new Search(outgoing);
    var rest := outgoing.Keys;
    while rest != {}
      invariant search.outgoing == outgoing && rest <= outgoing.Keys
      invariant search.visiting == {} && Finished(edges, search.visited)
      invariant outgoing.Keys - rest <= search.visited
      decreases rest
    {
      var node :| node in rest;
      found := search.Walk(node, edges, []);
      if found {
        return true;
      }
      rest := rest - {node};
    }
    forall node | Reaches(edges, node, node) ensures node in outgoing {
      CycleHasEdge(edges, outgoing, node);
    }
    return false;
  }
}
