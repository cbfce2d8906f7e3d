/**
 The worklist that collects the packages a release binary is built from.

 Its graph is what the package manager prints: nodes with dependencies of several kinds.
 The set that is collected is the set of packages that a path of normal dependencies leads
 to, and that is how it is specified here.
 */
module Worklist {
  import opened Common

  /** A dependency on a package; a kind that is absent means a normal dependency. */
  datatype Dep = Dep(pkg: string, kinds: seq<Option<string>>) {
    predicate Normal() { None in kinds }
  }

  type Graph = map<string, seq<Dep>>

  /** Package `a` has a dependency on `b`, and one of its kinds is the absent one. */
  ghost predicate Edge(nodes: Graph, a: string, b: string) {
    a in nodes && exists dep :: dep in nodes[a] && None in dep.kinds && dep.pkg == b
  }

  /** A path from one of the roots to `p` along normal dependencies. */
  ghost predicate IsPathTo(nodes: Graph, roots: seq<string>, path: seq<string>, p: string) {
    && path != [] && path[0] in roots && path[|path| - 1] == p
    && forall i :: 0 <= i < |path| - 1 ==> Edge(nodes, path[i], path[i + 1])
  }

  ghost predicate Reachable(nodes: Graph, roots: seq<string>, p: string) {
    exists path :: IsPathTo(nodes, roots, path, p)
  }

  lemma RootReachable(nodes: Graph, roots: seq<string>, p: string)
    requires p in roots
    ensures Reachable(nodes, roots, p)
  {
    assert IsPathTo(nodes, roots, [p], p);
  }

  lemma EdgeReachable(nodes: Graph, roots: seq<string>, a: string, b: string)
    requires Reachable(nodes, roots, a) && Edge(nodes, a, b)
    ensures Reachable(nodes, roots, b)
  {
    var path :| IsPathTo(nodes, roots, path, a);
    var more := path + [b];
    forall i | 0 <= i < |more| - 1 ensures Edge(nodes, more[i], more[i + 1]) {
      assert i < |path| - 1 ==> Edge(nodes, path[i], path[i + 1]);
    }
    assert IsPathTo(nodes, roots, more, b);
  }

  /** A set that holds the roots and is closed under normal dependencies holds everything reachable. */
  lemma {:induction false} ClosedHoldsPath(nodes: Graph, roots: seq<string>, inside: set<string>, path: seq<string>, k: nat)
    requires k < |path| && IsPathTo(nodes, roots, path, path[|path| - 1])
    requires (forall p :: p in roots ==> p in inside) && forall a, b :: a in inside && Edge(nodes, a, b) ==> b in inside
    ensures path[k] in inside
  {
    if k > 0 {
      ClosedHoldsPath(nodes, roots, inside, path, k - 1);
      assert Edge(nodes, path[k - 1], path[k]);
    }
  }

  function NormalPackages(deps: seq<Dep>): (packages: seq<string>)
    ensures forall p :: p in packages <==> exists dep :: dep in deps && None in dep.kinds && dep.pkg == p
  {
    if deps == [] then []
    else
      assert deps == [deps[0]] + deps[1..];
      (if deps[0].Normal() then [deps[0].pkg] else []) + NormalPackages(deps[1..])
  }

  /** What has been seen and what is still pending, together, are reachable and closed under edges. */
  ghost predicate Progress(nodes: Graph, roots: seq<string>, seen: set<string>, pending: seq<string>) {
    && seen <= nodes.Keys
    && (forall p :: p in seen || p in pending ==> Reachable(nodes, roots, p))
    && (forall p :: p in roots ==> p in seen || p in pending)
    && (forall a, b :: a in seen && Edge(nodes, a, b) ==> b in seen || b in pending)
  }

  lemma Start(nodes: Graph, roots: seq<string>)
    ensures Progress(nodes, roots, {}, roots)
  {
    forall p | p in roots ensures Reachable(nodes, roots, p) {
      RootReachable(nodes, roots, p);
    }
  }

  lemma Pop(nodes: Graph, roots: seq<string>, seen: set<string>, rest: seq<string>, current: string)
    requires Progress(nodes, roots, seen, rest + [current])
    ensures Reachable(nodes, roots, current)
    ensures current in seen ==> Progress(nodes, roots, seen, rest)
    ensures current in nodes ==> Progress(nodes, roots, seen + {current}, rest + NormalPackages(nodes[current]))
  {
    assert current in rest + [current];
    if current in nodes {
      var more := rest + NormalPackages(nodes[current]);
      forall b | b in NormalPackages(nodes[current]) ensures Reachable(nodes, roots, b) {
        assert Edge(nodes, current, b);
        EdgeReachable(nodes, roots, current, b);
      }
      forall b | Edge(nodes, current, b) ensures b in more {
        assert b in NormalPackages(nodes[current]);
      }
    }
  }

  lemma PopLast(nodes: Graph, roots: seq<string>, seen: set<string>, pending: seq<string>)
    requires pending != [] && Progress(nodes, roots, seen, pending)
    ensures var current, rest := pending[|pending| - 1], pending[..|pending| - 1];
            && Reachable(nodes, roots, current)
            && (current in seen ==> Progress(nodes, roots, seen, rest))
            && (current in nodes ==> Progress(nodes, roots, seen + {current}, rest + NormalPackages(nodes[current])))
  {
    assert pending == pending[..|pending| - 1] + [pending[|pending| - 1]];
    Pop(nodes, roots, seen, pending[..|pending| - 1], pending[|pending| - 1]);
  }

  lemma ClosedIsReachable(nodes: Graph, roots: seq<string>, seen: set<string>)
    requires Progress(nodes, roots, seen, [])
    ensures forall p :: p in seen <==> Reachable(nodes, roots, p)
    ensures forall p :: Reachable(nodes, roots, p) ==> p in nodes
  {
    forall p | Reachable(nodes, roots, p) ensures p in seen {
      var path :| IsPathTo(nodes, roots, path, p);
      ClosedHoldsPath(nodes, roots, seen, path, |path| - 1);
    }
  }

  /**
   Collects the packages reachable from the roots, for any graph: with cycles, with
   packages pending more than once, and with dependencies the graph has no node for, which
   is the one way it can fail.
   */
  method Dependencies(nodes: Graph, roots: seq<string>) returns (r: Result<set<string>, string>)
    ensures r.Ok? ==> forall p :: p in r.value <==> Reachable(nodes, roots, p)
    ensures r.Err? ==> Reachable(nodes, roots, r.error) && r.error !in nodes
    ensures r.Ok? ==> forall p :: Reachable(nodes, roots, p) ==> p in nodes
  {
    var pending := roots;
    var seen: set<string> := {};
    Start(nodes, roots);
    while pending != []
      invariant Progress(nodes, roots, seen, pending)
      decreases |nodes.Keys - seen|, |pending|
    {
      var current := pending[|pending| - 1];
      PopLast(nodes, roots, seen, pending);
      pending := pending[..|pending| - 1];
      if current !in seen {
        if current !in nodes {
          return Err(current);
        }
        Shrinks(nodes.Keys, seen, current);
        seen := seen + {current};
        pending := pending + NormalPackages(nodes[current]);
      }
    }
    ClosedIsReachable(nodes, roots, seen);
    return Ok(seen);
  }

  lemma Shrinks(all: set<string>, seen: set<string>, current: string)
    requires current in all && current !in seen
    ensures |all - (seen + {current})| < |all - seen|
  {
    assert all - (seen + {current}) < all - seen;
    SubsetSize(all - (seen + {current}), all - seen);
  }

  lemma {:induction false} SubsetSize(a: set<string>, b: set<string>)
    requires a < b
    ensures |a| < |b|
  {
    assert b == a + (b - a);
    assert |b| == |a| + |b - a|;
    assert b - a != {};
  }
}
