/** The module dependency graph the whitelist command works on, and the
    transitive dependencies of a module (`networkx.ancestors`). */
module ModuleGraph {
  import opened Outcomes
  import opened Collections

  /** A module found on disk: its namespace directory, the modules its
      manifest depends on, and its `auto_install` flag. */
  datatype Node = Node(namespace: string, depends: seq<string>, autoInstall: bool)

  /** Module name to node; `None` for a module that some manifest depends on
      but that was found nowhere. */
  type Graph = map<string, Option<Node>>

  /** `m` is a node of the graph that carries a manifest. */
  predicate Defined(g: Graph, m: string)
  {
    m in g && g[m].Some?
  }

  /** The direct dependencies of `m`: none when it is unknown or undefined. */
  function DepsOf(g: Graph, m: string): (r: set<string>)
  {
    if Defined(g, m) then Elems(g[m].value.depends) else {}
  }

  /** Every dependency edge ends at a node of the graph, as in a graph that
      gets a node for each module it mentions. */
  predicate Closed(g: Graph)
  {
    forall m :: m in g ==> DepsOf(g, m) <= g.Keys
  }

  /** `p` is a chain of at least one dependency edge. */
  ghost predicate IsPath(g: Graph, p: seq<string>)
  {
    |p| >= 2 && forall i :: 0 <= i < |p| - 1 ==> p[i + 1] in DepsOf(g, p[i])
  }

  /** `b` is a direct or indirect dependency of `a`. */
  ghost predicate Reachable(g: Graph, a: string, b: string)
  {
    exists p :: IsPath(g, p) && p[0] == a && p[|p| - 1] == b
  }

  /** `networkx.ancestors(g, t)`: every module `t` depends on directly or
      indirectly, other than `t` itself. */
  ghost function AncestorsOf(g: Graph, t: string): (r: set<string>)
  {
    set x | x in g.Keys && x != t && Reachable(g, t, x)
  }

  /** A direct dependency is reachable. */
  lemma ReachableEdge(g: Graph, a: string, d: string)
    requires d in DepsOf(g, a)
    ensures Reachable(g, a, d)
  {
    assert IsPath(g, [a, d]);
  }

  /** A dependency of a reachable module is reachable. */
  lemma ReachableStep(g: Graph, a: string, x: string, d: string)
    requires Reachable(g, a, x) && d in DepsOf(g, x)
    ensures Reachable(g, a, d)
  {
    var p :| IsPath(g, p) && p[0] == a && p[|p| - 1] == x;
    var q := p + [d];
    assert IsPath(g, q);
  }

  /** A set that holds the direct dependencies of `p[0]` and is closed under
      dependencies holds every module a path from `p[0]` reaches. */
  lemma {:induction false} PathEndsInClosedSet(g: Graph, s: set<string>, p: seq<string>)
    requires IsPath(g, p) && DepsOf(g, p[0]) <= s
    requires forall x :: x in s ==> DepsOf(g, x) <= s
    ensures p[|p| - 1] in s
    decreases |p|
  {
    if |p| > 2 {
      var q := p[..|p| - 1];
      assert IsPath(g, q);
      PathEndsInClosedSet(g, s, q);
      assert p[|p| - 1] in DepsOf(g, q[|q| - 1]);
    }
  }

  /** Computes `networkx.ancestors(g, target)` by a worklist traversal of the
      dependency edges. */
  method Ancestors(g: Graph, target: string) returns (deps: set<string>)
    requires Closed(g) && target in g
    ensures deps == AncestorsOf(g, target)
  {
    var seen: set<string> := {};
    var todo := DepsOf(g, target);
    forall d | d in todo
      ensures Reachable(g, target, d)
    {
      ReachableEdge(g, target, d);
    }
    while todo != {}
      invariant seen <= g.Keys && todo <= g.Keys && seen !! todo
      invariant DepsOf(g, target) <= seen + todo
      invariant forall x :: x in seen ==> DepsOf(g, x) <= seen + todo
      invariant forall x :: x in seen ==> Reachable(g, target, x)
      invariant forall x :: x in todo ==> Reachable(g, target, x)
      decreases g.Keys - seen
    {
      var x :| x in todo;
      forall d | d in DepsOf(g, x)
        ensures Reachable(g, target, d)
      {
        ReachableStep(g, target, x, d);
      }
      seen := seen + {x};
      todo := (todo - {x}) + (DepsOf(g, x) - seen);
    }
    forall x | x in AncestorsOf(g, target)
      ensures x in seen
    {
      var p :| IsPath(g, p) && p[0] == target && p[|p| - 1] == x;
      PathEndsInClosedSet(g, seen, p);
    }
    deps := seen - {target};
  }
}
