/**
 * Reachability over a directed graph of positions, given as a map from a position to
 * its successors. The sheet uses it for its reference relation (a cell to the cells its
 * formula reads) and its dependents relation (a cell to the cells that read it).
 */
module Graphs {
  import opened Structures

  type Graph = map<Position, set<Position>>

  function Succ(g: Graph, q: Position): set<Position>
  {
    if q in g then g[q] else {}
  }

  /** s walks along edges of g; a single node is a path with no edge. */
  ghost predicate IsPath(g: Graph, s: seq<Position>)
  {
    |s| >= 1 && forall i :: 0 <= i < |s| - 1 ==> s[i + 1] in Succ(g, s[i])
  }

  /** b can be reached from a in zero or more steps. */
  ghost predicate Reaches(g: Graph, a: Position, b: Position)
  {
    exists s :: IsPath(g, s) && s[0] == a && s[|s| - 1] == b
  }

  /** b can be reached from a in one or more steps. */
  ghost predicate ReachesProperly(g: Graph, a: Position, b: Position)
  {
    exists s :: IsPath(g, s) && |s| >= 2 && s[0] == a && s[|s| - 1] == b
  }

  /** No path of one or more steps returns to where it started. */
  ghost predicate Acyclic(g: Graph)
  {
    forall s :: IsPath(g, s) && |s| >= 2 ==> s[0] != s[|s| - 1]
  }

  /** Every successor of a member of c is a member of c. */
  ghost predicate Closed(g: Graph, c: set<Position>)
  {
    forall x, y :: x in c && y in Succ(g, x) ==> y in c
  }

  lemma ReachesSelf(g: Graph, a: Position)
    ensures Reaches(g, a, a)
  {
    assert IsPath(g, [a]);
  }

  lemma ReachesStep(g: Graph, a: Position, b: Position, c: Position)
    requires Reaches(g, a, b) && c in Succ(g, b)
    ensures Reaches(g, a, c) && ReachesProperly(g, a, c)
  {
    var s :| IsPath(g, s) && s[0] == a && s[|s| - 1] == b;
    var t := s + [c];
    assert IsPath(g, t);
  }

  lemma ReachesPrepend(g: Graph, a: Position, b: Position, c: Position)
    requires b in Succ(g, a) && Reaches(g, b, c)
    ensures Reaches(g, a, c) && ReachesProperly(g, a, c)
  {
    var s :| IsPath(g, s) && s[0] == b && s[|s| - 1] == c;
    var t := [a] + s;
    assert IsPath(g, t);
  }

  /** A proper path ends with an edge d -> b out of a node d that a reaches. */
  lemma LastEdge(g: Graph, a: Position, b: Position) returns (d: Position)
    requires ReachesProperly(g, a, b)
    ensures b in Succ(g, d) && Reaches(g, a, d)
  {
    var s :| IsPath(g, s) && |s| >= 2 && s[0] == a && s[|s| - 1] == b;
    d := s[|s| - 2];
    assert IsPath(g, s[..|s| - 1]);
  }

  lemma PathFirstEdge(g: Graph, s: seq<Position>)
    requires IsPath(g, s) && |s| >= 2
    ensures s[1] in Succ(g, s[0])
  {
    assert s[0 + 1] in Succ(g, s[0]);
  }

  /** A closed set that holds a but not b rules out every path from a to b. */
  lemma {:induction false} ClosedBlocks(g: Graph, c: set<Position>, a: Position, b: Position)
    requires Closed(g, c) && a in c && b !in c
    ensures !Reaches(g, a, b)
  {
    if Reaches(g, a, b) {
      var s :| IsPath(g, s) && s[0] == a && s[|s| - 1] == b;
      var i := 0;
      while i < |s| - 1
        invariant 0 <= i < |s| && s[i] in c
      {
        i := i + 1;
      }
      assert false;
    }
  }

  /** A node without an entry in the graph reaches nothing but itself. */
  lemma AbsentReachesOnlyItself(g: Graph, a: Position, b: Position)
    requires a !in g && a != b
    ensures !Reaches(g, a, b)
  {
    if Reaches(g, a, b) {
      var s :| IsPath(g, s) && s[0] == a && s[|s| - 1] == b;
      PathFirstEdge(g, s);
      assert false;
    }
  }

  /** In an acyclic graph an edge never leads back to a node that reaches its source. */
  lemma AcyclicNoBackEdge(g: Graph, a: Position, b: Position)
    requires Acyclic(g) && Reaches(g, a, b)
    ensures a !in Succ(g, b)
  {
    if a in Succ(g, b) {
      var s :| IsPath(g, s) && s[0] == a && s[|s| - 1] == b;
      var t := s + [a];
      assert IsPath(g, t) && |t| >= 2;
      assert false;
    }
  }

  lemma {:induction false} JoinPaths(g: Graph, a: seq<Position>, b: seq<Position>)
    requires IsPath(g, a) && IsPath(g, b) && a[|a| - 1] == b[0]
    ensures IsPath(g, a + b[1..])
  {
    var t := a + b[1..];
    forall i | 0 <= i < |t| - 1
      ensures t[i + 1] in Succ(g, t[i])
    {
      if i < |a| - 1 {
        assert t[i] == a[i] && t[i + 1] == a[i + 1];
      } else {
        var j := i - |a| + 1;
        assert t[i] == b[j] && t[i + 1] == b[j + 1];
      }
    }
  }

  /** Where g2 differs from g only in the edges out of p, a g2-path into p gives a g-path. */
  lemma {:induction false} PathIntoRedirected(g: Graph, g2: Graph, p: Position, u: seq<Position>)
    requires forall q :: q != p ==> Succ(g2, q) == Succ(g, q)
    requires IsPath(g2, u) && u[|u| - 1] == p
    ensures Reaches(g, u[0], p)
    decreases |u|
  {
    if u[0] == p {
      ReachesSelf(g, p);
    } else {
      assert |u| >= 2;
      assert IsPath(g2, u[1..]);
      PathIntoRedirected(g, g2, p, u[1..]);
      assert u[1] in Succ(g, u[0]);
      ReachesPrepend(g, u[0], u[1], p);
    }
  }

  /**
   * Replacing the edges out of p keeps an acyclic graph acyclic exactly when no new
   * successor of p reaches p (p itself included) in the old graph.
   */
  lemma AcyclicAfterRedirect(g: Graph, g2: Graph, p: Position)
    requires forall q :: q != p ==> Succ(g2, q) == Succ(g, q)
    requires Acyclic(g)
    requires forall r :: r in Succ(g2, p) ==> !Reaches(g, r, p)
    ensures Acyclic(g2)
  {
    forall s | IsPath(g2, s) && |s| >= 2
      ensures s[0] != s[|s| - 1]
    {
      if s[0] == s[|s| - 1] {
        if k :| 0 <= k < |s| - 1 && s[k] == p {
          var a, b := s[k + 1..], s[..k + 1];
          assert IsPath(g2, a) && IsPath(g2, b);
          JoinPaths(g2, a, b);
          PathIntoRedirected(g, g2, p, a + b[1..]);
          assert false;
        } else {
          assert false;
        }
      }
    }
  }

  /** A redirect that lets some new successor of p reach p creates a cycle through p. */
  lemma CycleAfterBadRedirect(g: Graph, g2: Graph, p: Position, r: Position)
    requires forall q :: q != p ==> Succ(g2, q) == Succ(g, q)
    requires r in Succ(g2, p) && Reaches(g, r, p)
    ensures !Acyclic(g2)
  {
    var s :| IsPath(g, s) && s[0] == r && s[|s| - 1] == p;
    var j := 0;
    while j < |s| - 1 && s[j] != p
      invariant 0 <= j < |s|
      invariant forall i :: 0 <= i < j ==> s[i] != p
    {
      j := j + 1;
    }
    var u := [p] + s[..j + 1];
    forall i | 0 <= i < |u| - 1
      ensures u[i + 1] in Succ(g2, u[i])
    {
      if i > 0 {
        assert u[i] == s[i - 1] && u[i + 1] == s[i];
      }
    }
    assert IsPath(g2, u) && |u| >= 2 && u[0] == u[|u| - 1];
  }

  /** Reaching in zero or more steps is being there or reaching in one or more. */
  lemma ReachesCases(g: Graph, a: Position, b: Position)
    ensures Reaches(g, a, b) <==> a == b || ReachesProperly(g, a, b)
  {
    if a == b {
      ReachesSelf(g, a);
    }
  }

  /** Dropping edges keeps a graph acyclic. */
  lemma SubgraphAcyclic(g: Graph, g2: Graph)
    requires forall q :: Succ(g2, q) <= Succ(g, q)
    requires Acyclic(g)
    ensures Acyclic(g2)
  {
    forall s | IsPath(g2, s) && |s| >= 2 ensures s[0] != s[|s| - 1] {
      assert IsPath(g, s);
    }
  }

  lemma NoEdgesAcyclic(g: Graph)
    requires forall q :: Succ(g, q) == {}
    ensures Acyclic(g)
  {
    forall s | IsPath(g, s) && |s| >= 2 ensures false {
      PathFirstEdge(g, s);
    }
  }
}
