/** Paths and reachability in a graph given by adjacency lists. */
module Graphs {
  type Graph = seq<seq<nat>>

  ghost predicate WellFormed(g: Graph)
  {
    forall v, k :: 0 <= v < |g| && 0 <= k < |g[v]| ==> g[v][k] < |g|
  }

  ghost predicate Edge(g: Graph, x: nat, y: nat)
  {
    x < |g| && y in g[x]
  }

  /** p visits nodes of g along edges. */
  ghost predicate IsPath(g: Graph, p: seq<nat>)
  {
    && |p| > 0
    && (forall i :: 0 <= i < |p| ==> p[i] < |g|)
    && (forall i :: 0 <= i < |p| - 1 ==> Edge(g, p[i], p[i + 1]))
  }

  ghost predicate PathBetween(g: Graph, p: seq<nat>, x: nat, y: nat)
  {
    IsPath(g, p) && p[0] == x && p[|p| - 1] == y
  }

  ghost predicate Reach(g: Graph, x: nat, y: nat)
  {
    exists p :: PathBetween(g, p, x, y)
  }

  /** x and y belong to one strongly connected component. */
  ghost predicate Mutual(g: Graph, x: nat, y: nat)
  {
    Reach(g, x, y) && Reach(g, y, x)
  }

  /** A closed path with at least one edge. */
  ghost predicate Cycle(g: Graph, p: seq<nat>)
  {
    |p| > 1 && IsPath(g, p) && p[0] == p[|p| - 1]
  }

  ghost predicate HasCycle(g: Graph)
  {
    exists p :: Cycle(g, p)
  }

  lemma ReachSelf(g: Graph, x: nat)
    requires x < |g|
    ensures Reach(g, x, x)
  {
    assert PathBetween(g, [x], x, x);
  }

  lemma ReachEdge(g: Graph, x: nat, y: nat)
    requires WellFormed(g) && Edge(g, x, y)
    ensures Reach(g, x, y)
  {
    var k :| 0 <= k < |g[x]| && g[x][k] == y;
    assert PathBetween(g, [x, y], x, y);
  }

  lemma PathJoin(g: Graph, p: seq<nat>, q: seq<nat>)
    requires IsPath(g, p) && IsPath(g, q) && p[|p| - 1] == q[0]
    ensures IsPath(g, p + q[1..])
    ensures (p + q[1..])[0] == p[0] && (p + q[1..])[|p + q[1..]| - 1] == q[|q| - 1]
  {
    var r := p + q[1..];
    forall i | 0 <= i < |r| - 1 ensures Edge(g, r[i], r[i + 1]) {
      if i < |p| - 1 {
        assert Edge(g, p[i], p[i + 1]);
      } else {
        assert r[i] == q[i - |p| + 1] && r[i + 1] == q[i - |p| + 2];
      }
    }
  }

  lemma ReachTransitive(g: Graph, x: nat, y: nat, z: nat)
    requires Reach(g, x, y) && Reach(g, y, z)
    ensures Reach(g, x, z)
  {
    var p :| PathBetween(g, p, x, y);
    var q :| PathBetween(g, q, y, z);
    PathJoin(g, p, q);
    assert PathBetween(g, p + q[1..], x, z);
  }

  ghost predicate ClosedUnderEdges(g: Graph, c: set<nat>)
  {
    forall x, y :: x in c && Edge(g, x, y) ==> y in c
  }

  lemma {:induction false} PathStaysIn(g: Graph, c: set<nat>, p: seq<nat>)
    requires ClosedUnderEdges(g, c) && IsPath(g, p) && p[0] in c
    ensures p[|p| - 1] in c
  {
    if |p| > 1 {
      var front := p[..|p| - 1];
      forall i | 0 <= i < |front| - 1 ensures Edge(g, front[i], front[i + 1]) {
        assert Edge(g, p[i], p[i + 1]);
      }
      PathStaysIn(g, c, front);
      assert Edge(g, p[|p| - 2], p[|p| - 2 + 1]);
    }
  }

  /** What leaves a set closed under edges never comes back out of it. */
  lemma ReachStaysIn(g: Graph, c: set<nat>, x: nat, y: nat)
    requires ClosedUnderEdges(g, c) && Reach(g, x, y) && x in c
    ensures y in c
  {
    var p :| PathBetween(g, p, x, y);
    PathStaysIn(g, c, p);
  }

  lemma ReachInRange(g: Graph, x: nat, y: nat)
    requires Reach(g, x, y)
    ensures x < |g| && y < |g|
  {
    var p :| PathBetween(g, p, x, y);
  }

  lemma SubPath(g: Graph, p: seq<nat>, i: nat, j: nat)
    requires IsPath(g, p) && i <= j < |p|
    ensures Reach(g, p[i], p[j])
  {
    var q := p[i..j + 1];
    forall k | 0 <= k < |q| - 1 ensures Edge(g, q[k], q[k + 1]) {
      assert Edge(g, p[i + k], p[i + k + 1]);
    }
    assert PathBetween(g, q, p[i], p[j]);
  }

  /** There is a cycle iff some node has an edge to itself or shares its component. */
  lemma CycleMeans(g: Graph)
    requires WellFormed(g)
    ensures HasCycle(g) <==>
            exists x, y :: Mutual(g, x, y) && (x != y || Edge(g, x, x))
  {
    if HasCycle(g) {
      var p :| Cycle(g, p);
      assert Edge(g, p[0], p[0 + 1]);
      SubPath(g, p, 0, 1);
      SubPath(g, p, 1, |p| - 1);
      assert Mutual(g, p[0], p[1]);
    }
    if exists x, y :: Mutual(g, x, y) && (x != y || Edge(g, x, x)) {
      var x, y :| Mutual(g, x, y) && (x != y || Edge(g, x, x));
      if x != y {
        var p :| PathBetween(g, p, x, y);
        var q :| PathBetween(g, q, y, x);
        PathJoin(g, p, q);
        assert Cycle(g, p + q[1..]);
      } else {
        ReachInRange(g, x, y);
        assert Cycle(g, [x, x]);
      }
    }
  }

  // ----- acyclic graphs hang from their sources -----

  ghost predicate NoIncoming(g: Graph, r: nat)
  {
    r < |g| && forall u :: !Edge(g, u, r)
  }

  lemma AcyclicPathDistinct(g: Graph, p: seq<nat>)
    requires IsPath(g, p) && !HasCycle(g)
    ensures forall i, j :: 0 <= i < j < |p| ==> p[i] != p[j]
  {
    forall i, j | 0 <= i < j < |p| ensures p[i] != p[j] {
      var q := p[i..j + 1];
      forall k | 0 <= k < |q| - 1 ensures Edge(g, q[k], q[k + 1]) {
        assert Edge(g, p[i + k], p[i + k + 1]);
      }
      assert !Cycle(g, q);
    }
  }

  lemma DistinctFit(p: seq<nat>, n: nat)
    requires forall i :: 0 <= i < |p| ==> p[i] < n
    requires forall i, j :: 0 <= i < j < |p| ==> p[i] != p[j]
    ensures |p| <= n
  {
    var members := set i | 0 <= i < |p| :: p[i];
    MemberCount(p);
    SubsetCount(members, Below(n));
  }

  lemma {:induction false} MemberCount(p: seq<nat>)
    requires forall i, j :: 0 <= i < j < |p| ==> p[i] != p[j]
    ensures |set i | 0 <= i < |p| :: p[i]| == |p|
  {
    var members := set i | 0 <= i < |p| :: p[i];
    if p == [] {
      assert members == {};
    } else {
      var front := p[..|p| - 1];
      MemberCount(front);
      var rest := set i | 0 <= i < |front| :: front[i];
      forall v ensures v in members <==> v in rest || v == p[|p| - 1] {
        if v in rest {
          var i :| 0 <= i < |front| && front[i] == v;
          assert p[i] == v;
        }
        if v in members {
          var i :| 0 <= i < |p| && p[i] == v;
          if i < |front| { assert front[i] == v; }
        }
      }
      assert members == rest + {p[|p| - 1]};
    }
  }

  /** The set of all naturals below n. */
  ghost function Below(n: nat): (r: set<nat>)
    ensures |r| == n && forall v: nat :: v in r <==> v < n
  {
    if n == 0 then {} else Below(n - 1) + {n - 1}
  }

  lemma {:induction false} SubsetCount<T>(a: set<T>, b: set<T>)
    requires a <= b
    ensures |a| <= |b|
  {
    if a != {} {
      var x :| x in a;
      SubsetCount(a - {x}, b - {x});
    }
  }

  /** Walk a path backwards until a node without incoming edges. */
  lemma {:induction false} BackToSource(g: Graph, p: seq<nat>)
    requires WellFormed(g) && !HasCycle(g) && IsPath(g, p)
    ensures exists r :: NoIncoming(g, r) && Reach(g, r, p[|p| - 1])
    decreases |g| - |p|
  {
    AcyclicPathDistinct(g, p);
    DistinctFit(p, |g|);
    if NoIncoming(g, p[0]) {
      assert PathBetween(g, p, p[0], p[|p| - 1]);
    } else {
      var u :| Edge(g, u, p[0]);
      var q := [u] + p;
      forall i | 0 <= i < |q| - 1 ensures Edge(g, q[i], q[i + 1]) {
        if i > 0 { assert Edge(g, p[i - 1], p[i - 1 + 1]); }
      }
      AcyclicPathDistinct(g, q);
      DistinctFit(q, |g|);
      BackToSource(g, q);
    }
  }

  /** In a graph without cycles every node is reached from a node without incoming edges. */
  lemma SourcesReachAll(g: Graph, v: nat)
    requires WellFormed(g) && !HasCycle(g) && v < |g|
    ensures exists r :: NoIncoming(g, r) && Reach(g, r, v)
  {
    BackToSource(g, [v]);
  }
}
