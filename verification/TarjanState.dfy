/** The state of the depth-first search in src/section_graph.cc, the invariant every step of
    it keeps, and one lemma per step. */
module TarjanState {
  import opened Graphs

  /** A picture of the vectors the search mutates.  (lowLink is private to the open calls
      and is passed along separately.) */
  datatype Search = Search(
    indexOf: seq<int>,
    stack: seq<nat>,
    onStack: seq<bool>,
    nextIndex: int,
    components: seq<seq<nat>>)

  ghost predicate Visited(s: Search, v: nat)
  {
    v < |s.indexOf| && s.indexOf[v] >= 0
  }

  ghost function VisitedSet(s: Search): set<nat>
  {
    set v: nat | v < |s.indexOf| && s.indexOf[v] >= 0
  }

  ghost function UnvisitedSet(s: Search): set<nat>
  {
    set v: nat | v < |s.indexOf| && s.indexOf[v] < 0
  }

  ghost predicate StackRises(s: Search)
  {
    && (forall i :: 0 <= i < |s.stack| ==> Visited(s, s.stack[i]))
    && (forall i, j {:trigger s.indexOf[s.stack[i]], s.indexOf[s.stack[j]]} ::
          0 <= i < j < |s.stack| ==> s.indexOf[s.stack[i]] < s.indexOf[s.stack[j]])
  }

  /** The vectors have the right sizes; the stack lists visited nodes by increasing index. */
  ghost predicate Shape(g: Graph, s: Search)
  {
    && |s.indexOf| == |g| && |s.onStack| == |g|
    && (forall v :: 0 <= v < |g| ==> (s.onStack[v] <==> v in s.stack))
    && StackRises(s)
    && (forall v :: 0 <= v < |g| ==> s.indexOf[v] < s.nextIndex)
    && s.nextIndex == |VisitedSet(s)|
  }

  /** Nodes whose call has returned have only visited successors. */
  ghost predicate EdgesVisited(g: Graph, s: Search, open: set<nat>)
  {
    forall x, y :: Visited(s, x) && x !in open && Edge(g, x, y) ==> Visited(s, y)
  }

  ghost predicate HasDeparted(s: Search, v: nat)
  {
    Visited(s, v) && v !in s.stack
  }

  /** Nodes that left the stack only have successors that left it too. */
  ghost predicate DepartedClosed(g: Graph, s: Search)
  {
    forall x, y :: HasDeparted(s, x) && Edge(g, x, y) ==> HasDeparted(s, y)
  }

  /** Each stack node reaches all later ones. */
  ghost predicate StackPaths(g: Graph, s: Search)
  {
    forall i, j {:trigger Reach(g, s.stack[i], s.stack[j])} ::
      0 <= i <= j < |s.stack| ==> Reach(g, s.stack[i], s.stack[j])
  }

  ghost predicate OpenOnStack(s: Search, open: set<nat>)
  {
    forall v :: v in open ==> v in s.stack
  }

  /** Each stack node reaches an open node that is not later. */
  ghost predicate StackReturns(g: Graph, s: Search, open: set<nat>)
  {
    forall v {:trigger ReachesOpen(g, s, open, v)} :: v in s.stack ==> ReachesOpen(g, s, open, v)
  }

  ghost predicate ReachesOpen(g: Graph, s: Search, open: set<nat>, v: nat)
  {
    Visited(s, v) && exists o :: OpenBelow(g, s, open, v, o)
  }

  ghost predicate OpenBelow(g: Graph, s: Search, open: set<nat>, v: nat, o: nat)
    requires Visited(s, v)
  {
    o in open && Visited(s, o) && s.indexOf[o] <= s.indexOf[v] && Reach(g, v, o)
  }

  ghost predicate StrictlySorted(c: seq<nat>)
  {
    forall i, j :: 0 <= i < j < |c| ==> c[i] < c[j]
  }

  /** c lists one strongly connected component in increasing order. */
  ghost predicate IsComponent(g: Graph, c: seq<nat>)
  {
    && |c| > 0
    && StrictlySorted(c)
    && (forall x, y {:trigger Mutual(g, x, y)} :: x in c ==> (y in c <==> Mutual(g, x, y)))
  }

  ghost predicate InSome(components: seq<seq<nat>>, v: nat)
  {
    exists k :: 0 <= k < |components| && v in components[k]
  }

  /** The components found so far hold exactly the nodes that have left the stack. */
  ghost predicate ComponentsFound(g: Graph, s: Search)
  {
    && (forall k :: 0 <= k < |s.components| ==> IsComponent(g, s.components[k]))
    && (forall v: nat :: HasDeparted(s, v) <==> InSome(s.components, v))
    && (forall j, k, v :: 0 <= j < k < |s.components| && v in s.components[j] ==> v !in s.components[k])
  }

  ghost predicate Inv(g: Graph, s: Search, open: set<nat>)
  {
    && Shape(g, s)
    && EdgesVisited(g, s, open)
    && DepartedClosed(g, s)
    && StackPaths(g, s)
    && OpenOnStack(s, open)
    && StackReturns(g, s, open)
    && ComponentsFound(g, s)
  }

  /** t continues s: nothing that was known has changed. */
  ghost predicate Extends(s: Search, t: Search)
  {
    && |s.indexOf| == |t.indexOf|
    && s.stack <= t.stack
    && s.components <= t.components
    && (forall v: nat :: Visited(s, v) ==> Visited(t, v) && t.indexOf[v] == s.indexOf[v])
  }

  /** Every edge from the stack at or above `from` to the stack below k ends at an index
      that low does not exceed. */
  ghost predicate LowBounds(g: Graph, s: Search, k: nat, from: nat, low: int)
  {
    forall i, j {:trigger Edge(g, s.stack[i], s.stack[j])} ::
      0 <= j < k && from <= i < |s.stack| && j < |s.stack| && Edge(g, s.stack[i], s.stack[j]) ==>
      s.stack[j] < |s.indexOf| && low <= s.indexOf[s.stack[j]]
  }

  /** low is the index of a node on the stack that `node` reaches. */
  ghost predicate LowWitness(g: Graph, s: Search, node: nat, low: int)
  {
    exists w :: w in s.stack && Visited(s, w) && s.indexOf[w] == low && Reach(g, node, w)
  }

  /** What one call of strong_connect(node) does to the search: t after s. */
  ghost predicate Explored(g: Graph, s: Search, t: Search, node: nat, low: int)
  {
    && Extends(s, t)
    && Visited(t, node) && t.indexOf[node] == s.nextIndex && low <= s.nextIndex
    && (if node in t.stack then LowWitness(g, t, node, low) else low == s.nextIndex && t.stack == s.stack)
    && LowBounds(g, t, |s.stack|, |s.stack|, low)
  }

  /** What the first i edges of node have contributed; k is the stack height below node. */
  ghost predicate Scanned(g: Graph, s: Search, k: nat, node: nat, low: int, i: nat)
    requires node < |g| && i <= |g[node]|
  {
    && k < |s.stack| && s.stack[k] == node && Visited(s, node)
    && low <= s.indexOf[node]
    && LowWitness(g, s, node, low)
    && LowBounds(g, s, k, k + 1, low)
    && (forall j :: 0 <= j < i ==> Visited(s, g[node][j]))
    && (forall j, m :: 0 <= j < i && 0 <= m < k && g[node][j] == s.stack[m] ==>
          Visited(s, s.stack[m]) && low <= s.indexOf[s.stack[m]])
  }

  // ----- opening a node -----

  function Push(s: Search, node: nat): Search
    requires node < |s.indexOf| && node < |s.onStack|
  {
    Search(s.indexOf[node := s.nextIndex], s.stack + [node], s.onStack[node := true], s.nextIndex + 1, s.components)
  }

  lemma PushShape(g: Graph, s: Search, node: nat)
    requires Shape(g, s) && node < |g| && !Visited(s, node)
    ensures node !in s.stack
    ensures Shape(g, Push(s, node)) && Extends(s, Push(s, node))
    ensures VisitedSet(Push(s, node)) == VisitedSet(s) + {node}
    ensures forall v: nat :: Visited(Push(s, node), v) <==> Visited(s, v) || v == node
    ensures forall v: nat :: HasDeparted(Push(s, node), v) <==> HasDeparted(s, v)
  {
    var t := Push(s, node);
    assert s.nextIndex >= 0;
    assert VisitedSet(t) == VisitedSet(s) + {node};
    assert node !in VisitedSet(s);
    forall v: nat ensures v in t.stack <==> v in s.stack || v == node {
    }
  }

  lemma PushReach(g: Graph, s: Search, open: set<nat>, node: nat)
    requires Shape(g, s) && StackPaths(g, s) && StackReturns(g, s, open) && node < |g| && !Visited(s, node)
    requires forall o :: o in open ==> Reach(g, o, node)
    ensures StackPaths(g, Push(s, node)) && StackReturns(g, Push(s, node), open + {node})
  {
    PushShape(g, s, node);
    var t := Push(s, node);
    ReachSelf(g, node);
    forall i, j | 0 <= i <= j < |t.stack| ensures Reach(g, t.stack[i], t.stack[j]) {
      if j == |s.stack| && i < j {
        assert ReachesOpen(g, s, open, s.stack[i]);
        var o :| OpenBelow(g, s, open, s.stack[i], o);
        ReachTransitive(g, s.stack[i], o, node);
      }
    }
    forall v | v in t.stack ensures ReachesOpen(g, t, open + {node}, v) {
      if v in s.stack {
        assert ReachesOpen(g, s, open, v);
        var o :| OpenBelow(g, s, open, v, o);
        assert OpenBelow(g, t, open + {node}, v, o);
      } else {
        assert OpenBelow(g, t, open + {node}, v, node);
      }
    }
  }

  lemma PushScanned(g: Graph, s: Search, node: nat)
    requires Shape(g, s) && node < |g| && !Visited(s, node)
    ensures Scanned(g, Push(s, node), |s.stack|, node, s.nextIndex, 0)
  {
    PushShape(g, s, node);
    ReachSelf(g, node);
    assert Push(s, node).stack[|s.stack|] == node;
  }

  lemma PushComponents(g: Graph, s: Search, node: nat)
    requires Shape(g, s) && ComponentsFound(g, s) && node < |g| && !Visited(s, node)
    ensures ComponentsFound(g, Push(s, node))
  {
    PushShape(g, s, node);
  }

  lemma PushKeeps(g: Graph, s: Search, open: set<nat>, node: nat)
    requires Inv(g, s, open) && node < |g| && !Visited(s, node)
    requires forall o :: o in open ==> Reach(g, o, node)
    ensures Inv(g, Push(s, node), open + {node})
  {
    PushShape(g, s, node);
    PushReach(g, s, open, node);
    PushComponents(g, s, node);
  }

  // ----- scanning its edges -----

  function Min(a: int, b: int): int { if b < a then b else a }

  /** After the recursive call for an unvisited target. */
  lemma ScanTree(g: Graph, s: Search, t: Search, k: nat, node: nat, low: int, i: nat, targetLow: int)
    requires WellFormed(g) && node < |g| && i < |g[node]| && Shape(g, s) && Shape(g, t)
    requires Scanned(g, s, k, node, low, i)
    requires Explored(g, s, t, g[node][i], targetLow) && !Visited(s, g[node][i])
    ensures Scanned(g, t, k, node, Min(low, targetLow), i + 1)
  {
    var target := g[node][i];
    ReachEdge(g, node, target);
    TreeWitness(g, s, t, node, low, target, targetLow);
    forall a, b | 0 <= b < k && k + 1 <= a < |t.stack| && b < |t.stack| && Edge(g, t.stack[a], t.stack[b])
      ensures t.stack[b] < |t.indexOf| && Min(low, targetLow) <= t.indexOf[t.stack[b]]
    {
      assert t.stack[b] == s.stack[b];
      if a < |s.stack| { assert t.stack[a] == s.stack[a]; }
    }
    forall j, m | 0 <= j < i + 1 && 0 <= m < k && g[node][j] == t.stack[m]
      ensures Visited(t, t.stack[m]) && Min(low, targetLow) <= t.indexOf[t.stack[m]]
    {
      assert t.stack[m] == s.stack[m] && Visited(s, s.stack[m]);
    }
    assert t.stack[k] == s.stack[k];
  }

  lemma TreeWitness(g: Graph, s: Search, t: Search, node: nat, low: int, target: nat, targetLow: int)
    requires Shape(g, s) && Explored(g, s, t, target, targetLow) && Reach(g, node, target)
    requires LowWitness(g, s, node, low)
    ensures LowWitness(g, t, node, Min(low, targetLow))
  {
    var w :| w in s.stack && Visited(s, w) && s.indexOf[w] == low && Reach(g, node, w);
    if targetLow < low {
      var u :| u in t.stack && Visited(t, u) && t.indexOf[u] == targetLow && Reach(g, target, u);
      ReachTransitive(g, node, target, u);
    } else {
      var i :| 0 <= i < |s.stack| && s.stack[i] == w;
      assert t.stack[i] == w;
    }
  }

  /** An edge to a node that is still on the stack. */
  lemma ScanBack(g: Graph, s: Search, k: nat, node: nat, low: int, i: nat)
    requires WellFormed(g) && node < |g| && i < |g[node]| && Shape(g, s)
    requires Scanned(g, s, k, node, low, i)
    requires g[node][i] in s.stack
    ensures Visited(s, g[node][i])
    ensures Scanned(g, s, k, node, Min(low, s.indexOf[g[node][i]]), i + 1)
  {
    var target := g[node][i];
    ReachEdge(g, node, target);
    var m :| 0 <= m < |s.stack| && s.stack[m] == target;
    assert Visited(s, s.stack[m]);
  }

  /** An edge to a node whose component is already known. */
  lemma ScanDone(g: Graph, s: Search, k: nat, node: nat, low: int, i: nat)
    requires node < |g| && i < |g[node]|
    requires Scanned(g, s, k, node, low, i)
    requires Visited(s, g[node][i]) && g[node][i] !in s.stack
    ensures Scanned(g, s, k, node, low, i + 1)
  {
  }

  // ----- closing it -----

  lemma EdgesAfterScan(g: Graph, s: Search, open: set<nat>, k: nat, node: nat, low: int)
    requires node < |g| && EdgesVisited(g, s, open + {node}) && Scanned(g, s, k, node, low, |g[node]|)
    ensures EdgesVisited(g, s, open)
  {
    forall x, y | Visited(s, x) && x !in open && Edge(g, x, y) ensures Visited(s, y) {
      if x == node {
        var j :| 0 <= j < |g[node]| && g[node][j] == y;
      }
    }
  }

  lemma BoundsAfterScan(g: Graph, s: Search, k: nat, node: nat, low: int)
    requires node < |g| && Scanned(g, s, k, node, low, |g[node]|)
    ensures LowBounds(g, s, k, k, low)
  {
    forall i, j | 0 <= j < k && k <= i < |s.stack| && j < |s.stack| && Edge(g, s.stack[i], s.stack[j])
      ensures s.stack[j] < |s.indexOf| && low <= s.indexOf[s.stack[j]]
    {
      if i == k {
        var e :| 0 <= e < |g[node]| && g[node][e] == s.stack[j];
      }
    }
  }

  /** A node that is not the root of its component stays on the stack, and some open node
      below it answers for all that leaned on it. */
  lemma ReachWithout(g: Graph, s: Search, open: set<nat>, node: nat, low: int)
    requires StackReturns(g, s, open + {node}) && LowWitness(g, s, node, low)
    requires Visited(s, node) && low < s.indexOf[node]
    ensures StackReturns(g, s, open)
  {
    var w :| w in s.stack && Visited(s, w) && s.indexOf[w] == low && Reach(g, node, w);
    assert ReachesOpen(g, s, open + {node}, w);
    var o :| OpenBelow(g, s, open + {node}, w, o);
    ReachTransitive(g, node, w, o);
    forall v | v in s.stack ensures ReachesOpen(g, s, open, v) {
      assert ReachesOpen(g, s, open + {node}, v);
      var q :| OpenBelow(g, s, open + {node}, v, q);
      if q == node {
        ReachTransitive(g, v, node, o);
        assert OpenBelow(g, s, open, v, o);
      } else {
        assert OpenBelow(g, s, open, v, q);
      }
    }
  }

  lemma CloseInner(g: Graph, s: Search, open: set<nat>, k: nat, node: nat, low: int)
    requires node < |g| && Inv(g, s, open + {node}) && Scanned(g, s, k, node, low, |g[node]|)
    requires low != s.indexOf[node]
    ensures Inv(g, s, open) && LowBounds(g, s, k, k, low)
  {
    EdgesAfterScan(g, s, open, k, node, low);
    BoundsAfterScan(g, s, k, node, low);
    ReachWithout(g, s, open, node, low);
  }

  /** The nodes that are on the stack from height k on, or that have already left it. */
  ghost function Behind(s: Search, k: nat): set<nat>
    requires k <= |s.stack|
  {
    set v: nat | v in VisitedSet(s) && v !in s.stack[..k]
  }

  ghost function Departed(s: Search): set<nat>
  {
    set v: nat | v in VisitedSet(s) && v !in s.stack
  }

  lemma StackSplit(g: Graph, s: Search, k: nat, v: nat)
    requires Shape(g, s) && k <= |s.stack|
    ensures v in s.stack <==> v in s.stack[..k] || v in s.stack[k..]
    ensures !(v in s.stack[..k] && v in s.stack[k..])
  {
    assert s.stack == s.stack[..k] + s.stack[k..];
  }

  /** A root closes everything behind it. */
  lemma BehindIsClosed(g: Graph, s: Search, open: set<nat>, k: nat)
    requires Shape(g, s) && k < |s.stack|
    requires EdgesVisited(g, s, open) && DepartedClosed(g, s) && LowBounds(g, s, k, k, s.indexOf[s.stack[k]])
    requires forall o :: o in open ==> o in s.stack[..k]
    ensures ClosedUnderEdges(g, Behind(s, k)) && ClosedUnderEdges(g, Departed(s))
  {
    forall x, y | x in Behind(s, k) && Edge(g, x, y) ensures y in Behind(s, k) {
      assert Visited(s, y);
      StackSplit(g, s, k, x);
      StackSplit(g, s, k, y);
      if x in s.stack {
        NoEdgeBelow(g, s, k, x, y);
      } else {
        assert HasDeparted(s, x);
        assert HasDeparted(s, y);
      }
    }
    forall x, y | x in Departed(s) && Edge(g, x, y) ensures y in Departed(s) {
      assert HasDeparted(s, x);
      assert HasDeparted(s, y);
    }
  }

  lemma NoEdgeBelow(g: Graph, s: Search, k: nat, x: nat, y: nat)
    requires Shape(g, s) && k < |s.stack| && x in s.stack[k..] && Edge(g, x, y)
    requires LowBounds(g, s, k, k, s.indexOf[s.stack[k]])
    ensures y !in s.stack[..k]
  {
    var i :| 0 <= i < |s.stack| - k && s.stack[k..][i] == x;
    assert s.stack[k + i] == x;
    forall j | 0 <= j < k ensures s.stack[j] != y {
      assert s.indexOf[s.stack[j]] < s.indexOf[s.stack[k]];
    }
  }

  /** Each node on the stack from the root on reaches the root and is reached by it. */
  lemma TopMutual(g: Graph, s: Search, open: set<nat>, k: nat, x: nat)
    requires Shape(g, s) && k < |s.stack| && StackPaths(g, s) && StackReturns(g, s, open + {s.stack[k]})
    requires forall o :: o in open ==> o in s.stack[..k]
    requires ClosedUnderEdges(g, Behind(s, k))
    requires x in s.stack[k..]
    ensures Visited(s, x) && Mutual(g, s.stack[k], x)
  {
    var i :| 0 <= i < |s.stack| - k && s.stack[k..][i] == x;
    assert s.stack[k + i] == x;
    assert ReachesOpen(g, s, open + {s.stack[k]}, x);
    var o :| OpenBelow(g, s, open + {s.stack[k]}, x, o);
    StackSplit(g, s, k, x);
    ReachStaysIn(g, Behind(s, k), x, o);
  }

  /** The top of the stack from a root on is one strongly connected component. */
  lemma TopIsComponent(g: Graph, s: Search, open: set<nat>, k: nat, x: nat, y: nat)
    requires Shape(g, s) && k < |s.stack| && StackPaths(g, s) && StackReturns(g, s, open + {s.stack[k]})
    requires forall o :: o in open ==> o in s.stack[..k]
    requires ClosedUnderEdges(g, Behind(s, k)) && ClosedUnderEdges(g, Departed(s))
    requires x in s.stack[k..]
    ensures y in s.stack[k..] <==> Mutual(g, x, y)
  {
    var node := s.stack[k];
    TopMutual(g, s, open, k, x);
    if y in s.stack[k..] {
      TopMutual(g, s, open, k, y);
      ReachTransitive(g, x, node, y);
      ReachTransitive(g, y, node, x);
    }
    if Mutual(g, x, y) {
      StackSplit(g, s, k, x);
      StackSplit(g, s, k, y);
      ReachStaysIn(g, Behind(s, k), x, y);
      if y in Departed(s) { ReachStaysIn(g, Departed(s), y, x); }
    }
  }

  function Pop(s: Search, k: nat, onStack: seq<bool>, component: seq<nat>): Search
    requires k <= |s.stack|
  {
    s.(stack := s.stack[..k], onStack := onStack, components := s.components + [component])
  }

  ghost predicate PopsTop(g: Graph, s: Search, k: nat, onStack: seq<bool>, component: seq<nat>)
    requires k <= |s.stack|
  {
    && |onStack| == |g|
    && (forall v :: 0 <= v < |g| ==> (onStack[v] <==> v in s.stack[..k]))
    && StrictlySorted(component)
    && (forall v :: v in component <==> v in s.stack[k..])
  }

  lemma PopShape(g: Graph, s: Search, k: nat, onStack: seq<bool>, component: seq<nat>)
    requires Shape(g, s) && k < |s.stack| && PopsTop(g, s, k, onStack, component)
    ensures Shape(g, Pop(s, k, onStack, component))
    ensures forall v :: HasDeparted(Pop(s, k, onStack, component), v) <==> HasDeparted(s, v) || v in component
  {
    var t := Pop(s, k, onStack, component);
    assert VisitedSet(t) == VisitedSet(s);
    forall v: nat ensures HasDeparted(t, v) <==> HasDeparted(s, v) || v in component {
      StackSplit(g, s, k, v);
      if v in s.stack[k..] {
        var i :| 0 <= i < |s.stack| - k && s.stack[k..][i] == v;
        assert Visited(s, s.stack[k + i]);
      }
    }
  }

  lemma PopComponents(g: Graph, s: Search, k: nat, onStack: seq<bool>, component: seq<nat>)
    requires Shape(g, s) && k < |s.stack| && PopsTop(g, s, k, onStack, component)
    requires ComponentsFound(g, s) && IsComponent(g, component)
    ensures ComponentsFound(g, Pop(s, k, onStack, component))
  {
    var t := Pop(s, k, onStack, component);
    var n := |s.components|;
    PopShape(g, s, k, onStack, component);
    forall v: nat ensures HasDeparted(t, v) <==> InSome(t.components, v) {
      if v in component { assert v in t.components[n]; }
      if HasDeparted(s, v) {
        var j :| 0 <= j < n && v in s.components[j];
        assert v in t.components[j];
      }
    }
    forall i, j, v | 0 <= i < j < |t.components| && v in t.components[i] ensures v !in t.components[j] {
      assert v in s.components[i];
      assert HasDeparted(s, v);
      if j == n { StackSplit(g, s, k, v); }
    }
  }

  lemma PopEdges(g: Graph, s: Search, k: nat, onStack: seq<bool>, component: seq<nat>)
    requires Shape(g, s) && k < |s.stack| && PopsTop(g, s, k, onStack, component)
    requires ClosedUnderEdges(g, Behind(s, k))
    ensures DepartedClosed(g, Pop(s, k, onStack, component))
  {
    var t := Pop(s, k, onStack, component);
    forall x, y | HasDeparted(t, x) && Edge(g, x, y) ensures HasDeparted(t, y) {
      assert x in Behind(s, k);
      assert y in Behind(s, k);
    }
  }

  lemma PopReach(g: Graph, s: Search, open: set<nat>, k: nat, onStack: seq<bool>, component: seq<nat>)
    requires Shape(g, s) && k < |s.stack| && PopsTop(g, s, k, onStack, component)
    requires StackReturns(g, s, open + {s.stack[k]})
    requires forall o :: o in open ==> o in s.stack[..k]
    ensures StackReturns(g, Pop(s, k, onStack, component), open)
  {
    var t := Pop(s, k, onStack, component);
    forall v | v in t.stack ensures ReachesOpen(g, t, open, v) {
      var i :| 0 <= i < k && s.stack[..k][i] == v;
      assert s.stack[i] == v;
      assert ReachesOpen(g, s, open + {s.stack[k]}, v);
      var q :| OpenBelow(g, s, open + {s.stack[k]}, v, q);
      assert s.indexOf[s.stack[i]] < s.indexOf[s.stack[k]];
      assert OpenBelow(g, t, open, v, q);
    }
  }

  /** The node is a root: its component is popped and reported. */
  lemma CloseRoot(g: Graph, s: Search, open: set<nat>, k: nat, node: nat, low: int,
                  onStack: seq<bool>, component: seq<nat>)
    requires node < |g| && Inv(g, s, open + {node}) && Scanned(g, s, k, node, low, |g[node]|)
    requires low == s.indexOf[node]
    requires forall o :: o in open ==> o in s.stack[..k]
    requires PopsTop(g, s, k, onStack, component)
    ensures Inv(g, Pop(s, k, onStack, component), open)
  {
    EdgesAfterScan(g, s, open, k, node, low);
    BoundsAfterScan(g, s, k, node, low);
    BehindIsClosed(g, s, open, k);
    assert IsComponent(g, component) by {
      assert s.stack[k..][0] == node && node in component;
      forall x, y | x in component ensures y in component <==> Mutual(g, x, y) {
        TopIsComponent(g, s, open, k, x, y);
      }
    }
    PopShape(g, s, k, onStack, component);
    PopComponents(g, s, k, onStack, component);
    PopEdges(g, s, k, onStack, component);
    PopReach(g, s, open, k, onStack, component);
  }
}
