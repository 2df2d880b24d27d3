/** SectionGraphAnalyzer::analyze of src/section_graph.cc: merged section relations, roots,
    orphans, and Tarjan's strongly connected components. */
module SectionGraphs {
  import opened Base
  import opened Graphs
  import opened Image
  import opened Relations
  import opened Sorting
  import opened TarjanState

  datatype SectionGraph = SectionGraph(
    components: seq<seq<nat>>, relations: seq<SectionRelation>, roots: seq<nat>, orphans: seq<nat>, cyclic: bool)

  // ----- the search -----

  /** A component makes the graph cyclic when it has two members or a self edge. */
  ghost predicate CyclicComponent(g: Graph, c: seq<nat>)
  {
    |c| > 1 || (|c| == 1 && Edge(g, c[0], c[0]))
  }

  ghost predicate SomeCyclic(g: Graph, components: seq<seq<nat>>)
  {
    exists i :: 0 <= i < |components| && CyclicComponent(g, components[i])
  }

  lemma ExtendsTransitive(r: Search, s: Search, t: Search)
    requires Extends(r, s) && Extends(s, t)
    ensures Extends(r, t)
  {
    forall v: nat | Visited(r, v) ensures Visited(t, v) && t.indexOf[v] == r.indexOf[v] {
      assert Visited(s, v);
    }
  }

  lemma SortedComponent(c: seq<nat>)
    requires NoDuplicates(c)
    ensures var r := Sort((a: nat, b: nat) => a < b, c);
            StrictlySorted(r) && |r| == |c| && forall v :: v in r <==> v in c
  {
    var less := (a: nat, b: nat) => a < b;
    var r := Sort(less, c);
    SortSorts(less, c);
    PermutationMembers(r, c);
    PermutationKeepsNoDuplicates(c, r);
    forall i, j | 0 <= i < j < |r| ensures r[i] < r[j] {
      assert !less(r[j], r[i]);
    }
  }

  /** The vectors that the recursive lambda strong_connect captures by reference. */
  class ComponentSearch {
    const adjacency: Graph
    var indexOf: seq<int>
    var lowLink: seq<int>
    var stack: seq<nat>
    var onStack: seq<bool>
    var nextIndex: int
    var components: seq<seq<nat>>
    var cyclic: bool

    ghost function Picture(): Search
      reads this
    {
      Search(indexOf, stack, onStack, nextIndex, components)
    }

    ghost predicate Valid(open: set<nat>)
      reads this
    {
      && WellFormed(adjacency)
      && |lowLink| == |adjacency|
      && Inv(adjacency, Picture(), open)
      && (cyclic <==> SomeCyclic(adjacency, components))
    }

    constructor (adjacency: Graph)
      requires WellFormed(adjacency)
      ensures this.adjacency == adjacency && Valid({}) && stack == []
      ensures forall v: nat :: !Visited(Picture(), v)
    {
      this.adjacency := adjacency;
      indexOf := seq(|adjacency|, i => -1);
      lowLink := seq(|adjacency|, i => -1);
      stack := [];
      onStack := seq(|adjacency|, i => false);
      nextIndex := 0;
      components := [];
      cyclic := false;
      new;
      assert VisitedSet(Picture()) == {};
    }

    /** The loop that pops the stack down to and including node. */
    method PopThrough(node: nat, ghost k: nat) returns (component: seq<nat>)
      requires |indexOf| == |onStack| == |adjacency| && Shape(adjacency, Picture())
      requires k < |stack| && stack[k] == node
      modifies this`stack, this`onStack
      ensures NoDuplicates(component) && stack == old(stack)[..k] && |component| == |old(stack)| - k
      ensures forall v :: v in component <==> v in old(stack)[k..]
      ensures |onStack| == |adjacency| && forall v :: 0 <= v < |adjacency| ==> (onStack[v] <==> v in stack)
    {
      component := [];
      ghost var whole := stack;
      ghost var picture := Picture();
      while true
        invariant k < |stack| <= |whole| && stack == whole[..|stack|]
        invariant |component| == |whole| - |stack|
        invariant forall i :: 0 <= i < |component| ==> component[i] == whole[|whole| - 1 - i]
        invariant |onStack| == |adjacency| && forall v :: 0 <= v < |adjacency| ==> (onStack[v] <==> v in stack)
        decreases |stack|
      {
        var member := stack[|stack| - 1];
        assert Visited(picture, whole[|stack| - 1]);
        ghost var before := stack;
        stack := stack[..|stack| - 1];
        LastLeaves(picture, before);
        onStack := onStack[member := false];
        component := component + [member];
        if member == node {
          assert |stack| == k by { SameSpot(picture, |stack|, k); }
          break;
        }
      }
      PoppedMembers(picture, k, component);
    }

    /** The first part of strong_connect: number the node and push it. */
    method OpenNode(node: nat)
      requires node < |indexOf| == |lowLink| == |onStack|
      modifies this
      ensures Picture() == Push(old(Picture()), node) && lowLink == old(lowLink)[node := old(nextIndex)]
      ensures cyclic == old(cyclic)
    {
      indexOf := indexOf[node := nextIndex];
      lowLink := lowLink[node := nextIndex];
      nextIndex := nextIndex + 1;
      stack := stack + [node];
      onStack := onStack[node := true];
    }

    /** The last part: a root pops and reports its component, any other node returns. */
    method CloseNode(node: nat, ghost open: set<nat>, ghost k: nat)
      requires node < |adjacency| && Valid(open + {node})
      requires Scanned(adjacency, Picture(), k, node, lowLink[node], |adjacency[node]|)
      requires forall o :: o in open ==> o in stack[..k]
      modifies this
      ensures Valid(open) && lowLink == old(lowLink) && indexOf == old(indexOf)
      ensures LowBounds(adjacency, old(Picture()), k, k, lowLink[node])
      ensures if lowLink[node] != indexOf[node] then Picture() == old(Picture())
              else stack == old(stack)[..k] && old(components) <= components
    {
      ghost var scanned := Picture();
      BoundsAfterScan(adjacency, scanned, k, node, lowLink[node]);
      if lowLink[node] != indexOf[node] {
        CloseInner(adjacency, scanned, open, k, node, lowLink[node]);
        return;
      }
      var component := PopThrough(node, k);
      SortedComponent(component);
      component := Sort((a: nat, b: nat) => a < b, component);
      CloseRoot(adjacency, scanned, open, k, node, lowLink[node], onStack, component);
      assert scanned.stack[k..][0] == node && node in component;
      if |component| > 1 {
        cyclic := true;
      } else if node in adjacency[node] {
        cyclic := true;
      }
      AppendCyclic(adjacency, components, component);
      components := components + [component];
      assert Picture() == Pop(scanned, k, onStack, component);
    }

    /** One turn of the loop over the node's edges; before and lows are the state at the
        start of strong_connect(node). */
    method FollowEdge(node: nat, i: nat, ghost before: Search, ghost lows: seq<int>, ghost open: set<nat>)
      requires WellFormed(adjacency) && node < |adjacency| && i < |adjacency[node]|
      requires Scanning(adjacency, before, Picture(), lows, lowLink, open, node, i)
      requires cyclic <==> SomeCyclic(adjacency, components)
      requires forall o :: o in open ==> Reach(adjacency, o, node)
      requires !Visited(before, node)
      modifies this
      ensures Scanning(adjacency, before, Picture(), lows, lowLink, open, node, i + 1)
      ensures cyclic <==> SomeCyclic(adjacency, components)
      decreases UnvisitedSet(before), 0
    {
      Shrinks(before, Picture(), node);
      var target := adjacency[node][i];
      ghost var picture, low := Picture(), lowLink;
      if indexOf[target] < 0 {
        ReachThrough(adjacency, open, node, target);
        StrongConnect(target, open + {node});
        ghost var explored := Picture();
        ScanGoesOn(adjacency, before, picture, explored, lows, low, lowLink, open, node, i);
        lowLink := lowLink[node := Min(lowLink[node], lowLink[target])];
        assert Picture() == explored;
      } else if onStack[target] {
        ScanSeesStack(adjacency, before, picture, lows, lowLink, open, node, i);
        lowLink := lowLink[node := Min(lowLink[node], indexOf[target])];
        assert Picture() == picture;
      } else {
        ScanPasses(adjacency, before, picture, lows, lowLink, open, node, i);
      }
    }

    /** The loop over the node's edges. */
    method ScanEdges(node: nat, ghost before: Search, ghost lows: seq<int>, ghost open: set<nat>)
      requires WellFormed(adjacency) && node < |adjacency|
      requires Scanning(adjacency, before, Picture(), lows, lowLink, open, node, 0)
      requires cyclic <==> SomeCyclic(adjacency, components)
      requires forall o :: o in open ==> Reach(adjacency, o, node)
      requires !Visited(before, node)
      modifies this
      ensures Scanning(adjacency, before, Picture(), lows, lowLink, open, node, |adjacency[node]|)
      ensures cyclic <==> SomeCyclic(adjacency, components)
      decreases UnvisitedSet(before), 1
    {
      for i := 0 to |adjacency[node]|
        invariant Scanning(adjacency, before, Picture(), lows, lowLink, open, node, i)
        invariant cyclic <==> SomeCyclic(adjacency, components)
      {
        FollowEdge(node, i, before, lows, open);
      }
    }

    /** strong_connect. */
    method StrongConnect(node: nat, ghost open: set<nat>)
      requires Valid(open) && node < |adjacency| && !Visited(Picture(), node)
      requires forall o :: o in open ==> Reach(adjacency, o, node)
      modifies this
      ensures Valid(open)
      ensures Explored(adjacency, old(Picture()), Picture(), node, lowLink[node])
      ensures LowKept(old(Picture()), old(lowLink), lowLink)
      decreases UnvisitedSet(Picture()), 2
    {
      ghost var before, lows := Picture(), lowLink;
      OpenNode(node);
      ScanStarts(adjacency, before, lows, open, node);
      ScanEdges(node, before, lows, open);
      ghost var scanned := Picture();
      KeepsPrefix(before, scanned, open);
      CloseNode(node, open, |before.stack|);
      Finished(adjacency, before, scanned, Picture(), node, lowLink[node]);
    }
  }

  /** The state of strong_connect(node) between two turns of its edge loop; before is the
      state at the call. */
  ghost predicate Scanning(g: Graph, before: Search, t: Search, lows: seq<int>, lowLink: seq<int>,
                           open: set<nat>, node: nat, i: nat)
    requires node < |g| && i <= |g[node]|
  {
    && |lowLink| == |g| && |lows| == |g|
    && Inv(g, t, open + {node})
    && Extends(before, t) && Visited(t, node) && t.indexOf[node] == before.nextIndex
    && Scanned(g, t, |before.stack|, node, lowLink[node], i)
    && LowKept(before, lows, lowLink)
  }

  ghost predicate LowKept(before: Search, lows: seq<int>, lowLink: seq<int>)
  {
    |lows| == |lowLink| && forall v: nat :: Visited(before, v) && v < |lows| ==> lowLink[v] == lows[v]
  }

  lemma ScanStarts(g: Graph, before: Search, lows: seq<int>, open: set<nat>, node: nat)
    requires Inv(g, before, open) && node < |g| == |lows| && !Visited(before, node)
    requires forall o :: o in open ==> Reach(g, o, node)
    ensures Scanning(g, before, Push(before, node), lows, lows[node := before.nextIndex], open, node, 0)
  {
    PushShape(g, before, node);
    PushKeeps(g, before, open, node);
    PushScanned(g, before, node);
  }

  lemma ScanGoesOn(g: Graph, before: Search, s: Search, t: Search, lows: seq<int>, low: seq<int>, lowLink: seq<int>,
                   open: set<nat>, node: nat, i: nat)
    requires WellFormed(g) && node < |g| && i < |g[node]| && Scanning(g, before, s, lows, low, open, node, i)
    requires Inv(g, t, open + {node}) && |lowLink| == |g| && !Visited(before, node) && !Visited(s, g[node][i])
    requires Explored(g, s, t, g[node][i], lowLink[g[node][i]]) && LowKept(s, low, lowLink)
    ensures Scanning(g, before, t, lows, lowLink[node := Min(lowLink[node], lowLink[g[node][i]])], open, node, i + 1)
  {
    ScanTree(g, s, t, |before.stack|, node, low[node], i, lowLink[g[node][i]]);
    ExtendsTransitive(before, s, t);
  }

  lemma ScanSeesStack(g: Graph, before: Search, t: Search, lows: seq<int>, lowLink: seq<int>,
                      open: set<nat>, node: nat, i: nat)
    requires WellFormed(g) && node < |g| && i < |g[node]| && Scanning(g, before, t, lows, lowLink, open, node, i)
    requires g[node][i] in t.stack && !Visited(before, node)
    ensures Visited(t, g[node][i])
    ensures Scanning(g, before, t, lows, lowLink[node := Min(lowLink[node], t.indexOf[g[node][i]])], open, node, i + 1)
  {
    ScanBack(g, t, |before.stack|, node, lowLink[node], i);
  }

  lemma ScanPasses(g: Graph, before: Search, t: Search, lows: seq<int>, lowLink: seq<int>,
                   open: set<nat>, node: nat, i: nat)
    requires node < |g| && i < |g[node]| && Scanning(g, before, t, lows, lowLink, open, node, i)
    requires Visited(t, g[node][i]) && g[node][i] !in t.stack
    ensures Scanning(g, before, t, lows, lowLink, open, node, i + 1)
  {
    ScanDone(g, t, |before.stack|, node, lowLink[node], i);
  }

  lemma KeepsPrefix(s: Search, t: Search, open: set<nat>)
    requires Extends(s, t) && OpenOnStack(s, open)
    ensures forall o :: o in open ==> o in t.stack[..|s.stack|]
  {
  }

  /** The call as a whole, put together from its scan and its close. */
  lemma Finished(g: Graph, s: Search, scanned: Search, t: Search, node: nat, low: int)
    requires node < |g| && Extends(s, scanned) && Shape(g, scanned)
    requires Scanned(g, scanned, |s.stack|, node, low, |g[node]|)
    requires LowBounds(g, scanned, |s.stack|, |s.stack|, low)
    requires scanned.indexOf[node] == s.nextIndex && t.indexOf == scanned.indexOf
    requires if low != s.nextIndex then t == scanned
             else t.stack == scanned.stack[..|s.stack|] && scanned.components <= t.components
    ensures Explored(g, s, t, node, low)
  {
    var k := |s.stack|;
    assert scanned.stack[k] == node;
    if low == s.nextIndex {
      assert t.stack == s.stack;
      StackSplit(g, scanned, k, node);
      assert scanned.stack[k..][0] == node;
    }
    assert forall v: nat :: Visited(s, v) ==> Visited(scanned, v);
  }

  lemma LastLeaves(s: Search, stack: seq<nat>)
    requires |stack| > 0 && stack <= s.stack
    requires StackRises(s)
    ensures forall v :: v in stack[..|stack| - 1] <==> v in stack && v != stack[|stack| - 1]
  {
    var m := |stack| - 1;
    forall v ensures v in stack[..m] <==> v in stack && v != stack[m] {
      if v in stack[..m] {
        var i :| 0 <= i < m && stack[..m][i] == v;
        assert stack[i] == s.stack[i] && stack[m] == s.stack[m];
      }
    }
  }

  lemma SameSpot(s: Search, i: nat, j: nat)
    requires StackRises(s)
    requires i < |s.stack| && j < |s.stack| && s.stack[i] == s.stack[j]
    ensures i == j
  {
  }

  lemma PoppedMembers(s: Search, k: nat, component: seq<nat>)
    requires k <= |s.stack| && |component| == |s.stack| - k
    requires forall i :: 0 <= i < |component| ==> component[i] == s.stack[|s.stack| - 1 - i]
    requires StackRises(s)
    ensures NoDuplicates(component) && forall v :: v in component <==> v in s.stack[k..]
  {
    forall v | v in s.stack[k..] ensures v in component {
      var i :| 0 <= i < |s.stack| - k && s.stack[k..][i] == v;
      assert component[|s.stack| - 1 - (k + i)] == v;
    }
  }

  lemma ReachThrough(g: Graph, open: set<nat>, node: nat, target: nat)
    requires WellFormed(g) && Edge(g, node, target)
    requires forall o :: o in open ==> Reach(g, o, node)
    ensures forall o :: o in open + {node} ==> Reach(g, o, target)
  {
    ReachEdge(g, node, target);
    forall o | o in open ensures Reach(g, o, target) { ReachTransitive(g, o, node, target); }
  }

  lemma Shrinks(s: Search, t: Search, node: nat)
    requires Extends(s, t) && !Visited(s, node) && Visited(t, node)
    ensures UnvisitedSet(t) < UnvisitedSet(s)
  {
    forall v | v in UnvisitedSet(t) ensures v in UnvisitedSet(s) {
      if Visited(s, v) { assert Visited(t, v); }
    }
    assert node in UnvisitedSet(s);
  }

  lemma AppendCyclic(g: Graph, components: seq<seq<nat>>, c: seq<nat>)
    ensures SomeCyclic(g, components + [c]) <==> SomeCyclic(g, components) || CyclicComponent(g, c)
  {
    var all := components + [c];
    if SomeCyclic(g, components) {
      var i :| 0 <= i < |components| && CyclicComponent(g, components[i]);
      assert all[i] == components[i];
    }
    if CyclicComponent(g, c) { assert all[|components|] == c; }
  }

  // ----- the reference events of an image -----

  function SectionEvents(s: Section, n: nat): seq<Event>
  {
    (if s.link != 0 && s.link < n then [Event(s.index, s.link, "link")] else [])
    + (if (s.kind.Relocations? || s.kind.RelocationAddends?) && s.info < n
       then [Event(s.index, s.info, "relocation-target")] else [])
  }

  /** The events of the first k neighbouring pairs of a segment's section list. */
  function OrderEvents(sections: seq<U32>, k: nat): seq<Event>
    requires k < |sections|
  {
    if k == 0 then []
    else OrderEvents(sections, k - 1) + [Event(sections[k - 1], sections[k], "segment-order")]
  }

  function SegmentEvents(s: Segment): seq<Event>
  {
    if |s.sections| == 0 then [] else OrderEvents(s.sections, |s.sections| - 1)
  }

  function RelocationEvents(image: BinaryImage, r: Relocation): seq<Event>
  {
    var n := |image.sections|;
    match image.SymbolAt(r.symbolIndex)
    case Some(symbol) =>
      if r.targetSection < n && symbol.sectionIndex < n
      then [Event(r.targetSection, symbol.sectionIndex, "symbol-reference")] else []
    case None => []
  }

  /** The events of the first k sections, segments and relocations. */
  function AllSectionEvents(image: BinaryImage, k: nat): seq<Event>
    requires k <= |image.sections|
  {
    if k == 0 then []
    else AllSectionEvents(image, k - 1) + SectionEvents(image.sections[k - 1], |image.sections|)
  }

  function AllSegmentEvents(image: BinaryImage, k: nat): seq<Event>
    requires k <= |image.segments|
  {
    if k == 0 then [] else AllSegmentEvents(image, k - 1) + SegmentEvents(image.segments[k - 1])
  }

  function AllRelocationEvents(image: BinaryImage, k: nat): seq<Event>
    requires k <= |image.relocations|
  {
    if k == 0 then [] else AllRelocationEvents(image, k - 1) + RelocationEvents(image, image.relocations[k - 1])
  }

  /** Every call of add_relation that analyze makes, in order. */
  function ReferenceEvents(image: BinaryImage): seq<Event>
  {
    AllSectionEvents(image, |image.sections|)
    + AllSegmentEvents(image, |image.segments|)
    + AllRelocationEvents(image, |image.relocations|)
  }

  method AddOneSection(section: Section, n: nat, table: RelationTable)
    requires table.Valid()
    modifies table
    ensures table.Valid() && table.calls == old(table.calls) + SectionEvents(section, n)
  {
    var added: bool;
    if section.link != 0 && section.link < n {
      added := table.AddRelation(section.index, section.link, "link");
    }
    if (section.kind.Relocations? || section.kind.RelocationAddends?) && section.info < n {
      added := table.AddRelation(section.index, section.info, "relocation-target");
    }
  }

  method AddSectionRelations(image: BinaryImage, table: RelationTable)
    requires table.Valid()
    modifies table
    ensures table.Valid()
    ensures table.calls == old(table.calls) + AllSectionEvents(image, |image.sections|)
  {
    for i := 0 to |image.sections|
      invariant table.Valid() && table.calls == old(table.calls) + AllSectionEvents(image, i)
    {
      AddOneSection(image.sections[i], |image.sections|, table);
      Associate(old(table.calls), AllSectionEvents(image, i), SectionEvents(image.sections[i], |image.sections|));
    }
  }

  method AddOneSegment(segment: Segment, table: RelationTable)
    requires table.Valid()
    modifies table
    ensures table.Valid() && table.calls == old(table.calls) + SegmentEvents(segment)
  {
    var members := segment.sections;
    if |members| == 0 { return; }
    for index := 1 to |members|
      invariant table.Valid() && table.calls == old(table.calls) + OrderEvents(members, index - 1)
    {
      var added := table.AddRelation(members[index - 1], members[index], "segment-order");
    }
  }

  method AddSegmentRelations(image: BinaryImage, table: RelationTable)
    requires table.Valid()
    modifies table
    ensures table.Valid() && table.calls == old(table.calls) + AllSegmentEvents(image, |image.segments|)
  {
    for i := 0 to |image.segments|
      invariant table.Valid() && table.calls == old(table.calls) + AllSegmentEvents(image, i)
    {
      AddOneSegment(image.segments[i], table);
      Associate(old(table.calls), AllSegmentEvents(image, i), SegmentEvents(image.segments[i]));
    }
  }

  method AddOneRelocation(image: BinaryImage, relocation: Relocation, table: RelationTable)
    requires table.Valid()
    modifies table
    ensures table.Valid() && table.calls == old(table.calls) + RelocationEvents(image, relocation)
  {
    var n := |image.sections|;
    if relocation.targetSection >= n { return; }
    var symbol := image.SymbolAt(relocation.symbolIndex);
    if symbol.Some? && symbol.value.sectionIndex < n {
      var added := table.AddRelation(relocation.targetSection, symbol.value.sectionIndex, "symbol-reference");
    }
  }

  method AddSymbolRelations(image: BinaryImage, table: RelationTable)
    requires table.Valid()
    modifies table
    ensures table.Valid() && table.calls == old(table.calls) + AllRelocationEvents(image, |image.relocations|)
  {
    for i := 0 to |image.relocations|
      invariant table.Valid() && table.calls == old(table.calls) + AllRelocationEvents(image, i)
    {
      AddOneRelocation(image, image.relocations[i], table);
      Associate(old(table.calls), AllRelocationEvents(image, i), RelocationEvents(image, image.relocations[i]));
    }
  }

  /** The first part of analyze: merge the reference events. */
  method CollectRelations(image: BinaryImage) returns (relations: seq<SectionRelation>)
    ensures Summarises(relations, |image.sections|, Accepted(|image.sections|, ReferenceEvents(image)))
    ensures Listed(relations, Accepted(|image.sections|, ReferenceEvents(image)))
  {
    var table := new RelationTable(|image.sections|);
    ghost var a := AllSectionEvents(image, |image.sections|);
    ghost var b := AllSegmentEvents(image, |image.segments|);
    AddSectionRelations(image, table);
    assert table.calls == a;
    AddSegmentRelations(image, table);
    assert table.calls == a + b;
    AddSymbolRelations(image, table);
    relations := table.relations;
  }

  /** The adjacency and indegree loop. */
  method BuildAdjacency(n: nat, relations: seq<SectionRelation>) returns (adjacency: Graph, indegree: seq<nat>)
    requires forall k :: 0 <= k < |relations| ==> relations[k].source < n && relations[k].target < n
    ensures adjacency == Adjacency(n, relations) && |adjacency| == |indegree| == n
    ensures forall v :: 0 <= v < n ==> (indegree[v] > 0 <==> exists x :: Related(relations, x, v))
  {
    adjacency := seq(n, i => []);
    indegree := seq(n, i => 0);
    for k := 0 to |relations|
      invariant adjacency == Adjacency(n, relations[..k]) && |adjacency| == |indegree| == n
      invariant forall v :: 0 <= v < n ==>
                  (indegree[v] > 0 <==> exists j :: 0 <= j < k && relations[j].target == v)
    {
      var r := relations[k];
      assert relations[..k + 1][..k] == relations[..k];
      adjacency := adjacency[r.source := adjacency[r.source] + [r.target]];
      indegree := indegree[r.target := indegree[r.target] + 1];
    }
    assert relations[..|relations|] == relations;
    forall v | 0 <= v < n ensures indegree[v] > 0 <==> exists x :: Related(relations, x, v) {
      if indegree[v] > 0 {
        var j :| 0 <= j < |relations| && relations[j].target == v;
        assert Related(relations, relations[j].source, v);
      }
    }
  }

  ghost predicate Isolated(g: Graph, v: nat)
  {
    NoIncoming(g, v) && forall w :: !Edge(g, v, w)
  }

  /** components are the strongly connected components of g, ordered by smallest member. */
  ghost predicate ListsComponents(g: Graph, components: seq<seq<nat>>)
  {
    && (forall k :: 0 <= k < |components| ==> IsComponent(g, components[k]))
    && (forall v: nat :: v < |g| <==> InSome(components, v))
    && (forall j, k, v :: 0 <= j < k < |components| && v in components[j] ==> v !in components[k])
    && (forall j, k :: 0 <= j < k < |components| ==> components[j][0] < components[k][0])
  }

  function Front(c: seq<nat>): int
  {
    if |c| > 0 then c[0] else -1
  }

  /** The components as found, with all nodes in them. */
  ghost predicate FoundAll(g: Graph, components: seq<seq<nat>>)
  {
    && (forall k :: 0 <= k < |components| ==> IsComponent(g, components[k]))
    && (forall v: nat :: v < |g| <==> InSome(components, v))
    && (forall j, k, v :: 0 <= j < k < |components| && v in components[j] ==> v !in components[k])
  }

  lemma SearchFoundAll(g: Graph, s: Search)
    requires ComponentsFound(g, s) && s.stack == [] && |s.indexOf| == |g|
    requires forall v: nat :: v < |g| ==> Visited(s, v)
    ensures FoundAll(g, s.components)
  {
    forall v: nat ensures v < |g| <==> InSome(s.components, v) {
      assert HasDeparted(s, v) <==> InSome(s.components, v);
    }
  }

  lemma PermutedInSome(a: seq<seq<nat>>, b: seq<seq<nat>>, v: nat)
    requires forall c :: c in a ==> c in b
    requires InSome(a, v)
    ensures InSome(b, v)
  {
    var k :| 0 <= k < |a| && v in a[k];
    assert a[k] in b;
  }

  lemma FoundDistinct(g: Graph, components: seq<seq<nat>>)
    requires FoundAll(g, components)
    ensures NoDuplicates(components)
  {
    forall j, k | 0 <= j < k < |components| ensures components[j] != components[k] {
      assert IsComponent(g, components[j]);
      assert components[j][0] in components[j];
    }
  }

  lemma PermutationFoundAll(g: Graph, a: seq<seq<nat>>, b: seq<seq<nat>>)
    requires FoundAll(g, a) && multiset(a) == multiset(b)
    ensures FoundAll(g, b)
  {
    PermutationMembers(a, b);
    FoundDistinct(g, a);
    PermutationKeepsNoDuplicates(a, b);
    forall v: nat ensures v < |g| <==> InSome(b, v) {
      if v < |g| { PermutedInSome(a, b, v); }
      if InSome(b, v) { PermutedInSome(b, a, v); }
    }
    forall k | 0 <= k < |b| ensures IsComponent(g, b[k]) {
      assert b[k] in a;
    }
    forall j, k, v | 0 <= j < k < |b| && v in b[j] ensures v !in b[k] {
      assert b[j] in a && b[k] in a;
      var x :| 0 <= x < |a| && a[x] == b[j];
      var y :| 0 <= y < |a| && a[y] == b[k];
    }
  }

  lemma PermutationSomeCyclic(g: Graph, a: seq<seq<nat>>, b: seq<seq<nat>>)
    requires multiset(a) == multiset(b) && SomeCyclic(g, a)
    ensures SomeCyclic(g, b)
  {
    PermutationMembers(a, b);
    var i :| 0 <= i < |a| && CyclicComponent(g, a[i]);
    assert a[i] in b;
  }

  lemma SortComponents(g: Graph, components: seq<seq<nat>>)
    requires FoundAll(g, components)
    ensures var sorted := Sort((a, b) => Front(a) < Front(b), components);
            ListsComponents(g, sorted) && (SomeCyclic(g, sorted) <==> SomeCyclic(g, components))
  {
    var less := (a: seq<nat>, b: seq<nat>) => Front(a) < Front(b);
    var sorted := Sort(less, components);
    SortSorts(less, components);
    PermutationFoundAll(g, components, sorted);
    if SomeCyclic(g, components) { PermutationSomeCyclic(g, components, sorted); }
    if SomeCyclic(g, sorted) { PermutationSomeCyclic(g, sorted, components); }
    forall j, k | 0 <= j < k < |sorted| ensures sorted[j][0] < sorted[k][0] {
      assert !less(sorted[k], sorted[j]);
      assert IsComponent(g, sorted[j]) && IsComponent(g, sorted[k]);
      assert sorted[j][0] in sorted[j] && sorted[k][0] in sorted[k];
    }
  }

  lemma CyclicComponentMeans(g: Graph, c: seq<nat>)
    requires IsComponent(g, c) && CyclicComponent(g, c)
    ensures exists x, y :: Mutual(g, x, y) && (x != y || Edge(g, x, x))
  {
    var y := if |c| > 1 then c[1] else c[0];
    assert c[0] in c && y in c;
    assert Mutual(g, c[0], y);
  }

  lemma MutualMakesCyclic(g: Graph, components: seq<seq<nat>>, x: nat, y: nat)
    requires FoundAll(g, components)
    requires Mutual(g, x, y) && (x != y || Edge(g, x, x))
    ensures SomeCyclic(g, components)
  {
    ReachInRange(g, x, y);
    assert InSome(components, x);
    var k :| 0 <= k < |components| && x in components[k];
    assert IsComponent(g, components[k]);
    assert y in components[k];
    assert CyclicComponent(g, components[k]);
  }

  /** Some component is cyclic exactly when the graph has a cycle. */
  lemma CyclicMeans(g: Graph, components: seq<seq<nat>>)
    requires WellFormed(g) && FoundAll(g, components)
    ensures SomeCyclic(g, components) <==> HasCycle(g)
  {
    CycleMeans(g);
    if SomeCyclic(g, components) {
      var i :| 0 <= i < |components| && CyclicComponent(g, components[i]);
      CyclicComponentMeans(g, components[i]);
    }
    if HasCycle(g) {
      var x, y :| Mutual(g, x, y) && (x != y || Edge(g, x, x));
      MutualMakesCyclic(g, components, x, y);
    }
  }

  /** The second part: roots, orphans and the search. */
  method FindComponents(adjacency: Graph) returns (components: seq<seq<nat>>, cyclic: bool)
    requires WellFormed(adjacency)
    ensures ListsComponents(adjacency, components)
    ensures cyclic <==> HasCycle(adjacency)
  {
    var search := new ComponentSearch(adjacency);
    for node := 0 to |adjacency|
      invariant fresh(search) && search.adjacency == adjacency && search.Valid({})
      invariant forall v: nat :: v < node ==> Visited(search.Picture(), v)
    {
      if search.indexOf[node] < 0 {
        ghost var before := search.Picture();
        search.StrongConnect(node, {});
        assert forall v: nat :: v < node ==> Visited(before, v);
      }
    }
    ghost var done := search.Picture();
    NothingLeft(adjacency, done);
    SearchFoundAll(adjacency, done);
    CyclicMeans(adjacency, done.components);
    SortComponents(adjacency, done.components);
    components := Sort((a, b) => Front(a) < Front(b), search.components);
    cyclic := search.cyclic;
  }

  lemma NothingLeft(g: Graph, s: Search)
    requires Inv(g, s, {})
    ensures s.stack == []
  {
    assert s.stack == [] || ReachesOpen(g, s, {}, s.stack[0]);
  }

  /** The search numbers at most as many nodes as there are, so next_index stays within int32_t
      when there are fewer than 2^31 sections. */
  lemma IndexBound(g: Graph, s: Search, open: set<nat>)
    requires Inv(g, s, open)
    ensures s.nextIndex <= |g|
  {
    SubsetCount(VisitedSet(s), Below(|g|));
  }

  method RootsAndOrphans(adjacency: Graph, indegree: seq<nat>) returns (roots: seq<nat>, orphans: seq<nat>)
    requires WellFormed(adjacency) && |indegree| == |adjacency|
    requires forall v :: 0 <= v < |adjacency| ==> (indegree[v] > 0 <==> exists x :: Edge(adjacency, x, v))
    ensures StrictlySorted(roots) && forall v :: v in roots <==> NoIncoming(adjacency, v)
    ensures StrictlySorted(orphans) && forall v :: v in orphans <==> Isolated(adjacency, v)
  {
    roots, orphans := [], [];
    for index := 0 to |adjacency|
      invariant StrictlySorted(roots) && StrictlySorted(orphans)
      invariant forall i :: 0 <= i < |roots| ==> roots[i] < index
      invariant forall i :: 0 <= i < |orphans| ==> orphans[i] < index
      invariant forall v: nat :: v in roots <==> v < index && NoIncoming(adjacency, v)
      invariant forall v: nat :: v in orphans <==> v < index && Isolated(adjacency, v)
    {
      if indegree[index] == 0 { roots := roots + [index]; }
      NoSuccessors(adjacency, index);
      if adjacency[index] == [] && indegree[index] == 0 { orphans := orphans + [index]; }
    }
  }

  lemma NoSuccessors(g: Graph, v: nat)
    requires WellFormed(g) && v < |g|
    ensures g[v] == [] <==> forall w :: !Edge(g, v, w)
  {
    if g[v] != [] { assert Edge(g, v, g[v][0]); }
  }

  /** What analyze promises about an image with n sections and these reference events. */
  ghost predicate Describes(result: SectionGraph, n: nat, events: seq<Event>)
  {
    var g := Adjacency(n, result.relations);
    && Summarises(result.relations, n, Accepted(n, events)) && Listed(result.relations, Accepted(n, events))
    && ListsComponents(g, result.components)
    && (result.cyclic <==> HasCycle(g))
    && StrictlySorted(result.roots) && (forall v :: v in result.roots <==> NoIncoming(g, v))
    && StrictlySorted(result.orphans) && (forall v :: v in result.orphans <==> Isolated(g, v))
  }

  /** SectionGraphAnalyzer::analyze. */
  method Analyze(limits: Limits, image: BinaryImage) returns (r: Result<SectionGraph>)
    ensures r.Err? <==> |image.sections| > limits.maxSections
    ensures r.Err? ==> r.code == ResourceLimit
    ensures r.Ok? ==> Describes(r.value, |image.sections|, ReferenceEvents(image))
  {
    if |image.sections| > limits.maxSections { return Err(ResourceLimit); }
    var relations := CollectRelations(image);
    var adjacency, indegree := BuildAdjacency(|image.sections|, relations);
    AdjacencyMeans(|image.sections|, relations);
    var roots, orphans := RootsAndOrphans(adjacency, indegree);
    var components, cyclic := FindComponents(adjacency);
    r := Ok(SectionGraph(components, relations, roots, orphans, cyclic));
  }

  /** The reported edges are exactly the pairs that some accepted event names. */
  lemma EdgesAreEvents(result: SectionGraph, n: nat, events: seq<Event>, x: nat, y: nat)
    requires Describes(result, n, events)
    ensures Edge(Adjacency(n, result.relations), x, y) <==>
            exists e :: e in Accepted(n, events) && e.source == x && e.target == y
  {
    var accepted := Accepted(n, events);
    AdjacencyMeans(n, result.relations);
    if Related(result.relations, x, y) {
      var k :| 0 <= k < |result.relations| && result.relations[k].source == x && result.relations[k].target == y;
      CountZero(accepted, x, y);
    }
    if exists e :: e in accepted && e.source == x && e.target == y {
      var e :| e in accepted && e.source == x && e.target == y;
      assert Covered(result.relations, e);
      var k :| 0 <= k < |result.relations| && Covers(result.relations[k], e);
      assert Related(result.relations, x, y);
    }
  }

  /** Two sections are reported together exactly when each reaches the other. */
  lemma TogetherMeansMutual(result: SectionGraph, n: nat, events: seq<Event>, x: nat, y: nat)
    requires Describes(result, n, events) && x < n
    ensures |Adjacency(n, result.relations)| == n
    ensures Mutual(Adjacency(n, result.relations), x, y) <==>
            exists k :: 0 <= k < |result.components| && x in result.components[k] && y in result.components[k]
  {
    var g := Adjacency(n, result.relations);
    AdjacencyMeans(n, result.relations);
    assert InSome(result.components, x);
    var k :| 0 <= k < |result.components| && x in result.components[k];
    assert IsComponent(g, result.components[k]);
    assert y in result.components[k] <==> Mutual(g, x, y);
    if exists j :: 0 <= j < |result.components| && x in result.components[j] && y in result.components[j] {
      var j :| 0 <= j < |result.components| && x in result.components[j] && y in result.components[j];
      assert IsComponent(g, result.components[j]);
      assert Mutual(g, x, y);
    }
  }

  /** When no cycle is reported, every section is reached from a listed root. */
  lemma RootsReachAll(result: SectionGraph, n: nat, events: seq<Event>, v: nat)
    requires Describes(result, n, events) && !result.cyclic && v < n
    ensures exists r :: r in result.roots && Reach(Adjacency(n, result.relations), r, v)
  {
    var g := Adjacency(n, result.relations);
    AdjacencyMeans(n, result.relations);
    SourcesReachAll(g, v);
    var r :| NoIncoming(g, r) && Reach(g, r, v);
    assert r in result.roots;
  }
}
