/**
 Bounded depth-first walks over a code graph. A walk follows edges out of nodes
 it has seen, not always out of its last one: it goes on after a back reference
 and after backing out of a finished node.
 */
module BasinWalks {
  import opened Wrappers
  import opened Text
  import opened Lists
  import opened BasinTraces

  datatype CodeEdge = CodeEdge(source: string, relation: string, target: string)

  /** `nodes` and `roots` are sets in the order of their names. */
  datatype CodeGraph = CodeGraph(nodes: seq<string>, edges: seq<CodeEdge>, roots: seq<string>)

  datatype WalkOptions = WalkOptions(maxDepth: nat, maxWalks: nat)

  datatype Successor = Successor(relation: string, target: string)

  function RootStep(node: string): WalkStep {
    WalkStep(node, None, None)
  }

  function OutStep(successor: Successor): WalkStep {
    WalkStep(successor.target, Some(successor.relation), Some("out"))
  }

  function Successors(edges: seq<CodeEdge>, node: string): seq<Successor> {
    if edges == [] then []
    else
      var first := if edges[0].source == node then [Successor(edges[0].relation, edges[0].target)] else [];
      first + Successors(edges[1..], node)
  }

  lemma {:induction false} SuccessorsAreEdges(edges: seq<CodeEdge>, node: string, successor: Successor)
    ensures successor in Successors(edges, node) <==>
            CodeEdge(node, successor.relation, successor.target) in edges
  {
    if edges != [] {
      SuccessorsAreEdges(edges[1..], node, successor);
      assert edges == [edges[0]] + edges[1..];
    }
  }

  function LeavesFrom(node: string): CodeEdge -> bool {
    (edge: CodeEdge) => edge.source == node
  }

  function EdgesTo(node: string, successors: seq<Successor>): (edges: seq<CodeEdge>)
    ensures |edges| == |successors|
  {
    seq(|successors|, k requires 0 <= k < |successors| =>
      CodeEdge(node, successors[k].relation, successors[k].target))
  }

  lemma {:induction false} EdgesToJoins(node: string, a: seq<Successor>, b: seq<Successor>)
    ensures EdgesTo(node, a + b) == EdgesTo(node, a) + EdgesTo(node, b)
  {
  }

  lemma {:induction false} FirstSuccessor(edges: seq<CodeEdge>, node: string)
    requires edges != []
    ensures var rest := EdgesTo(node, Successors(edges[1..], node));
            EdgesTo(node, Successors(edges, node)) == if edges[0].source == node then [edges[0]] + rest else rest
  {
    var successor, rest := Successor(edges[0].relation, edges[0].target), Successors(edges[1..], node);
    if edges[0].source == node {
      EdgesToJoins(node, [successor], rest);
      assert EdgesTo(node, [successor]) == [edges[0]];
    } else {
      assert [] + rest == rest;
    }
  }

  /** The successors are exactly the edges out of the node, in the order of the edge list. */
  lemma {:induction false} SuccessorsInOrder(edges: seq<CodeEdge>, node: string) returns (places: seq<nat>)
    ensures Picks(edges, LeavesFrom(node), EdgesTo(node, Successors(edges, node)), places)
  {
    places := [];
    if edges != [] {
      var later := SuccessorsInOrder(edges[1..], node);
      PicksNext(edges, LeavesFrom(node), EdgesTo(node, Successors(edges[1..], node)), later);
      FirstSuccessor(edges, node);
      places := if edges[0].source == node then [0] + Moved(later) else Moved(later);
    }
  }

  // ---------------------------------------------------------------------------
  // One walk

  /** A node whose edges are being followed, and the next edge. */
  datatype Frame = Frame(node: string, next: nat)

  datatype Search = Search(walk: seq<WalkStep>, visited: set<string>, stack: seq<Frame>)

  function Start(root: string): Search {
    Search([RootStep(root)], {root}, [Frame(root, 0)])
  }

  function Room(limit: nat, walk: seq<WalkStep>): nat {
    if |walk| < limit then limit - |walk| else 0
  }

  function Top(s: Search): Frame
    requires s.stack != []
  {
    s.stack[|s.stack| - 1]
  }

  /** The search with its top frame moved to the next edge, and that edge appended to the walk. */
  function Followed(s: Search, successor: Successor): Search
    requires s.stack != []
  {
    s.(walk := s.walk + [OutStep(successor)],
       stack := s.stack[..|s.stack| - 1] + [Top(s).(next := Top(s).next + 1)])
  }

  /** Enters the node at the end of the walk. */
  function Entered(s: Search, node: string): Search {
    s.(visited := s.visited + {node}, stack := s.stack + [Frame(node, 0)])
  }

  function Left(s: Search): Search
    requires s.stack != []
  {
    s.(stack := s.stack[..|s.stack| - 1])
  }

  /** From the top frame's next edge: back references go on, a new node is entered, at the end the frame is left. */
  function Scan(edges: seq<CodeEdge>, limit: nat, s: Search): Search
    requires s.stack != []
    decreases |Successors(edges, Top(s).node)| - Top(s).next
  {
    var successors := Successors(edges, Top(s).node);
    if Top(s).next >= |successors| then Left(s)
    else
      var successor := successors[Top(s).next];
      var followed := Followed(s, successor);
      if successor.target in s.visited && |s.walk| > 2 then
        if |followed.walk| >= limit then Left(followed) else Scan(edges, limit, followed)
      else Entered(followed, successor.target)
  }

  lemma {:induction false} ScanProgress(edges: seq<CodeEdge>, limit: nat, s: Search)
    requires s.stack != []
    ensures var after := Scan(edges, limit, s);
            || |after.walk| > |s.walk|
            || (after.walk == s.walk && |after.stack| < |s.stack|)
    decreases |Successors(edges, Top(s).node)| - Top(s).next
  {
    var successors := Successors(edges, Top(s).node);
    if Top(s).next < |successors| {
      var followed := Followed(s, successors[Top(s).next]);
      if |followed.walk| < limit {
        ScanProgress(edges, limit, followed);
      }
    }
  }

  /** The whole search: it ends when nothing is left to follow or the walk is full. */
  function Run(edges: seq<CodeEdge>, limit: nat, s: Search): Search
    decreases Room(limit, s.walk), |s.stack|
  {
    if s.stack == [] || |s.walk| >= limit then s
    else
      ScanProgress(edges, limit, s);
      Run(edges, limit, Scan(edges, limit, s))
  }

  function WalkFrom(edges: seq<CodeEdge>, limit: nat, root: string): seq<WalkStep> {
    Run(edges, limit, Start(root)).walk
  }

  // ---------------------------------------------------------------------------
  // What a walk is

  /** A step follows an edge out of a node that stands earlier in the walk. */
  ghost predicate FollowsEdge(edges: seq<CodeEdge>, walk: seq<WalkStep>, k: nat)
    requires k < |walk|
  {
    && walk[k].edgeType.Some?
    && walk[k] == OutStep(Successor(walk[k].edgeType.value, walk[k].node))
    && exists i :: 0 <= i < k && CodeEdge(walk[i].node, walk[k].edgeType.value, walk[k].node) in edges
  }

  ghost predicate IsWalk(edges: seq<CodeEdge>, root: string, walk: seq<WalkStep>) {
    && walk != [] && walk[0] == RootStep(root)
    && forall k :: 1 <= k < |walk| ==> FollowsEdge(edges, walk, k)
  }

  predicate Visits(walk: seq<WalkStep>, node: string) {
    exists i :: 0 <= i < |walk| && walk[i].node == node
  }

  /** The first `n` edges out of a node are steps of the walk. */
  predicate Shows(edges: seq<CodeEdge>, walk: seq<WalkStep>, node: string, n: nat) {
    && n <= |Successors(edges, node)|
    && forall m :: 0 <= m < n ==> OutStep(Successors(edges, node)[m]) in walk
  }

  predicate ShowsAll(edges: seq<CodeEdge>, walk: seq<WalkStep>, node: string) {
    Shows(edges, walk, node, |Successors(edges, node)|)
  }

  predicate OnStack(stack: seq<Frame>, node: string) {
    exists f :: 0 <= f < |stack| && stack[f].node == node
  }

  /** What holds throughout a search. */
  ghost predicate Sound(edges: seq<CodeEdge>, root: string, s: Search) {
    && IsWalk(edges, root, s.walk)
    && (forall x :: x in s.visited <==> Visits(s.walk, x))
    && (forall f :: 0 <= f < |s.stack| ==>
          s.stack[f].node in s.visited && Shows(edges, s.walk, s.stack[f].node, s.stack[f].next))
  }

  /** Every visited node is still being followed, or all its edges are steps. */
  ghost predicate NoneForgotten(edges: seq<CodeEdge>, s: Search) {
    forall x :: x in s.visited ==> OnStack(s.stack, x) || ShowsAll(edges, s.walk, x)
  }

  lemma {:induction false} WalkGrows(edges: seq<CodeEdge>, root: string, walk: seq<WalkStep>, node: string, successor: Successor)
    requires IsWalk(edges, root, walk) && Visits(walk, node) && successor in Successors(edges, node)
    ensures IsWalk(edges, root, walk + [OutStep(successor)])
    ensures forall x :: Visits(walk + [OutStep(successor)], x) <==> Visits(walk, x) || x == successor.target
  {
    var more := walk + [OutStep(successor)];
    SuccessorsAreEdges(edges, node, successor);
    var i :| 0 <= i < |walk| && walk[i].node == node;
    assert more[i] == walk[i];
    forall k | 1 <= k < |more| ensures FollowsEdge(edges, more, k) {
      if k < |walk| {
        assert FollowsEdge(edges, walk, k);
        var j :| 0 <= j < k && CodeEdge(walk[j].node, walk[k].edgeType.value, walk[k].node) in edges;
        assert more[j] == walk[j] && more[k] == walk[k];
      }
    }
    forall x ensures Visits(more, x) <==> Visits(walk, x) || x == successor.target {
      if Visits(walk, x) {
        var j :| 0 <= j < |walk| && walk[j].node == x;
        assert more[j].node == x;
      }
      assert more[|walk|].node == successor.target;
    }
  }

  /** Following an edge to a visited node, or then entering its target. */
  lemma {:induction false} FollowedSound(edges: seq<CodeEdge>, root: string, s: Search, successor: Successor)
    requires Sound(edges, root, s) && s.stack != [] && Top(s).next < |Successors(edges, Top(s).node)|
    requires successor == Successors(edges, Top(s).node)[Top(s).next]
    ensures successor.target in s.visited ==> Sound(edges, root, Followed(s, successor))
    ensures Sound(edges, root, Entered(Followed(s, successor), successor.target))
  {
    var top, n := Top(s), |s.stack| - 1;
    assert s.stack[n].node in s.visited;
    assert Shows(edges, s.walk, s.stack[n].node, s.stack[n].next);
    WalkGrows(edges, root, s.walk, top.node, successor);
    var followed := Followed(s, successor);
    forall f | 0 <= f < |followed.stack|
      ensures followed.stack[f].node in s.visited
      ensures Shows(edges, followed.walk, followed.stack[f].node, followed.stack[f].next)
    {
      assert Shows(edges, s.walk, s.stack[f].node, s.stack[f].next);
      assert followed.walk[|s.walk|] == OutStep(successor);
    }
  }

  lemma {:induction false} FollowedForgetsNone(edges: seq<CodeEdge>, s: Search, successor: Successor)
    requires NoneForgotten(edges, s) && s.stack != []
    ensures successor.target in s.visited ==> NoneForgotten(edges, Followed(s, successor))
    ensures NoneForgotten(edges, Entered(Followed(s, successor), successor.target))
  {
    var followed := Followed(s, successor);
    var entered := Entered(followed, successor.target);
    forall x | x in s.visited ensures OnStack(followed.stack, x) || ShowsAll(edges, followed.walk, x) {
      if OnStack(s.stack, x) {
        var f :| 0 <= f < |s.stack| && s.stack[f].node == x;
        assert followed.stack[f].node == x;
      }
    }
    forall x | x in entered.visited ensures OnStack(entered.stack, x) || ShowsAll(edges, entered.walk, x) {
      if x == successor.target {
        assert entered.stack[|followed.stack|].node == x;
      } else if OnStack(followed.stack, x) {
        var f :| 0 <= f < |followed.stack| && followed.stack[f].node == x;
        assert entered.stack[f].node == x;
      }
    }
  }

  lemma {:induction false} LeftForgetsNone(edges: seq<CodeEdge>, s: Search)
    requires NoneForgotten(edges, s) && s.stack != [] && ShowsAll(edges, s.walk, Top(s).node)
    ensures NoneForgotten(edges, Left(s))
  {
    var left := Left(s);
    forall x | x in s.visited ensures OnStack(left.stack, x) || ShowsAll(edges, s.walk, x) {
      if OnStack(s.stack, x) && x != Top(s).node {
        var f :| 0 <= f < |s.stack| && s.stack[f].node == x;
        assert left.stack[f].node == x;
      }
    }
  }

  lemma {:induction false} ScanSound(edges: seq<CodeEdge>, limit: nat, root: string, s: Search)
    requires Sound(edges, root, s) && s.stack != [] && |s.walk| < limit
    ensures var after := Scan(edges, limit, s);
            && Sound(edges, root, after) && |after.walk| <= limit
            && (NoneForgotten(edges, s) && |after.walk| < limit ==> NoneForgotten(edges, after))
    decreases |Successors(edges, Top(s).node)| - Top(s).next
  {
    var successors := Successors(edges, Top(s).node);
    if Top(s).next >= |successors| {
      assert Shows(edges, s.walk, Top(s).node, Top(s).next);
      if NoneForgotten(edges, s) {
        LeftForgetsNone(edges, s);
      }
    } else {
      var successor := successors[Top(s).next];
      var followed := Followed(s, successor);
      FollowedSound(edges, root, s, successor);
      if NoneForgotten(edges, s) {
        FollowedForgetsNone(edges, s, successor);
      }
      if successor.target in s.visited && |s.walk| > 2 && |followed.walk| < limit {
        ScanSound(edges, limit, root, followed);
      }
    }
  }

  lemma {:induction false} RunSound(edges: seq<CodeEdge>, limit: nat, root: string, s: Search)
    requires Sound(edges, root, s) && |s.walk| <= limit && (|s.walk| < limit ==> NoneForgotten(edges, s))
    ensures var end := Run(edges, limit, s);
            && Sound(edges, root, end) && |end.walk| <= limit
            && (|end.walk| < limit ==> end.stack == [] && NoneForgotten(edges, end))
    decreases Room(limit, s.walk), |s.stack|
  {
    if s.stack != [] && |s.walk| < limit {
      ScanProgress(edges, limit, s);
      ScanSound(edges, limit, root, s);
      RunSound(edges, limit, root, Scan(edges, limit, s));
    }
  }

  /**
   Every walk starts at its root and follows edges out of nodes it has seen. One
   that stops short of the limit has followed every edge out of every node it saw.
   */
  lemma {:induction false} WalkFromIsWalk(edges: seq<CodeEdge>, limit: nat, root: string)
    requires limit > 0
    ensures var walk := WalkFrom(edges, limit, root);
            && IsWalk(edges, root, walk) && |walk| <= limit
            && (|walk| < limit ==> forall x :: Visits(walk, x) ==> ShowsAll(edges, walk, x))
  {
    var s := Start(root);
    assert s.walk[0].node == root && s.stack[0].node == root;
    assert Sound(edges, root, s) && NoneForgotten(edges, s);
    RunSound(edges, limit, root, s);
  }

  /** One edge of a scan. */
  lemma {:induction false} ScanStep(edges: seq<CodeEdge>, limit: nat, s: Search, successor: Successor)
    requires s.stack != [] && Top(s).next < |Successors(edges, Top(s).node)|
    requires successor == Successors(edges, Top(s).node)[Top(s).next]
    ensures var followed := Followed(s, successor);
            Scan(edges, limit, s) ==
            if !(successor.target in s.visited && |s.walk| > 2) then Entered(followed, successor.target)
            else if |followed.walk| >= limit then Left(followed)
            else Scan(edges, limit, followed)
  {
  }

  /** Follows the edges of the node on top of the stack until one leads on, or none is left. */
  method FollowTop(edges: seq<CodeEdge>, limit: nat, walk: seq<WalkStep>, visited: set<string>, stack: seq<Frame>)
    returns (walk': seq<WalkStep>, visited': set<string>, stack': seq<Frame>)
    requires stack != [] && |walk| < limit
    ensures Search(walk', visited', stack') == Scan(edges, limit, Search(walk, visited, stack))
  {
    walk', visited', stack' := walk, visited, stack;
    ghost var after := Scan(edges, limit, Search(walk, visited, stack));
    var successors := Successors(edges, stack[|stack| - 1].node);
    while stack'[|stack'| - 1].next < |successors|
      invariant stack' != [] && stack'[|stack'| - 1].node == stack[|stack| - 1].node && |walk'| < limit
      invariant Scan(edges, limit, Search(walk', visited', stack')) == after
      decreases |successors| - stack'[|stack'| - 1].next
    {
      ghost var now := Search(walk', visited', stack');
      var top := stack'[|stack'| - 1];
      var successor := successors[top.next];
      ScanStep(edges, limit, now, successor);
      stack' := stack'[..|stack'| - 1] + [top.(next := top.next + 1)];
      if successor.target in visited' && |walk'| > 2 {
        walk' := walk' + [OutStep(successor)];
        assert Search(walk', visited', stack') == Followed(now, successor);
        if |walk'| >= limit {
          break;
        }
        continue;
      }
      walk' := walk' + [OutStep(successor)];
      visited' := visited' + {successor.target};
      stack' := stack' + [Frame(successor.target, 0)];
      assert Search(walk', visited', stack') == Entered(Followed(now, successor), successor.target);
      return;
    }
    stack' := stack'[..|stack'| - 1];
  }

  method FollowFrom(edges: seq<CodeEdge>, limit: nat, root: string) returns (walk: seq<WalkStep>)
    ensures walk == WalkFrom(edges, limit, root)
  {
    walk := [RootStep(root)];
    var visited := {root};
    var stack := [Frame(root, 0)];
    while stack != [] && |walk| < limit
      invariant Run(edges, limit, Search(walk, visited, stack)) == Run(edges, limit, Start(root))
      decreases Room(limit, walk), |stack|
    {
      ScanProgress(edges, limit, Search(walk, visited, stack));
      walk, visited, stack := FollowTop(edges, limit, walk, visited, stack);
    }
  }

  // ---------------------------------------------------------------------------
  // All walks

  /** Both ends of every edge, sorted. */
  function EdgeNodes(edges: seq<CodeEdge>): seq<string> {
    if edges == [] then []
    else
      var last := edges[|edges| - 1];
      InsertName(InsertName(EdgeNodes(edges[..|edges| - 1]), last.source), last.target)
  }

  /** The name is an end of some edge. */
  ghost predicate HasEdge(edges: seq<CodeEdge>, name: string) {
    exists e :: e in edges && (name == e.source || name == e.target)
  }

  lemma {:induction false} HasEdgeStep(edges: seq<CodeEdge>, name: string)
    requires edges != []
    ensures var last := edges[|edges| - 1];
            HasEdge(edges, name) <==> HasEdge(edges[..|edges| - 1], name) || name == last.source || name == last.target
  {
    var front, last := edges[..|edges| - 1], edges[|edges| - 1];
    assert edges == front + [last];
    if HasEdge(front, name) {
      var e :| e in front && (name == e.source || name == e.target);
      assert e in edges;
    }
    assert last in edges;
  }

  /** Exactly the ends of edges, each once and in order. */
  lemma {:induction false} EdgeNodesAreEnds(edges: seq<CodeEdge>)
    ensures Increasing(EdgeNodes(edges))
    ensures forall x :: x in EdgeNodes(edges) <==> HasEdge(edges, x)
  {
    if edges != [] {
      var front, last := edges[..|edges| - 1], edges[|edges| - 1];
      var earlier := EdgeNodes(front);
      EdgeNodesAreEnds(front);
      InsertIncreasing(earlier, last.source);
      InsertIncreasing(InsertName(earlier, last.source), last.target);
      forall x ensures x in EdgeNodes(edges) <==> HasEdge(edges, x) {
        InsertMember(earlier, last.source, x);
        InsertMember(InsertName(earlier, last.source), last.target, x);
        HasEdgeStep(edges, x);
      }
    }
  }

  /** Without named roots every node with an edge is one; without edges, every node. */
  function RootsOf(graph: CodeGraph): seq<string> {
    if graph.roots != [] then graph.roots
    else if graph.edges == [] then graph.nodes
    else EdgeNodes(graph.edges)
  }

  function Kept(edges: seq<CodeEdge>, limit: nat, roots: seq<string>): seq<seq<WalkStep>> {
    if roots == [] then []
    else
      var walk := WalkFrom(edges, limit, roots[|roots| - 1]);
      Kept(edges, limit, roots[..|roots| - 1]) + if |walk| >= 3 then [walk] else []
  }

  function Walks(graph: CodeGraph, options: WalkOptions): seq<seq<WalkStep>> {
    var roots := RootsOf(graph);
    var first := if options.maxWalks < |roots| then roots[..options.maxWalks] else roots;
    Kept(graph.edges, options.maxDepth + 1, first)
  }

  method EdgeConnectedRoots(graph: CodeGraph) returns (roots: seq<string>)
    ensures roots == if graph.edges == [] then graph.nodes else EdgeNodes(graph.edges)
    ensures graph.edges != [] ==> Increasing(roots) && forall x :: x in roots <==> HasEdge(graph.edges, x)
  {
    EdgeNodesAreEnds(graph.edges);
    roots := [];
    for i := 0 to |graph.edges|
      invariant roots == EdgeNodes(graph.edges[..i])
      invariant i > 0 ==> roots != []
    {
      assert graph.edges[..i + 1][..i] == graph.edges[..i];
      roots := InsertName(roots, graph.edges[i].source);
      roots := InsertName(roots, graph.edges[i].target);
    }
    assert graph.edges[..|graph.edges|] == graph.edges;
    if roots == [] {
      roots := graph.nodes;
    }
  }

  /** The walks from each root in turn that are long enough. */
  method FollowRoots(edges: seq<CodeEdge>, limit: nat, roots: seq<string>) returns (walks: seq<seq<WalkStep>>)
    ensures walks == Kept(edges, limit, roots)
  {
    walks := [];
    for i := 0 to |roots|
      invariant walks == Kept(edges, limit, roots[..i])
    {
      assert roots[..i + 1][..i] == roots[..i];
      var walk := FollowFrom(edges, limit, roots[i]);
      if |walk| >= 3 {
        walks := walks + [walk];
      }
    }
    assert roots[..|roots|] == roots;
  }

  method WalksFromGraph(graph: CodeGraph, options: WalkOptions) returns (walks: seq<seq<WalkStep>>)
    ensures walks == Walks(graph, options)
  {
    if options.maxWalks == 0 {
      return [];
    }
    var roots := graph.roots;
    if graph.roots == [] {
      roots := EdgeConnectedRoots(graph);
    }
    if options.maxWalks < |roots| {
      roots := roots[..options.maxWalks];
    }
    walks := FollowRoots(graph.edges, options.maxDepth + 1, roots);
  }

  ghost predicate IsRoot(graph: CodeGraph, name: string) {
    if graph.roots != [] then name in graph.roots
    else if graph.edges == [] then name in graph.nodes
    else HasEdge(graph.edges, name)
  }

  /** A kept walk: long enough, within the limit, from one of the roots, and closed unless it is full. */
  ghost predicate IsKept(edges: seq<CodeEdge>, limit: nat, roots: seq<string>, walk: seq<WalkStep>) {
    && 3 <= |walk| <= limit
    && walk[0].node in roots && IsWalk(edges, walk[0].node, walk)
    && (|walk| < limit ==> forall x :: Visits(walk, x) ==> ShowsAll(edges, walk, x))
  }

  lemma {:induction false} KeptWalks(edges: seq<CodeEdge>, limit: nat, roots: seq<string>)
    requires limit > 0 && Increasing(roots)
    ensures var walks := Kept(edges, limit, roots);
            && |walks| <= |roots|
            && (forall i :: 0 <= i < |walks| ==> IsKept(edges, limit, roots, walks[i]))
            && (forall i, j :: 0 <= i < j < |walks| ==> LexLess(walks[i][0].node, walks[j][0].node))
  {
    if roots != [] {
      var n := |roots| - 1;
      var front, root := roots[..n], roots[n];
      assert roots == front + [root];
      KeptWalks(edges, limit, front);
      WalkFromIsWalk(edges, limit, root);
      var walks: seq<seq<WalkStep>> := Kept(edges, limit, front);
      forall i: nat | i < |walks|
        ensures LexLess(walks[i][0].node, root) && IsKept(edges, limit, roots, walks[i])
      {
        assert IsKept(edges, limit, front, walks[i]);
        var j :| 0 <= j < |front| && front[j] == walks[i][0].node;
      }
    }
  }

  /**
   At most the allowed number of walks, from distinct roots in order, each of
   three steps to one more than the depth, each following edges, each closed
   under edges unless it is full.
   */
  lemma {:induction false} WalksAreBounded(graph: CodeGraph, options: WalkOptions)
    requires Increasing(graph.nodes) && Increasing(graph.roots)
    ensures var walks := Walks(graph, options);
            && |walks| <= options.maxWalks
            && (forall i :: 0 <= i < |walks| ==>
                  && IsKept(graph.edges, options.maxDepth + 1, RootsOf(graph), walks[i])
                  && IsRoot(graph, walks[i][0].node))
            && (forall i, j :: 0 <= i < j < |walks| ==> LexLess(walks[i][0].node, walks[j][0].node))
  {
    EdgeNodesAreEnds(graph.edges);
    var roots := RootsOf(graph);
    var first := if options.maxWalks < |roots| then roots[..options.maxWalks] else roots;
    KeptWalks(graph.edges, options.maxDepth + 1, first);
    forall x | x in first ensures x in roots {
      var i :| 0 <= i < |first| && first[i] == x;
      assert roots[i] == x;
    }
  }

  /** Distinct roots, spelled out. */
  lemma {:induction false} RootsAreDistinct(graph: CodeGraph, options: WalkOptions, i: nat, j: nat)
    requires Increasing(graph.nodes) && Increasing(graph.roots)
    requires i < j < |Walks(graph, options)|
    ensures Walks(graph, options)[i] != [] && Walks(graph, options)[j] != []
    ensures Walks(graph, options)[i][0].node != Walks(graph, options)[j][0].node
  {
    WalksAreBounded(graph, options);
    LexIrreflexive(Walks(graph, options)[i][0].node);
  }
}
