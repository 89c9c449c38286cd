/**
 When the tree under construction is a tree: which calls of the tree builder can
 close a cycle, and exactly when they do.
 */
module DomTrees {
  import opened Wrappers
  import opened Lists
  import opened HtmlLexer
  import opened DomForest
  import opened DomClaims
  import opened DomCalls

  // ---------------------------------------------------------------------------
  // Ancestors

  /** Following `k` parent pointers from `n`. */
  function Ancestor(f: Forest, n: DomNode, k: nat): Option<DomNode>
    requires n in f.parents
  {
    if k == 0 then Some(n)
    else
      match f.parents[n]
      case None => None
      case Some(p) => if p in f.parents then Ancestor(f, p, k - 1) else None
  }

  /** Whether `top` is `n` or an ancestor of it. */
  ghost predicate Above(f: Forest, top: DomNode, n: DomNode)
    requires n in f.parents
  {
    exists k: nat :: Ancestor(f, n, k) == Some(top)
  }

  /** No node is its own proper ancestor. */
  ghost predicate Acyclic(f: Forest) {
    forall n, k: nat {:trigger Ancestor(f, n, k)} :: n in f.parents && k > 0 ==> Ancestor(f, n, k) != Some(n)
  }

  /** The parent pointers differ in one node only. */
  ghost predicate Moves(f: Forest, g: Forest, child: DomNode, parent: DomNode) {
    child in f.parents && parent in f.parents && g.parents == f.parents[child := Some(parent)]
  }

  lemma {:induction false} AncestorComposes(f: Forest, n: DomNode, i: nat, m: DomNode, j: nat)
    requires n in f.parents && m in f.parents && Ancestor(f, n, i) == Some(m)
    ensures Ancestor(f, n, i + j) == Ancestor(f, m, j)
  {
    if i > 0 {
      AncestorComposes(f, f.parents[n].value, i - 1, m, j);
    }
  }

  lemma {:induction false} AboveParent(f: Forest, top: DomNode, n: DomNode, p: DomNode)
    requires n in f.parents && p in f.parents && f.parents[n] == Some(p) && Above(f, top, p)
    ensures Above(f, top, n)
  {
    var k: nat :| Ancestor(f, p, k) == Some(top);
    var up := k + 1;
    assert Ancestor(f, n, up) == Some(top);
  }

  lemma {:induction false} SameAwayFrom(f: Forest, g: Forest, child: DomNode, parent: DomNode, n: DomNode, k: nat)
    requires Moves(f, g, child, parent) && n in f.parents && !Above(f, child, n)
    ensures Ancestor(g, n, k) == Ancestor(f, n, k)
  {
    assert Ancestor(f, n, 0) == Some(n);
    if k > 0 && f.parents[n].Some? && f.parents[n].value in f.parents {
      var p := f.parents[n].value;
      if Above(f, child, p) {
        AboveParent(f, child, n, p);
      } else {
        SameAwayFrom(f, g, child, parent, p, k - 1);
      }
    }
  }

  /** Below the moved node, the paths up to it are as before. */
  lemma {:induction false} SameUpTo(f: Forest, g: Forest, child: DomNode, parent: DomNode, n: DomNode, i: nat)
    returns (j: nat)
    requires Moves(f, g, child, parent) && n in f.parents && Ancestor(f, n, i) == Some(child)
    ensures j <= i && Ancestor(g, n, j) == Some(child)
    ensures forall k: nat :: k <= j ==> Ancestor(g, n, k) == Ancestor(f, n, k)
  {
    if n == child {
      j := 0;
    } else {
      var p := f.parents[n].value;
      var rest := SameUpTo(f, g, child, parent, p, i - 1);
      j := rest + 1;
      forall k: nat | k <= j ensures Ancestor(g, n, k) == Ancestor(f, n, k) {
        if k > 0 {
          assert Ancestor(g, p, k - 1) == Ancestor(f, p, k - 1);
        }
      }
    }
  }

  lemma {:induction false} MoveStaysAcyclic(
    f: Forest, g: Forest, child: DomNode, parent: DomNode, n: DomNode, k: nat)
    requires Moves(f, g, child, parent) && Acyclic(f) && !Above(f, child, parent) && n in f.parents && k > 0
    ensures Ancestor(g, n, k) != Some(n)
  {
    if Above(f, child, n) {
      var i: nat :| Ancestor(f, n, i) == Some(child);
      var j := SameUpTo(f, g, child, parent, n, i);
      if k > j {
        var rest := k - j - 1;
        AncestorComposes(g, n, j, child, k - j);
        SameAwayFrom(f, g, child, parent, parent, rest);
        assert Ancestor(g, child, k - j) == Ancestor(f, parent, rest);
        if Ancestor(f, parent, rest) == Some(n) {
          AncestorComposes(f, parent, rest, n, i);
        }
      }
    } else {
      SameAwayFrom(f, g, child, parent, n, k);
    }
  }

  /** Giving a node a new parent keeps the tree free of cycles exactly when that parent is not below the node. */
  lemma {:induction false} MoveAcyclicIff(f: Forest, g: Forest, child: DomNode, parent: DomNode)
    requires Moves(f, g, child, parent) && Acyclic(f)
    ensures Acyclic(g) <==> !Above(f, child, parent)
  {
    if Above(f, child, parent) {
      var i: nat :| Ancestor(f, parent, i) == Some(child);
      var j := SameUpTo(f, g, child, parent, parent, i);
      var around := j + 1;
      assert Ancestor(g, child, around) == Some(child);
    } else {
      forall n, k: nat | n in g.parents && k > 0 ensures Ancestor(g, n, k) != Some(n) {
        MoveStaysAcyclic(f, g, child, parent, n, k);
      }
    }
  }

  /** So both ways of placing a node keep a tree a tree exactly when the node is not put below itself. */
  lemma {:induction false} PlacingAcyclicIff(f: Forest, parent: DomNode, sibling: DomNode, child: DomNode)
    requires WellLinked(f) && Acyclic(f) && parent in f.parents && child in f.parents && sibling in f.parents
    ensures Acyclic(ChildAppended(f, parent, child)) <==> !Above(f, child, parent)
    ensures f.parents[sibling] == Some(parent) ==>
              (Acyclic(ChildInserted(f, sibling, child)) <==> !Above(f, child, parent))
  {
    AppendedEffect(f, parent, child);
    MoveAcyclicIff(f, ChildAppended(f, parent, child), child, parent);
    if f.parents[sibling] == Some(parent) {
      InsertedEffect(f, sibling, child, parent);
      MoveAcyclicIff(f, ChildInserted(f, sibling, child), child, parent);
    }
  }

  // ---------------------------------------------------------------------------
  // Moving all children

  /** What names one node as its parent names another instead. */
  ghost predicate Reroutes(f: Forest, g: Forest, node: DomNode, to: DomNode) {
    && node in f.parents && to in f.parents && g.parents.Keys == f.parents.Keys
    && forall n :: n in f.parents ==>
         g.parents[n] == if f.parents[n] == Some(node) then Some(to) else f.parents[n]
  }

  lemma {:induction false} SameOffNode(f: Forest, g: Forest, node: DomNode, to: DomNode, n: DomNode, k: nat)
    requires Reroutes(f, g, node, to) && n in f.parents && !Above(f, node, n)
    ensures Ancestor(g, n, k) == Ancestor(f, n, k)
  {
    if k > 0 && f.parents[n].Some? && f.parents[n].value in f.parents {
      var p := f.parents[n].value;
      if Above(f, node, p) {
        AboveParent(f, node, n, p);
      } else {
        assert p != node by {
          assert Ancestor(f, p, 0) == Some(p);
        }
        SameOffNode(f, g, node, to, p, k - 1);
      }
    }
  }

  /** A path is as before, or it leads through the new parent after `j` steps. */
  lemma {:induction false} SameOrThrough(f: Forest, g: Forest, node: DomNode, to: DomNode, n: DomNode, k: nat)
    returns (j: Option<nat>)
    requires Reroutes(f, g, node, to) && n in f.parents
    ensures j.None? ==> Ancestor(g, n, k) == Ancestor(f, n, k)
    ensures j.Some? ==> j.value <= k && Ancestor(g, n, j.value) == Some(to)
  {
    j := None;
    if k > 0 && g.parents[n].Some? && g.parents[n].value in f.parents {
      var p := g.parents[n].value;
      if p == to {
        j := Some(1);
        assert Ancestor(g, p, 0) == Some(to);
      } else {
        assert f.parents[n] == Some(p);
        var rest := SameOrThrough(f, g, node, to, p, k - 1);
        if rest.Some? {
          j := Some(rest.value + 1);
        }
      }
    }
  }

  /** From below the old parent, every path now leads through the new one. */
  lemma {:induction false} LeadsThrough(f: Forest, g: Forest, node: DomNode, to: DomNode, n: DomNode, i: nat)
    returns (j: nat)
    requires Reroutes(f, g, node, to) && n in f.parents && n != node && Ancestor(f, n, i) == Some(node)
    ensures j > 0 && Ancestor(g, n, j) == Some(to)
  {
    var p := f.parents[n].value;
    if p == node {
      j := 1;
      assert Ancestor(g, to, 0) == Some(to);
    } else {
      var rest := LeadsThrough(f, g, node, to, p, i - 1);
      j := rest + 1;
    }
  }

  lemma {:induction false} RerouteAcyclicIff(f: Forest, g: Forest, node: DomNode, to: DomNode)
    requires Reroutes(f, g, node, to) && Acyclic(f) && node != to
    ensures Acyclic(g) <==> !Above(f, node, to)
  {
    if Above(f, node, to) {
      var i: nat :| Ancestor(f, to, i) == Some(node);
      var around := LeadsThrough(f, g, node, to, to, i);
      assert Ancestor(g, to, around) == Some(to);
    } else {
      forall n, k: nat | n in g.parents && k > 0 ensures Ancestor(g, n, k) != Some(n) {
        var through := SameOrThrough(f, g, node, to, n, k);
        if through.Some? && Ancestor(g, n, k) == Some(n) {
          var j := through.value;
          AncestorComposes(g, n, j, to, k - j);
          AncestorComposes(g, to, k - j, n, j);
          SameOffNode(f, g, node, to, to, k);
        }
      }
    }
  }

  /** Moving all children keeps a tree a tree exactly when they are not moved strictly below the node they leave. */
  lemma {:induction false} ReparentingAcyclicIff(f: Forest, node: DomNode, newParent: DomNode)
    requires WellLinked(f) && Acyclic(f) && node in f.parents && newParent in f.parents
    ensures Acyclic(Reparented(f, node, newParent)) <==> node == newParent || !Above(f, node, newParent)
  {
    ReparentedEffect(f, node, newParent);
    var g := Reparented(f, node, newParent);
    if node == newParent {
      assert g.parents == f.parents;
      SameParents(f, g);
    } else {
      RerouteAcyclicIff(f, g, node, newParent);
    }
  }

  // ---------------------------------------------------------------------------
  // Steps that never close a cycle

  /** Some nodes are gone and some have lost their parent; nothing else changed. */
  ghost predicate Cuts(f: Forest, g: Forest) {
    forall n :: n in g.parents ==> n in f.parents && (g.parents[n] == None || g.parents[n] == f.parents[n])
  }

  lemma {:induction false} CutAncestor(f: Forest, g: Forest, n: DomNode, k: nat)
    requires Cuts(f, g) && n in g.parents
    ensures Ancestor(g, n, k).Some? ==> Ancestor(g, n, k) == Ancestor(f, n, k)
  {
    if k > 0 && g.parents[n].Some? && g.parents[n].value in g.parents {
      CutAncestor(f, g, g.parents[n].value, k - 1);
    }
  }

  lemma {:induction false} CutStaysAcyclic(f: Forest, g: Forest)
    requires Cuts(f, g) && Acyclic(f)
    ensures Acyclic(g)
  {
    forall n, k: nat | n in g.parents && k > 0 ensures Ancestor(g, n, k) != Some(n) {
      CutAncestor(f, g, n, k);
    }
  }

  lemma {:induction false} SameParents(f: Forest, g: Forest)
    requires g.parents == f.parents && Acyclic(f)
    ensures Acyclic(g)
  {
    CutStaysAcyclic(f, g);
  }

  lemma {:induction false} NoOnesParent(f: Forest, n: DomNode, x: DomNode, k: nat)
    requires n in f.parents && n != x && forall m :: m in f.parents ==> f.parents[m] != Some(x)
    ensures Ancestor(f, n, k) != Some(x)
  {
    if k > 0 && f.parents[n].Some? && f.parents[n].value in f.parents {
      NoOnesParent(f, f.parents[n].value, x, k - 1);
    }
  }

  lemma {:induction false} CreatedAncestor(f: Forest, node: DomNode, n: DomNode, k: nat)
    requires WellLinked(f) && node !in f.parents && n in f.parents
    ensures Ancestor(Created(f, node), n, k) == Ancestor(f, n, k)
  {
    if k > 0 && f.parents[n].Some? {
      CreatedAncestor(f, node, f.parents[n].value, k - 1);
    }
  }

  lemma {:induction false} CreatedAcyclic(f: Forest, node: DomNode)
    requires WellLinked(f) && Acyclic(f) && node !in f.parents
    ensures Acyclic(Created(f, node))
    ensures forall n :: n in f.parents ==> !Above(Created(f, node), node, n)
  {
    var g := Created(f, node);
    forall n, k: nat | n in g.parents && k > 0 ensures Ancestor(g, n, k) != Some(n) {
      if n != node {
        CreatedAncestor(f, node, n, k);
      }
    }
    forall n, k: nat | n in f.parents ensures Ancestor(g, n, k) != Some(node) {
      assert forall m :: m in f.parents && f.parents[m].Some? ==> f.parents[m].value in f.children;
      NoOnesParent(g, n, node, k);
    }
  }

  // ---------------------------------------------------------------------------
  // Calls and runs

  /** Whether a call puts nothing below itself: to be asked before the call. */
  ghost predicate Placed(t: Tree, document: DomNode, call: Call)
    requires Callable(t, document, call) && Shared(t)
  {
    match call
    case AppendNode(parent, child) => !Above(t.forest, child, parent)
    case InsertNode(sibling, child) => PlacedBefore(t.forest, sibling, child)
    case Reparent(parent, newParent) => parent == newParent || !Above(t.forest, parent, newParent)
    case _ => true
  }

  ghost predicate PlacedBefore(f: Forest, sibling: DomNode, child: DomNode)
    requires sibling in f.parents
  {
    match f.parents[sibling]
    case None => true
    case Some(parent) => parent in f.parents ==> !Above(f, child, parent)
  }

  lemma {:induction false} NewChildAcyclic(f: Forest, node: DomNode, parent: DomNode)
    requires WellLinked(f) && Acyclic(f) && node !in f.parents && parent in f.parents
    ensures WellLinked(Created(f, node)) && Acyclic(ChildAppended(Created(f, node), parent, node))
  {
    CreatedLinked(f, node);
    CreatedAcyclic(f, node);
    AppendedEffect(Created(f, node), parent, node);
    MoveAcyclicIff(Created(f, node), ChildAppended(Created(f, node), parent, node), node, parent);
  }

  lemma {:induction false} NewSiblingAcyclic(f: Forest, node: DomNode, sibling: DomNode)
    requires WellLinked(f) && Acyclic(f) && node !in f.parents && sibling in f.parents
    ensures WellLinked(Created(f, node)) && Acyclic(ChildInserted(Created(f, node), sibling, node))
  {
    CreatedLinked(f, node);
    CreatedAcyclic(f, node);
    var g := Created(f, node);
    match f.parents[sibling]
    case None =>
    case Some(parent) =>
      InsertedEffect(g, sibling, node, parent);
      MoveAcyclicIff(g, ChildInserted(g, sibling, node), node, parent);
  }

  lemma {:induction false} TextAcyclic(tokens: seq<Token>, document: DomNode, t: Tree, call: Call)
    requires Sound(tokens, t) && Callable(t, document, call) && Acyclic(t.forest)
    requires call.AppendText? || call.InsertText?
    ensures Acyclic(Perform(tokens, document, t, call).forest)
  {
    match call
    case AppendText(parent, _, node) =>
      if LastText(t, parent).None? {
        NewChildAcyclic(t.forest, node, parent);
      }
    case InsertText(sibling, _, node) =>
      if TextBefore(t, sibling).None? {
        NewSiblingAcyclic(t.forest, node, sibling);
      }
    case _ =>
  }

  lemma {:induction false} ElementAcyclic(tokens: seq<Token>, document: DomNode, t: Tree, call: Call)
    requires Sound(tokens, t) && Callable(t, document, call) && Acyclic(t.forest) && call.CreateElement?
    ensures Acyclic(Perform(tokens, document, t, call).forest)
  {
    var f := t.forest;
    if call.template.Some? {
      CreatedLinked(f, call.template.value);
      CreatedAcyclic(f, call.template.value);
      f := Created(f, call.template.value);
    }
    CreatedAcyclic(f, call.node);
  }

  /** A call keeps the tree free of cycles exactly when it puts nothing below itself. */
  lemma {:induction false} CallAcyclicIff(tokens: seq<Token>, document: DomNode, t: Tree, call: Call)
    requires Sound(tokens, t) && Callable(t, document, call) && Acyclic(t.forest)
    ensures Acyclic(Perform(tokens, document, t, call).forest) <==> Placed(t, document, call)
  {
    var f := t.forest;
    match call
    case CreateElement(_, _, _, _) => ElementAcyclic(tokens, document, t, call);
    case CreateComment(node, _) => CreatedAcyclic(f, node);
    case CreateInstruction(node, _, _) => CreatedAcyclic(f, node);
    case AppendDoctype(node, _, _, _) => NewChildAcyclic(f, node, document);
    case AppendText(_, _, _) => TextAcyclic(tokens, document, t, call);
    case InsertText(_, _, _) => TextAcyclic(tokens, document, t, call);
    case AppendNode(parent, child) => PlacingAcyclicIff(f, parent, parent, child);
    case InsertNode(sibling, child) =>
      if f.parents[sibling].Some? {
        PlacingAcyclicIff(f, f.parents[sibling].value, sibling, child);
      }
    case Reparent(parent, newParent) => ReparentingAcyclicIff(f, parent, newParent);
    case Remove(child) =>
      DetachedEffect(f, child);
      CutStaysAcyclic(f, Detached(f, child));
    case Release(node) => CutStaysAcyclic(f, Released(f, node));
    case AddAttributes(_, _) =>
  }

  /** Every call of a run puts nothing below itself where it stands. */
  ghost predicate AllPlaced(tokens: seq<Token>, document: DomNode, t: Tree, calls: seq<Call>, end: Tree)
    requires Leads(tokens, document, t, calls, end)
    decreases |calls|
  {
    calls != [] ==>
      && Placed(t, document, calls[0])
      && AllPlaced(tokens, document, Perform(tokens, document, t, calls[0]), calls[1..], end)
  }

  /** The tree before and after every call of a run is free of cycles. */
  ghost predicate AlwaysAcyclic(tokens: seq<Token>, document: DomNode, t: Tree, calls: seq<Call>, end: Tree)
    requires Leads(tokens, document, t, calls, end)
    decreases |calls|
  {
    && Acyclic(t.forest)
    && (calls != [] ==> AlwaysAcyclic(tokens, document, Perform(tokens, document, t, calls[0]), calls[1..], end))
  }

  /** Over every run from a tree: it is a tree all along exactly when no call puts a node below itself. */
  lemma {:induction false} RunAcyclicIff(
    tokens: seq<Token>, document: DomNode, t: Tree, calls: seq<Call>, end: Tree)
    requires Leads(tokens, document, t, calls, end) && Acyclic(t.forest)
    ensures AlwaysAcyclic(tokens, document, t, calls, end) <==> AllPlaced(tokens, document, t, calls, end)
    ensures AllPlaced(tokens, document, t, calls, end) ==> Acyclic(end.forest)
    decreases |calls|
  {
    if calls == [] {
      assert end == t;
    } else {
      var next := Perform(tokens, document, t, calls[0]);
      CallAcyclicIff(tokens, document, t, calls[0]);
      if Acyclic(next.forest) {
        RunAcyclicIff(tokens, document, next, calls[1..], end);
      }
    }
  }

  /** A new sink is free of cycles, so what holds for runs holds from the start. */
  lemma {:induction false} StartsAcyclic(tokens: seq<Token>, document: DomNode, suppressed: nat)
    ensures Acyclic(Start(tokens, document, suppressed).forest)
  {
  }

  // ---------------------------------------------------------------------------
  // Each way to close a cycle

  /** A forest in which numbers fall from child to parent is free of cycles. */
  lemma {:induction false} RankedAncestor(f: Forest, rank: map<DomNode, nat>, n: DomNode, k: nat)
    requires n in f.parents && f.parents.Keys <= rank.Keys
    requires forall m :: m in f.parents && f.parents[m].Some? && f.parents[m].value in f.parents ==>
               rank[f.parents[m].value] < rank[m]
    ensures Ancestor(f, n, k).Some? ==>
              Ancestor(f, n, k).value in f.parents && rank[Ancestor(f, n, k).value] + k <= rank[n]
  {
    if k > 0 && f.parents[n].Some? && f.parents[n].value in f.parents {
      RankedAncestor(f, rank, f.parents[n].value, k - 1);
    }
  }

  lemma {:induction false} RankedAcyclic(f: Forest, rank: map<DomNode, nat>)
    requires f.parents.Keys <= rank.Keys
    requires forall m :: m in f.parents && f.parents[m].Some? && f.parents[m].value in f.parents ==>
               rank[f.parents[m].value] < rank[m]
    ensures Acyclic(f)
  {
    forall n, k: nat | n in f.parents && k > 0 ensures Ancestor(f, n, k) != Some(n) {
      RankedAncestor(f, rank, n, k);
    }
  }

  /** Beside the document: a node, its child, and the child's child. */
  function Chain(document: DomNode, a: DomNode, b: DomNode, c: DomNode): Forest {
    Forest(map[document := None, a := None, b := Some(a), c := Some(b)],
           map[document := [], a := [b], b := [c], c := []])
  }

  /** Four nodes without links. */
  function Separate(document: DomNode, a: DomNode, b: DomNode, c: DomNode): Forest {
    Forest(map[document := None, a := None, b := None, c := None],
           map[document := [], a := [], b := [], c := []])
  }

  predicate Different(document: DomNode, a: DomNode, b: DomNode, c: DomNode) {
    Distinct([document, a, b, c])
  }

  lemma {:induction false} DifferentNodes(document: DomNode, a: DomNode, b: DomNode, c: DomNode)
    requires Different(document, a, b, c)
    ensures document != a && document != b && document != c && a != b && a != c && b != c
  {
    var all := [document, a, b, c];
    assert all[0] != all[1] && all[0] != all[2] && all[0] != all[3];
    assert all[1] != all[2] && all[1] != all[3] && all[2] != all[3];
  }

  lemma {:induction false} ChainIsTree(document: DomNode, a: DomNode, b: DomNode, c: DomNode)
    requires Different(document, a, b, c)
    ensures WellLinked(Chain(document, a, b, c)) && Acyclic(Chain(document, a, b, c))
    ensures Above(Chain(document, a, b, c), a, b) && Above(Chain(document, a, b, c), a, c)
  {
    var f := Chain(document, a, b, c);
    DifferentNodes(document, a, b, c);
    RankedAcyclic(f, map[document := 0, a := 0, b := 1, c := 2]);
    assert Ancestor(f, b, 1) == Ancestor(f, a, 0) == Some(a);
    assert Ancestor(f, c, 2) == Ancestor(f, b, 1) == Some(a);
  }

  function NewElement(node: DomNode): Call {
    CreateElement(node, "div", [], None)
  }

  /** Calls that make the three nodes and put each below the one before. */
  function ChainCalls(a: DomNode, b: DomNode, c: DomNode): seq<Call> {
    [NewElement(a), NewElement(b), NewElement(c), AppendNode(a, b), AppendNode(b, c)]
  }

  /** A sound tree with given links. */
  ghost predicate At(tokens: seq<Token>, document: DomNode, t: Tree, f: Forest) {
    Sound(tokens, t) && t.forest == f && document in t.contents
  }

  /** The tree with one more element. */
  lemma {:induction false} ElementStep(tokens: seq<Token>, document: DomNode, t: Tree, f: Forest, node: DomNode)
    returns (next: Tree)
    requires At(tokens, document, t, f) && node !in f.parents
    ensures At(tokens, document, next, Created(f, node))
    ensures next == Perform(tokens, document, t, NewElement(node))
  {
    next := Perform(tokens, document, t, NewElement(node));
    CallsKeepSound(tokens, document, t, NewElement(node));
  }

  function Joined(f: Forest, parent: DomNode, child: DomNode): Forest
    requires parent in f.children
  {
    Forest(f.parents[child := Some(parent)], f.children[parent := f.children[parent] + [child]])
  }

  /** The tree with a node put below another. */
  lemma {:induction false} JoinStep(
    tokens: seq<Token>, document: DomNode, t: Tree, f: Forest, parent: DomNode, child: DomNode)
    returns (next: Tree)
    requires At(tokens, document, t, f)
    requires parent in f.children && parent in f.parents && child in f.parents && f.parents[child] == None
    ensures At(tokens, document, next, Joined(f, parent, child))
    ensures next == Perform(tokens, document, t, AppendNode(parent, child))
  {
    next := Perform(tokens, document, t, AppendNode(parent, child));
    CallsKeepSound(tokens, document, t, AppendNode(parent, child));
  }

  lemma {:induction false} ElementFirst(
    tokens: seq<Token>, document: DomNode, t: Tree, node: DomNode, next: Tree, calls: seq<Call>, end: Tree)
    requires Sound(tokens, t) && document in t.contents && node !in t.contents
    requires next == Perform(tokens, document, t, NewElement(node)) && Leads(tokens, document, next, calls, end)
    ensures Leads(tokens, document, t, [NewElement(node)] + calls, end)
  {
    assert ([NewElement(node)] + calls)[1..] == calls;
  }

  lemma {:induction false} JoinFirst(
    tokens: seq<Token>, document: DomNode, t: Tree, parent: DomNode, child: DomNode, next: Tree, calls: seq<Call>,
    end: Tree)
    requires Sound(tokens, t) && document in t.contents && parent in t.contents && child in t.contents
    requires next == Perform(tokens, document, t, AppendNode(parent, child))
    requires Leads(tokens, document, next, calls, end)
    ensures Leads(tokens, document, t, [AppendNode(parent, child)] + calls, end)
  {
    assert ([AppendNode(parent, child)] + calls)[1..] == calls;
  }

  lemma {:induction false} JoinedIsChain(document: DomNode, a: DomNode, b: DomNode, c: DomNode)
    requires Different(document, a, b, c)
    ensures var f := Separate(document, a, b, c);
            Joined(f, a, b).parents[c] == None && Joined(Joined(f, a, b), b, c) == Chain(document, a, b, c)
  {
    DifferentNodes(document, a, b, c);
    assert [] + [b] == [b] && [] + [c] == [c];
    var f, g := Separate(document, a, b, c), Chain(document, a, b, c);
    var joined := Joined(Joined(f, a, b), b, c);
    assert joined.parents == g.parents;
    assert joined.children == g.children;
  }

  /** The calls that come after the elements. */
  function LinkCalls(a: DomNode, b: DomNode, c: DomNode): seq<Call> {
    [AppendNode(a, b)] + ([AppendNode(b, c)] + [])
  }

  /** Three separate nodes are put below one another. */
  lemma {:induction false} LinksReached(
    tokens: seq<Token>, document: DomNode, t: Tree, a: DomNode, b: DomNode, c: DomNode)
    returns (end: Tree)
    requires Different(document, a, b, c) && At(tokens, document, t, Separate(document, a, b, c))
    ensures At(tokens, document, end, Chain(document, a, b, c))
    ensures Leads(tokens, document, t, LinkCalls(a, b, c), end)
  {
    var f := Separate(document, a, b, c);
    JoinedIsChain(document, a, b, c);
    var next := JoinStep(tokens, document, t, f, a, b);
    end := JoinStep(tokens, document, next, Joined(f, a, b), b, c);
    JoinFirst(tokens, document, next, b, c, end, [], end);
    JoinFirst(tokens, document, t, a, b, next, [AppendNode(b, c)] + [], end);
  }

  lemma {:induction false} CreatedIsSeparate(document: DomNode, a: DomNode, b: DomNode, c: DomNode)
    requires Different(document, a, b, c)
    ensures var f := Forest(map[document := None], map[document := []]);
            && a !in f.parents && b !in Created(f, a).parents && c !in Created(Created(f, a), b).parents
            && Created(Created(Created(f, a), b), c) == Separate(document, a, b, c)
  {
    DifferentNodes(document, a, b, c);
  }

  /** One more element, then the links. */
  lemma {:induction false} LastElementReached(
    tokens: seq<Token>, document: DomNode, t: Tree, f: Forest, a: DomNode, b: DomNode, c: DomNode)
    returns (end: Tree)
    requires Different(document, a, b, c) && At(tokens, document, t, f)
    requires c !in f.parents && Created(f, c) == Separate(document, a, b, c)
    ensures At(tokens, document, end, Chain(document, a, b, c))
    ensures Leads(tokens, document, t, [NewElement(c)] + LinkCalls(a, b, c), end)
  {
    var next := ElementStep(tokens, document, t, f, c);
    end := LinksReached(tokens, document, next, a, b, c);
    ElementFirst(tokens, document, t, c, next, LinkCalls(a, b, c), end);
  }

  lemma {:induction false} TwoElementsReached(
    tokens: seq<Token>, document: DomNode, t: Tree, f: Forest, a: DomNode, b: DomNode, c: DomNode)
    returns (end: Tree)
    requires Different(document, a, b, c) && At(tokens, document, t, f)
    requires b !in f.parents && c !in Created(f, b).parents
    requires Created(Created(f, b), c) == Separate(document, a, b, c)
    ensures At(tokens, document, end, Chain(document, a, b, c))
    ensures Leads(tokens, document, t, [NewElement(b)] + ([NewElement(c)] + LinkCalls(a, b, c)), end)
  {
    var next := ElementStep(tokens, document, t, f, b);
    end := LastElementReached(tokens, document, next, Created(f, b), a, b, c);
    ElementFirst(tokens, document, t, b, next, [NewElement(c)] + LinkCalls(a, b, c), end);
  }

  lemma {:induction false} ThreeElementsReached(
    tokens: seq<Token>, document: DomNode, t: Tree, f: Forest, a: DomNode, b: DomNode, c: DomNode)
    returns (end: Tree)
    requires Different(document, a, b, c) && At(tokens, document, t, f)
    requires a !in f.parents && b !in Created(f, a).parents && c !in Created(Created(f, a), b).parents
    requires Created(Created(Created(f, a), b), c) == Separate(document, a, b, c)
    ensures At(tokens, document, end, Chain(document, a, b, c))
    ensures Leads(tokens, document, t, ChainCalls(a, b, c), end)
  {
    var next := ElementStep(tokens, document, t, f, a);
    end := TwoElementsReached(tokens, document, next, Created(f, a), a, b, c);
    ElementFirst(tokens, document, t, a, next, [NewElement(b)] + ([NewElement(c)] + LinkCalls(a, b, c)), end);
    ChainCallsInOrder(a, b, c);
  }

  lemma {:induction false} ChainCallsInOrder(a: DomNode, b: DomNode, c: DomNode)
    ensures [NewElement(a)] + ([NewElement(b)] + ([NewElement(c)] + LinkCalls(a, b, c))) == ChainCalls(a, b, c)
  {
  }

  /** A new sink comes to the chain by calls. */
  lemma {:induction false} ChainReached(
    tokens: seq<Token>, suppressed: nat, document: DomNode, a: DomNode, b: DomNode, c: DomNode)
    returns (end: Tree)
    requires Different(document, a, b, c)
    ensures At(tokens, document, end, Chain(document, a, b, c))
    ensures Leads(tokens, document, Start(tokens, document, suppressed), ChainCalls(a, b, c), end)
  {
    var start := Start(tokens, document, suppressed);
    StartsSound(tokens, document, suppressed);
    CreatedIsSeparate(document, a, b, c);
    end := ThreeElementsReached(tokens, document, start, start.forest, a, b, c);
  }

  /** A run of calls on a new sink that comes to a tree, and a call after which it is one no more. */
  ghost predicate Closes(
    tokens: seq<Token>, document: DomNode, suppressed: nat, calls: seq<Call>, t: Tree, call: Call)
  {
    && Leads(tokens, document, Start(tokens, document, suppressed), calls, t)
    && Sound(tokens, t) && Acyclic(t.forest) && Callable(t, document, call)
    && !Acyclic(Perform(tokens, document, t, call).forest)
  }

  /** Each of the three ways to relink can close a cycle: a node is put below its own child. */
  lemma {:induction false} AppendCloses(
    tokens: seq<Token>, suppressed: nat, document: DomNode, a: DomNode, b: DomNode, c: DomNode)
    requires Different(document, a, b, c)
    ensures exists t :: Closes(tokens, document, suppressed, ChainCalls(a, b, c), t, AppendNode(b, a))
  {
    var t := ChainReached(tokens, suppressed, document, a, b, c);
    ChainIsTree(document, a, b, c);
    CallAcyclicIff(tokens, document, t, AppendNode(b, a));
    assert Closes(tokens, document, suppressed, ChainCalls(a, b, c), t, AppendNode(b, a));
  }

  lemma {:induction false} InsertCloses(
    tokens: seq<Token>, suppressed: nat, document: DomNode, a: DomNode, b: DomNode, c: DomNode)
    requires Different(document, a, b, c)
    ensures exists t :: Closes(tokens, document, suppressed, ChainCalls(a, b, c), t, InsertNode(c, a))
  {
    var t := ChainReached(tokens, suppressed, document, a, b, c);
    ChainIsTree(document, a, b, c);
    CallAcyclicIff(tokens, document, t, InsertNode(c, a));
    assert Closes(tokens, document, suppressed, ChainCalls(a, b, c), t, InsertNode(c, a));
  }

  lemma {:induction false} ReparentedChain(document: DomNode, a: DomNode, b: DomNode, c: DomNode)
    requires Different(document, a, b, c)
    ensures Reparented(Chain(document, a, b, c), a, c).parents
            == map[document := None, a := None, b := Some(c), c := Some(b)]
  {
    var f := Chain(document, a, b, c);
    DifferentNodes(document, a, b, c);
    ChainIsTree(document, a, b, c);
    ReparentedEffect(f, a, c);
    assert f.parents.Keys == {document, a, b, c};
  }

  /** Moving a node's children below one of them: that one and its child become each other's parent. */
  lemma {:induction false} ReparentCloses(
    tokens: seq<Token>, suppressed: nat, document: DomNode, a: DomNode, b: DomNode, c: DomNode)
    requires Different(document, a, b, c)
    ensures exists t :: Closes(tokens, document, suppressed, ChainCalls(a, b, c), t, Reparent(a, c))
    ensures Reparented(Chain(document, a, b, c), a, c).parents
            == map[document := None, a := None, b := Some(c), c := Some(b)]
  {
    var t := ChainReached(tokens, suppressed, document, a, b, c);
    ChainIsTree(document, a, b, c);
    ReparentedChain(document, a, b, c);
    CallAcyclicIff(tokens, document, t, Reparent(a, c));
    assert Closes(tokens, document, suppressed, ChainCalls(a, b, c), t, Reparent(a, c));
  }
}
