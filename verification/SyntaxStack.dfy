/** The walk of the code adapters: an explicit stack, watched node by node by a budget. */
module SyntaxStack {
  import opened Wrappers
  import opened SyntaxWalk
  import opened SyntaxParsers

  /** Numbered by the position among the kept nodes. */
  datatype CodeId = CodeId(index: nat, start: nat, end: nat)

  datatype CodeNode = CodeNode(id: CodeId, header: Header, parent: Option<CodeId>)

  datatype CodeParseError = CodeParseError(kind: string, missing: bool, start: nat, end: nat)

  datatype Frame = Frame(tree: Tree, parent: Option<CodeId>, depth: nat)

  function CodeIdOf(ref: Ref): CodeId {
    CodeId(ref.index, ref.header.start, ref.header.end)
  }

  function AsCode(entries: seq<Entry>): (nodes: seq<CodeNode>)
    ensures |nodes| == |entries|
  {
    seq(|entries|, i requires 0 <= i < |entries| =>
      CodeNode(CodeIdOf(entries[i].ref), entries[i].ref.header, MapParent(entries[i].parent, CodeIdOf)))
  }

  lemma {:induction false} AsCodeJoins(a: seq<Entry>, b: seq<Entry>)
    ensures AsCode(a + b) == AsCode(a) + AsCode(b)
  {
  }

  /** Error and missing nodes are always kept, and each is reported. */
  function ErrorsOf(nodes: seq<CodeNode>): seq<CodeParseError> {
    if nodes == [] then []
    else
      var header := nodes[|nodes| - 1].header;
      ErrorsOf(nodes[..|nodes| - 1])
      + if header.error || header.missing
        then [CodeParseError(header.kind, header.missing, header.start, header.end)]
        else []
  }

  function AdapterFilter(includeAnonymousNodes: bool): Filter {
    Filter(true, includeAnonymousNodes)
  }

  /** Stops a walk that visits too many nodes or goes too deep. */
  class NodeBudget {
    const nodeLimit: nat
    const depthLimit: nat
    var consumed: nat

    constructor (nodeLimit: nat, depthLimit: nat)
      ensures this.nodeLimit == nodeLimit && this.depthLimit == depthLimit && consumed == 0
    {
      this.nodeLimit, this.depthLimit, consumed := nodeLimit, depthLimit, 0;
    }

    method Observe(depth: nat) returns (ok: bool)
      modifies this
      ensures consumed == old(consumed) + 1
      ensures ok <==> consumed <= nodeLimit && depth <= depthLimit
    {
      consumed := consumed + 1;
      ok := consumed <= nodeLimit && depth <= depthLimit;
    }
  }

  // ---------------------------------------------------------------------------
  // What is still on the stack

  /** A frame, with the reference behind its parent's identifier. */
  datatype Pending = Pending(tree: Tree, parent: Option<Ref>, depth: nat)

  ghost function FrameOf(p: Pending): Frame {
    Frame(p.tree, MapParent(p.parent, CodeIdOf), p.depth)
  }

  ghost predicate Stacks(stack: seq<Frame>, pending: seq<Pending>) {
    |stack| == |pending| && forall k :: 0 <= k < |stack| ==> stack[k] == FrameOf(pending[k])
  }

  /** The entries still to come, from the top of the stack down. */
  ghost function PendingEntries(filter: Filter, pending: seq<Pending>, index: nat, ordinal: nat): seq<Entry> {
    if pending == [] then []
    else
      var top := pending[|pending| - 1];
      var first := Entries(filter, top.tree, top.parent, index, ordinal);
      first + PendingEntries(filter, pending[..|pending| - 1], index + |first|, ordinal + Size(top.tree))
  }

  ghost function PendingSize(pending: seq<Pending>): nat {
    if pending == [] then 0 else Size(pending[|pending| - 1].tree) + PendingSize(pending[..|pending| - 1])
  }

  ghost predicate PendingWithin(pending: seq<Pending>, limit: nat) {
    pending == []
    || (Within(pending[|pending| - 1].tree, pending[|pending| - 1].depth, limit)
        && PendingWithin(pending[..|pending| - 1], limit))
  }

  /** Children pushed last to first, so that the first is on top. */
  ghost function Pushed(children: seq<Tree>, parent: Option<Ref>, depth: nat): seq<Pending> {
    if children == [] then [] else Pushed(children[1..], parent, depth) + [Pending(children[0], parent, depth)]
  }

  lemma {:induction false} PushedFirst(rest: seq<Pending>, children: seq<Tree>, parent: Option<Ref>, depth: nat)
    requires children != []
    ensures var pending := rest + Pushed(children, parent, depth);
            && pending != [] && pending[|pending| - 1] == Pending(children[0], parent, depth)
            && pending[..|pending| - 1] == rest + Pushed(children[1..], parent, depth)
  {
    var below := rest + Pushed(children[1..], parent, depth);
    assert rest + Pushed(children, parent, depth) == below + [Pending(children[0], parent, depth)];
  }

  /** Pushing the children of a node leaves their entries next, then what was pending. */
  lemma {:induction false} PushedEntries(
    filter: Filter, rest: seq<Pending>, children: seq<Tree>, parent: Option<Ref>, depth: nat, index: nat, ordinal: nat)
    ensures var below := ForestEntries(filter, children, parent, index, ordinal);
            var after, next := index + |below|, ordinal + ForestSize(children);
            PendingEntries(filter, rest + Pushed(children, parent, depth), index, ordinal) ==
            below + PendingEntries(filter, rest, after, next)
  {
    if children == [] {
      assert rest + [] == rest;
    } else {
      PushedFirst(rest, children, parent, depth);
      var first := Entries(filter, children[0], parent, index, ordinal);
      var after, next := index + |first|, ordinal + Size(children[0]);
      PushedEntries(filter, rest, children[1..], parent, depth, after, next);
      var later := ForestEntries(filter, children[1..], parent, after, next);
      var end, last := after + |later|, next + ForestSize(children[1..]);
      assert first + (later + PendingEntries(filter, rest, end, last)) ==
             first + later + PendingEntries(filter, rest, end, last);
    }
  }

  lemma {:induction false} PushedMeasures(
    rest: seq<Pending>, children: seq<Tree>, parent: Option<Ref>, depth: nat, limit: nat)
    ensures PendingSize(rest + Pushed(children, parent, depth)) == ForestSize(children) + PendingSize(rest)
    ensures PendingWithin(rest + Pushed(children, parent, depth), limit) <==>
            ForestWithin(children, depth, limit) && PendingWithin(rest, limit)
  {
    if children == [] {
      assert rest + [] == rest;
    } else {
      PushedFirst(rest, children, parent, depth);
      PushedMeasures(rest, children[1..], parent, depth, limit);
    }
  }

  // ---------------------------------------------------------------------------
  // The walk

  method PushChildren(stack: seq<Frame>, children: seq<Tree>, parentId: Option<CodeId>, depth: nat,
                      ghost rest: seq<Pending>, ghost parent: Option<Ref>)
    returns (pushed: seq<Frame>)
    requires Stacks(stack, rest) && parentId == MapParent(parent, CodeIdOf)
    ensures Stacks(pushed, rest + Pushed(children, parent, depth))
  {
    pushed := stack;
    var i := |children|;
    while i > 0
      invariant 0 <= i <= |children| && Stacks(pushed, rest + Pushed(children[i..], parent, depth))
    {
      i := i - 1;
      assert children[i..][1..] == children[i + 1..] && children[i..][0] == children[i];
      PushedFirst(rest, children[i..], parent, depth);
      pushed := pushed + [Frame(children[i], parentId, depth)];
    }
    assert children[0..] == children;
  }

  /** One visited node: its entry, if it is kept, and the parent of its children. */
  ghost function Own(filter: Filter, p: Pending, index: nat, ordinal: nat): seq<Entry> {
    if Keeps(filter, p.tree.header) then [Entry(Ref(index, ordinal, p.tree.header), p.parent)] else []
  }

  ghost function ChildParent(filter: Filter, p: Pending, index: nat, ordinal: nat): Option<Ref> {
    if Keeps(filter, p.tree.header) then Some(Ref(index, ordinal, p.tree.header)) else p.parent
  }

  lemma {:induction false} VisitStep(filter: Filter, pending: seq<Pending>, index: nat, ordinal: nat, limit: nat)
    requires pending != []
    ensures var top, rest := pending[|pending| - 1], pending[..|pending| - 1];
            var own := Own(filter, top, index, ordinal);
            var after, next, deeper := index + |own|, ordinal + 1, top.depth + 1;
            var pushed := rest + Pushed(top.tree.children, ChildParent(filter, top, index, ordinal), deeper);
            && PendingEntries(filter, pending, index, ordinal) == own + PendingEntries(filter, pushed, after, next)
            && PendingSize(pending) == 1 + PendingSize(pushed)
            && (PendingWithin(pending, limit) <==> top.depth <= limit && PendingWithin(pushed, limit))
  {
    var top, rest := pending[|pending| - 1], pending[..|pending| - 1];
    var own, parent := Own(filter, top, index, ordinal), ChildParent(filter, top, index, ordinal);
    var after, next, deeper := index + |own|, ordinal + 1, top.depth + 1;
    PushedEntries(filter, rest, top.tree.children, parent, deeper, after, next);
    PushedMeasures(rest, top.tree.children, parent, deeper, limit);
    var below := ForestEntries(filter, top.tree.children, parent, after, next);
    assert Entries(filter, top.tree, top.parent, index, ordinal) == own + below;
    var last, end := after + |below|, next + ForestSize(top.tree.children);
    assert own + below + PendingEntries(filter, rest, last, end) ==
           own + (below + PendingEntries(filter, rest, last, end));
  }

  /** Appends a node if it is kept, and reports it if it is an error. */
  method Retain(nodes: seq<CodeNode>, errors: seq<CodeParseError>, frame: Frame, includeAnonymousNodes: bool,
                ghost p: Pending, ghost ordinal: nat)
    returns (nodes': seq<CodeNode>, errors': seq<CodeParseError>, childParent: Option<CodeId>)
    requires frame == FrameOf(p) && errors == ErrorsOf(nodes)
    ensures var filter := AdapterFilter(includeAnonymousNodes);
            && nodes' == nodes + AsCode(Own(filter, p, |nodes|, ordinal)) && errors' == ErrorsOf(nodes')
            && childParent == MapParent(ChildParent(filter, p, |nodes|, ordinal), CodeIdOf)
  {
    var header := frame.tree.header;
    nodes', errors', childParent := nodes, errors, frame.parent;
    if includeAnonymousNodes || header.named || header.error || header.missing {
      var id := CodeId(|nodes|, header.start, header.end);
      if header.error || header.missing {
        errors' := errors + [CodeParseError(header.kind, header.missing, header.start, header.end)];
      }
      nodes' := nodes + [CodeNode(id, header, frame.parent)];
      childParent := Some(id);
      assert nodes'[..|nodes|] == nodes;
    }
  }

  datatype ParsedCode = ParsedCode(syntaxNodes: seq<CodeNode>, parseErrors: seq<CodeParseError>)

  /** What a walk has done and has still to do add up to the whole tree. */
  ghost predicate Progress(
    filter: Filter, root: Tree, limit: nat, nodes: seq<CodeNode>, pending: seq<Pending>, consumed: nat)
  {
    && nodes + AsCode(PendingEntries(filter, pending, |nodes|, consumed)) ==
       AsCode(Entries(filter, root, None, 0, 0))
    && consumed + PendingSize(pending) == Size(root)
    && (Within(root, 1, limit) <==> PendingWithin(pending, limit))
  }

  lemma {:induction false} ProgressStarts(filter: Filter, root: Tree, limit: nat)
    ensures Progress(filter, root, limit, [], [Pending(root, None, 1)], 0)
  {
    var pending := [Pending(root, None, 1)];
    assert pending[..0] == [];
    var first := Entries(filter, root, None, 0, 0);
    assert first + PendingEntries(filter, pending[..0], |first|, Size(root)) == first;
    assert [] + AsCode(first) == AsCode(first);
  }

  lemma {:induction false} ProgressStep(
    filter: Filter, root: Tree, limit: nat, nodes: seq<CodeNode>, pending: seq<Pending>, consumed: nat,
    nodes': seq<CodeNode>, pushed: seq<Pending>, next: nat, deeper: nat)
    requires Progress(filter, root, limit, nodes, pending, consumed) && pending != []
    requires pending[|pending| - 1].depth <= limit && next == consumed + 1
    requires nodes' == nodes + AsCode(Own(filter, pending[|pending| - 1], |nodes|, consumed))
    requires deeper == pending[|pending| - 1].depth + 1
    requires pushed == pending[..|pending| - 1]
                       + Pushed(pending[|pending| - 1].tree.children,
                                ChildParent(filter, pending[|pending| - 1], |nodes|, consumed), deeper)
    ensures Progress(filter, root, limit, nodes', pushed, next)
  {
    VisitStep(filter, pending, |nodes|, consumed, limit);
    var own := Own(filter, pending[|pending| - 1], |nodes|, consumed);
    var after := |nodes'|;
    var later := PendingEntries(filter, pushed, after, next);
    AsCodeJoins(own, later);
    assert nodes + AsCode(own) + AsCode(later) == nodes + (AsCode(own) + AsCode(later));
  }

  /**
   The walk ends. It succeeds exactly when the tree has no more nodes than the
   budget allows and is no deeper, having counted each node once; and then it
   gives the nodes the recursive walk gives.
   */
  method ParseWithMetrics(root: Tree, includeAnonymousNodes: bool, budget: NodeBudget)
    returns (parsed: Option<ParsedCode>)
    requires budget.consumed == 0
    modifies budget
    ensures parsed.Some? <==> Size(root) <= budget.nodeLimit && Within(root, 1, budget.depthLimit)
    ensures parsed.Some? ==> budget.consumed == Size(root)
    ensures parsed.Some? ==>
              var nodes := AsCode(Entries(AdapterFilter(includeAnonymousNodes), root, None, 0, 0));
              parsed.value == ParsedCode(nodes, ErrorsOf(nodes))
  {
    ghost var filter := AdapterFilter(includeAnonymousNodes);
    var nodes: seq<CodeNode> := [];
    var errors: seq<CodeParseError> := [];
    var stack := [Frame(root, None, 1)];
    ghost var pending := [Pending(root, None, 1)];
    ProgressStarts(filter, root, budget.depthLimit);
    while stack != []
      invariant Stacks(stack, pending) && errors == ErrorsOf(nodes) && budget.consumed <= budget.nodeLimit
      invariant Progress(filter, root, budget.depthLimit, nodes, pending, budget.consumed)
      decreases PendingSize(pending)
    {
      ghost var before, was, ordinal, top := nodes, pending, budget.consumed, pending[|pending| - 1];
      var frame := stack[|stack| - 1];
      stack := stack[..|stack| - 1];
      pending := pending[..|pending| - 1];
      var ok := budget.Observe(frame.depth);
      if !ok {
        return None;
      }
      var childParent: Option<CodeId>;
      nodes, errors, childParent := Retain(nodes, errors, frame, includeAnonymousNodes, top, ordinal);
      ghost var parent := ChildParent(filter, top, |before|, ordinal);
      var deeper := frame.depth + 1;
      stack := PushChildren(stack, frame.tree.children, childParent, deeper, pending, parent);
      pending := pending + Pushed(top.tree.children, parent, deeper);
      ProgressStep(filter, root, budget.depthLimit, before, was, ordinal, nodes, pending, budget.consumed, deeper);
    }
    assert nodes + AsCode([]) == nodes;
    parsed := Some(ParsedCode(nodes, errors));
  }

  // ---------------------------------------------------------------------------
  // The two walks compared

  /** Identifiers are numbered in order, and every parent is an earlier entry, or the one given. */
  ghost predicate Numbered(entries: seq<Entry>, parent: Option<Ref>, index: nat, from: nat, to: nat) {
    && (forall i :: 0 <= i < |entries| ==> entries[i].ref.index == index + i && from <= entries[i].ref.ordinal < to)
    && (forall i, j :: 0 <= i < j < |entries| ==> entries[i].ref.ordinal < entries[j].ref.ordinal)
    && (forall i :: 0 <= i < |entries| ==> ParentEarlier(entries, parent, i))
  }

  ghost predicate ParentEarlier(entries: seq<Entry>, parent: Option<Ref>, i: nat)
    requires i < |entries|
  {
    entries[i].parent == parent || exists j :: 0 <= j < i && entries[i].parent == Some(entries[j].ref)
  }

  lemma {:induction false} NumberedJoin(
    a: seq<Entry>, b: seq<Entry>, parent: Option<Ref>, index: nat, next: nat, from: nat, middle: nat, to: nat)
    requires Numbered(a, parent, index, from, middle) && Numbered(b, parent, next, middle, to) && next == index + |a|
    requires from <= middle <= to
    ensures Numbered(a + b, parent, index, from, to)
  {
    var all := a + b;
    forall i | 0 <= i < |all| ensures ParentEarlier(all, parent, i) {
      if i < |a| {
        assert ParentEarlier(a, parent, i);
        if a[i].parent != parent {
          var j :| 0 <= j < i && a[i].parent == Some(a[j].ref);
          assert all[j] == a[j];
        }
      } else {
        assert ParentEarlier(b, parent, i - |a|);
        if b[i - |a|].parent != parent {
          var j :| 0 <= j < i - |a| && b[i - |a|].parent == Some(b[j].ref);
          assert all[j + |a|] == b[j];
        }
      }
    }
  }

  lemma {:induction false} NumberedUnder(
    own: Entry, b: seq<Entry>, parent: Option<Ref>, index: nat, next: nat, from: nat, middle: nat, to: nat)
    requires own.parent == parent && own.ref.index == index && own.ref.ordinal == from
    requires next == index + 1 && middle == from + 1 && Numbered(b, Some(own.ref), next, middle, to) && middle <= to
    ensures Numbered([own] + b, parent, index, from, to)
  {
    var all := [own] + b;
    forall i | 0 <= i < |all| ensures ParentEarlier(all, parent, i) {
      if i > 0 {
        assert ParentEarlier(b, Some(own.ref), i - 1);
        if b[i - 1].parent == Some(own.ref) {
          assert all[0].ref == own.ref;
        } else {
          var j :| 0 <= j < i - 1 && b[i - 1].parent == Some(b[j].ref);
          assert all[j + 1] == b[j];
        }
      }
    }
  }

  lemma {:induction false} EntriesNumbered(filter: Filter, t: Tree, parent: Option<Ref>, index: nat, ordinal: nat)
    ensures Numbered(Entries(filter, t, parent, index, ordinal), parent, index, ordinal, ordinal + Size(t))
    decreases t, 0
  {
    var next, end := ordinal + 1, ordinal + Size(t);
    if Keeps(filter, t.header) {
      var ref, after := Ref(index, ordinal, t.header), index + 1;
      ForestNumbered(filter, t.children, Some(ref), after, next);
      NumberedUnder(Entry(ref, parent), ForestEntries(filter, t.children, Some(ref), after, next), parent, index, after,
                    ordinal, next, end);
    } else {
      ForestNumbered(filter, t.children, parent, index, next);
    }
  }

  lemma {:induction false} ForestNumbered(filter: Filter, ts: seq<Tree>, parent: Option<Ref>, index: nat, ordinal: nat)
    ensures Numbered(ForestEntries(filter, ts, parent, index, ordinal), parent, index, ordinal, ordinal + ForestSize(ts))
    decreases ts, 1
  {
    if ts != [] {
      var first := Entries(filter, ts[0], parent, index, ordinal);
      var after, next, end := index + |first|, ordinal + Size(ts[0]), ordinal + ForestSize(ts);
      EntriesNumbered(filter, ts[0], parent, index, ordinal);
      ForestNumbered(filter, ts[1..], parent, after, next);
      NumberedJoin(first, ForestEntries(filter, ts[1..], parent, after, next), parent, index, after, ordinal, next, end);
    }
  }

  /** The same nodes in the same order, each with the same node as parent. */
  ghost predicate SameNodes(code: seq<CodeNode>, python: seq<PythonNode>) {
    && |code| == |python|
    && forall i :: 0 <= i < |code| ==>
         && code[i].header == python[i].header
         && (code[i].parent == None <==> python[i].parent == None)
         && forall j :: 0 <= j < |code| ==>
              (code[i].parent == Some(code[j].id) <==> python[i].parent == Some(python[j].id))
  }

  lemma {:induction false} SpellingsAgree(entries: seq<Entry>, to: nat)
    requires Numbered(entries, None, 0, 0, to)
    ensures SameNodes(AsCode(entries), AsPython(entries))
  {
    var code, python := AsCode(entries), AsPython(entries);
    forall i, j | 0 <= i < |code| && 0 <= j < |code|
      ensures code[i].parent == Some(code[j].id) <==> python[i].parent == Some(python[j].id)
    {
      assert ParentEarlier(entries, None, i);
      if entries[i].parent.Some? {
        var k :| 0 <= k < i && entries[i].parent == Some(entries[k].ref);
        assert code[i].parent == Some(CodeIdOf(entries[k].ref)) && python[i].parent == Some(PythonIdOf(entries[k].ref));
        assert entries[j].ref.index == j && entries[k].ref.index == k;
      }
    }
  }

  /** The filters meet in two settings: named nodes only, and every node. */
  lemma {:induction false} FiltersMeet(includeAnonymousNodes: bool, detail: PythonDetail)
    ensures AdapterFilter(includeAnonymousNodes) == FilterOf(detail) <==>
            detail == if includeAnonymousNodes then SyntaxDebug else Syntax
  {
  }

  /** For every tree, with the same filter, the stack walk and the recursive walk list the same nodes under the same parents. */
  lemma {:induction false} WalksAgree(root: Tree, includeAnonymousNodes: bool, detail: PythonDetail)
    requires detail == if includeAnonymousNodes then SyntaxDebug else Syntax
    ensures var code := AsCode(Entries(AdapterFilter(includeAnonymousNodes), root, None, 0, 0));
            var python := AsPython(Entries(FilterOf(detail), root, None, 0, 0));
            SameNodes(code, python)
  {
    FiltersMeet(includeAnonymousNodes, detail);
    EntriesNumbered(FilterOf(detail), root, None, 0, 0);
    SpellingsAgree(Entries(FilterOf(detail), root, None, 0, 0), Size(root));
  }
}
