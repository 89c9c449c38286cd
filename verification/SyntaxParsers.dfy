/** The two walks as they run: the recursive one of the Python parser, and the stack of the code adapters. */
module SyntaxParsers {
  import opened Wrappers
  import opened SyntaxWalk

  // ---------------------------------------------------------------------------
  // The recursive walk

  /** Numbered by the position among all nodes. */
  datatype PythonId = PythonId(ordinal: nat, start: nat, end: nat, kind: string)

  datatype PythonNode = PythonNode(id: PythonId, header: Header, parent: Option<PythonId>)

  function PythonIdOf(ref: Ref): PythonId {
    PythonId(ref.ordinal, ref.header.start, ref.header.end, ref.header.kind)
  }

  function MapParent<T>(parent: Option<Ref>, spell: Ref -> T): Option<T> {
    match parent case None => None case Some(ref) => Some(spell(ref))
  }

  function AsPython(entries: seq<Entry>): (nodes: seq<PythonNode>)
    ensures |nodes| == |entries|
  {
    seq(|entries|, i requires 0 <= i < |entries| =>
      PythonNode(PythonIdOf(entries[i].ref), entries[i].ref.header, MapParent(entries[i].parent, PythonIdOf)))
  }

  datatype PythonDetail = Semantic | Syntax | SyntaxDebug

  function FilterOf(detail: PythonDetail): Filter {
    Filter(detail != Semantic, detail == SyntaxDebug)
  }

  class SyntaxCollector {
    const filter: Filter
    var nextOrdinal: nat
    var nodes: seq<PythonNode>

    constructor (filter: Filter)
      ensures this.filter == filter && nextOrdinal == 0 && nodes == []
    {
      this.filter, nextOrdinal, nodes := filter, 0, [];
    }

    /** The kept nodes of a subtree; `parent` is the reference behind the parent's identifier. */
    method Walk(node: Tree, parentId: Option<PythonId>, ghost parent: Option<Ref>)
      requires parentId == MapParent(parent, PythonIdOf)
      modifies this
      ensures nextOrdinal == old(nextOrdinal) + Size(node)
      ensures nodes == old(nodes) + PythonTree(filter, node, parent, old(|nodes|), old(nextOrdinal))
      decreases node, 0
    {
      ghost var before, ordinal := nodes, nextOrdinal;
      var childParent, childRef := Emit(node.header, parentId, parent);
      ghost var own, below := nodes[|before|..], PythonForest(filter, node.children, childRef, |nodes|, nextOrdinal);
      assert nodes == before + own;
      WalkChildren(node.children, childParent, childRef);
      assert PythonTree(filter, node, parent, |before|, ordinal) == own + below by {
        TreeStep(filter, node, parent, |before|, ordinal);
      }
      assert before + own + below == before + (own + below);
    }

    /** Numbers a node, and lists it if it is kept. */
    method Emit(header: Header, parentId: Option<PythonId>, ghost parent: Option<Ref>)
      returns (childParent: Option<PythonId>, ghost childRef: Option<Ref>)
      requires parentId == MapParent(parent, PythonIdOf)
      modifies this
      ensures nextOrdinal == old(nextOrdinal) + 1 && childParent == MapParent(childRef, PythonIdOf)
      ensures var ref := Ref(old(|nodes|), old(nextOrdinal), header);
              if Keeps(filter, header)
              then nodes == old(nodes) + [PythonNode(PythonIdOf(ref), header, parentId)] && childRef == Some(ref)
              else nodes == old(nodes) && childRef == parent
    {
      var ordinal := nextOrdinal;
      nextOrdinal := nextOrdinal + 1;
      var kept := header.error || header.missing || filter.includeAnonymous || (filter.includeNamed && header.named);
      var id := PythonId(ordinal, header.start, header.end, header.kind);
      childParent, childRef := parentId, parent;
      if kept {
        childParent, childRef := Some(id), Some(Ref(|nodes|, ordinal, header));
        nodes := nodes + [PythonNode(id, header, parentId)];
      }
    }

    method WalkChildren(children: seq<Tree>, parentId: Option<PythonId>, ghost parent: Option<Ref>)
      requires parentId == MapParent(parent, PythonIdOf)
      modifies this
      ensures nextOrdinal == old(nextOrdinal) + ForestSize(children)
      ensures nodes == old(nodes) + PythonForest(filter, children, parent, old(|nodes|), old(nextOrdinal))
      decreases children, 1
    {
      ghost var all := nodes + PythonForest(filter, children, parent, |nodes|, nextOrdinal);
      ghost var end := nextOrdinal + ForestSize(children);
      assert children[0..] == children;
      for i := 0 to |children|
        invariant nextOrdinal + ForestSize(children[i..]) == end
        invariant nodes + PythonForest(filter, children[i..], parent, |nodes|, nextOrdinal) == all
      {
        ghost var so, ordinal := nodes, nextOrdinal;
        ghost var rest := children[i..];
        assert rest[0] == children[i] && rest[1..] == children[i + 1..];
        Walk(children[i], parentId, parent);
        ForestStep(filter, rest, parent, |so|, ordinal);
        ghost var first := PythonTree(filter, children[i], parent, |so|, ordinal);
        ghost var later := PythonForest(filter, rest[1..], parent, |nodes|, nextOrdinal);
        assert so + first + later == so + (first + later);
      }
    }
  }

  function PythonTree(filter: Filter, t: Tree, parent: Option<Ref>, index: nat, ordinal: nat): seq<PythonNode> {
    AsPython(Entries(filter, t, parent, index, ordinal))
  }

  function PythonForest(filter: Filter, ts: seq<Tree>, parent: Option<Ref>, index: nat, ordinal: nat): seq<PythonNode> {
    AsPython(ForestEntries(filter, ts, parent, index, ordinal))
  }

  lemma {:induction false} TreeStep(filter: Filter, t: Tree, parent: Option<Ref>, index: nat, ordinal: nat)
    ensures var ref, next, after := Ref(index, ordinal, t.header), ordinal + 1, index + 1;
            PythonTree(filter, t, parent, index, ordinal) ==
            if Keeps(filter, t.header)
            then [PythonNode(PythonIdOf(ref), t.header, MapParent(parent, PythonIdOf))]
                 + PythonForest(filter, t.children, Some(ref), after, next)
            else PythonForest(filter, t.children, parent, index, next)
  {
    var ref := Ref(index, ordinal, t.header);
    if Keeps(filter, t.header) {
      AsPythonJoins([Entry(ref, parent)], ForestEntries(filter, t.children, Some(ref), index + 1, ordinal + 1));
    }
  }

  lemma {:induction false} ForestStep(filter: Filter, ts: seq<Tree>, parent: Option<Ref>, index: nat, ordinal: nat)
    requires ts != []
    ensures var first := PythonTree(filter, ts[0], parent, index, ordinal);
            var after, next := index + |first|, ordinal + Size(ts[0]);
            PythonForest(filter, ts, parent, index, ordinal) ==
            first + PythonForest(filter, ts[1..], parent, after, next)
  {
    var first := Entries(filter, ts[0], parent, index, ordinal);
    AsPythonJoins(first, ForestEntries(filter, ts[1..], parent, index + |first|, ordinal + Size(ts[0])));
  }

  lemma {:induction false} AsPythonJoins(a: seq<Entry>, b: seq<Entry>)
    ensures AsPython(a + b) == AsPython(a) + AsPython(b)
  {
  }

  method CollectSyntaxNodes(root: Tree, detail: PythonDetail) returns (nodes: seq<PythonNode>)
    ensures nodes == AsPython(Entries(FilterOf(detail), root, None, 0, 0))
  {
    var collector := new SyntaxCollector(FilterOf(detail));
    collector.Walk(root, None, None);
    nodes := collector.nodes;
  }
}
