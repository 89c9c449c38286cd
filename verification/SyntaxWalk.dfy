/**
 Two ways to list the nodes of a syntax tree: one recursive, one with a stack of
 its own. Both list the kept nodes in preorder, each under its nearest kept
 ancestor; they differ only in how they spell identifiers.
 */
module SyntaxWalk {
  import opened Wrappers

  /** What a parser says of one node; `start` and `end` are offsets of the text. */
  datatype Header = Header(kind: string, named: bool, error: bool, missing: bool, start: nat, end: nat)

  datatype Tree = Node(header: Header, children: seq<Tree>)

  datatype Filter = Filter(includeNamed: bool, includeAnonymous: bool)

  predicate Keeps(filter: Filter, header: Header) {
    header.error || header.missing || filter.includeAnonymous || (filter.includeNamed && header.named)
  }

  function Size(t: Tree): (n: nat)
    ensures n > 0
  {
    1 + ForestSize(t.children)
  }

  function ForestSize(ts: seq<Tree>): nat {
    if ts == [] then 0 else Size(ts[0]) + ForestSize(ts[1..])
  }

  /** Whether a tree whose root stands at a depth stays within a depth limit. */
  predicate Within(t: Tree, depth: nat, limit: nat) {
    depth <= limit && ForestWithin(t.children, depth + 1, limit)
  }

  predicate ForestWithin(ts: seq<Tree>, depth: nat, limit: nat) {
    ts == [] || (Within(ts[0], depth, limit) && ForestWithin(ts[1..], depth, limit))
  }

  // ---------------------------------------------------------------------------
  // The kept nodes

  /** A kept node: its place among the kept nodes, and among all nodes, in preorder. */
  datatype Ref = Ref(index: nat, ordinal: nat, header: Header)

  datatype Entry = Entry(ref: Ref, parent: Option<Ref>)

  function Entries(filter: Filter, t: Tree, parent: Option<Ref>, index: nat, ordinal: nat): seq<Entry> {
    if Keeps(filter, t.header) then
      var ref := Ref(index, ordinal, t.header);
      [Entry(ref, parent)] + ForestEntries(filter, t.children, Some(ref), index + 1, ordinal + 1)
    else ForestEntries(filter, t.children, parent, index, ordinal + 1)
  }

  function ForestEntries(filter: Filter, ts: seq<Tree>, parent: Option<Ref>, index: nat, ordinal: nat): seq<Entry> {
    if ts == [] then []
    else
      var first := Entries(filter, ts[0], parent, index, ordinal);
      first + ForestEntries(filter, ts[1..], parent, index + |first|, ordinal + Size(ts[0]))
  }

  // ---------------------------------------------------------------------------
  // All nodes, with all their ancestors

  datatype Visit = Visit(ordinal: nat, header: Header, ancestors: seq<Visit>)

  function Visits(t: Tree, ancestors: seq<Visit>, ordinal: nat): (visits: seq<Visit>)
    ensures |visits| == Size(t)
  {
    var visit := Visit(ordinal, t.header, ancestors);
    [visit] + ForestVisits(t.children, ancestors + [visit], ordinal + 1)
  }

  function ForestVisits(ts: seq<Tree>, ancestors: seq<Visit>, ordinal: nat): (visits: seq<Visit>)
    ensures |visits| == ForestSize(ts)
  {
    if ts == [] then []
    else Visits(ts[0], ancestors, ordinal) + ForestVisits(ts[1..], ancestors, ordinal + Size(ts[0]))
  }

  /** The visits of a tree are numbered in order: every node is visited exactly once. */
  lemma {:induction false} VisitsNumbered(t: Tree, ancestors: seq<Visit>, ordinal: nat, i: nat)
    requires i < Size(t)
    ensures Visits(t, ancestors, ordinal)[i].ordinal == ordinal + i
    decreases t, 0
  {
    if i > 0 {
      ForestVisitsNumbered(t.children, ancestors + [Visit(ordinal, t.header, ancestors)], ordinal + 1, i - 1);
    }
  }

  lemma {:induction false} ForestVisitsNumbered(ts: seq<Tree>, ancestors: seq<Visit>, ordinal: nat, i: nat)
    requires i < ForestSize(ts)
    ensures ForestVisits(ts, ancestors, ordinal)[i].ordinal == ordinal + i
    decreases ts, 1
  {
    if i < Size(ts[0]) {
      VisitsNumbered(ts[0], ancestors, ordinal, i);
    } else {
      ForestVisitsNumbered(ts[1..], ancestors, ordinal + Size(ts[0]), i - Size(ts[0]));
    }
  }

  /** The last kept one of some ancestors. */
  function NearestKept(filter: Filter, ancestors: seq<Visit>): Option<Visit> {
    if ancestors == [] then None
    else
      var last := ancestors[|ancestors| - 1];
      if Keeps(filter, last.header) then Some(last) else NearestKept(filter, ancestors[..|ancestors| - 1])
  }

  function KeptVisits(filter: Filter, visits: seq<Visit>): seq<Visit> {
    if visits == [] then []
    else (if Keeps(filter, visits[0].header) then [visits[0]] else []) + KeptVisits(filter, visits[1..])
  }

  predicate SameNode(ref: Ref, visit: Visit) {
    ref.ordinal == visit.ordinal && ref.header == visit.header
  }

  predicate SameParent(parent: Option<Ref>, nearest: Option<Visit>) {
    match parent
    case None => nearest == None
    case Some(ref) => nearest.Some? && SameNode(ref, nearest.value)
  }

  /** The entries are the kept visits, in order, each under its nearest kept ancestor. */
  predicate Lists(filter: Filter, entries: seq<Entry>, visits: seq<Visit>, index: nat) {
    && |entries| == |visits|
    && forall i :: 0 <= i < |entries| ==>
         && entries[i].ref.index == index + i && SameNode(entries[i].ref, visits[i])
         && SameParent(entries[i].parent, NearestKept(filter, visits[i].ancestors))
  }

  lemma {:induction false} KeptVisitsJoin(filter: Filter, a: seq<Visit>, b: seq<Visit>)
    ensures KeptVisits(filter, a + b) == KeptVisits(filter, a) + KeptVisits(filter, b)
  {
    if a == [] {
      assert a + b == b;
    } else {
      assert (a + b)[1..] == a[1..] + b;
      KeptVisitsJoin(filter, a[1..], b);
    }
  }

  lemma {:induction false} ListsJoin(
    filter: Filter, a: seq<Entry>, b: seq<Entry>, v: seq<Visit>, w: seq<Visit>, index: nat, next: nat)
    requires Lists(filter, a, v, index) && next == index + |a| && Lists(filter, b, w, next)
    ensures Lists(filter, a + b, v + w, index)
  {
  }

  lemma {:induction false} EntriesList(
    filter: Filter, t: Tree, parent: Option<Ref>, index: nat, ordinal: nat, ancestors: seq<Visit>)
    requires SameParent(parent, NearestKept(filter, ancestors))
    ensures Lists(filter, Entries(filter, t, parent, index, ordinal),
                  KeptVisits(filter, Visits(t, ancestors, ordinal)), index)
    decreases t, 0
  {
    var visit := Visit(ordinal, t.header, ancestors);
    var below, next := ancestors + [visit], ordinal + 1;
    assert below[..|ancestors|] == ancestors;
    var rest := ForestVisits(t.children, below, next);
    KeptVisitsJoin(filter, [visit], rest);
    if Keeps(filter, t.header) {
      var ref, after := Ref(index, ordinal, t.header), index + 1;
      ForestEntriesList(filter, t.children, Some(ref), after, next, below);
      assert KeptVisits(filter, [visit]) == [visit];
      ListsJoin(filter, [Entry(ref, parent)], ForestEntries(filter, t.children, Some(ref), after, next),
                [visit], KeptVisits(filter, rest), index, after);
    } else {
      ForestEntriesList(filter, t.children, parent, index, next, below);
      assert KeptVisits(filter, [visit]) == [];
      assert [] + KeptVisits(filter, rest) == KeptVisits(filter, rest);
    }
  }

  lemma {:induction false} ForestEntriesList(
    filter: Filter, ts: seq<Tree>, parent: Option<Ref>, index: nat, ordinal: nat, ancestors: seq<Visit>)
    requires SameParent(parent, NearestKept(filter, ancestors))
    ensures Lists(filter, ForestEntries(filter, ts, parent, index, ordinal),
                  KeptVisits(filter, ForestVisits(ts, ancestors, ordinal)), index)
    decreases ts, 1
  {
    if ts != [] {
      var first := Entries(filter, ts[0], parent, index, ordinal);
      var after, next := index + |first|, ordinal + Size(ts[0]);
      EntriesList(filter, ts[0], parent, index, ordinal, ancestors);
      ForestEntriesList(filter, ts[1..], parent, after, next, ancestors);
      var here, there := Visits(ts[0], ancestors, ordinal), ForestVisits(ts[1..], ancestors, next);
      KeptVisitsJoin(filter, here, there);
      ListsJoin(filter, first, ForestEntries(filter, ts[1..], parent, after, next),
                KeptVisits(filter, here), KeptVisits(filter, there), index, after);
    }
  }

  /** For every tree and filter, the entries are exactly the kept nodes in preorder, under their nearest kept ancestors. */
  lemma {:induction false} WalkListsKeptNodes(filter: Filter, root: Tree)
    ensures Lists(filter, Entries(filter, root, None, 0, 0), KeptVisits(filter, Visits(root, [], 0)), 0)
  {
    EntriesList(filter, root, None, 0, 0, []);
  }
}
