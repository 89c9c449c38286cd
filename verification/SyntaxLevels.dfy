/** Which nodes the two walks list at each level of detail. */
module SyntaxLevels {
  import opened Wrappers
  import opened Lists
  import opened SyntaxWalk
  import opened SyntaxParsers
  import opened SyntaxStack

  function VisitHeaders(visits: seq<Visit>): (headers: seq<Header>)
    ensures |headers| == |visits|
  {
    seq(|visits|, k requires 0 <= k < |visits| => visits[k].header)
  }

  function PythonHeaders(nodes: seq<PythonNode>): (headers: seq<Header>)
    ensures |headers| == |nodes|
  {
    seq(|nodes|, k requires 0 <= k < |nodes| => nodes[k].header)
  }

  function CodeHeaders(nodes: seq<CodeNode>): (headers: seq<Header>)
    ensures |headers| == |nodes|
  {
    seq(|nodes|, k requires 0 <= k < |nodes| => nodes[k].header)
  }

  lemma {:induction false} KeptVisitsMember(filter: Filter, visits: seq<Visit>, visit: Visit)
    ensures visit in KeptVisits(filter, visits) <==> visit in visits && Keeps(filter, visit.header)
  {
    if visits != [] {
      KeptVisitsMember(filter, visits[1..], visit);
      assert visits == [visits[0]] + visits[1..];
    }
  }

  lemma {:induction false} ListedIsKept(filter: Filter, root: Tree, k: nat)
    requires k < |Entries(filter, root, None, 0, 0)|
    ensures var visits, ref := Visits(root, [], 0), Entries(filter, root, None, 0, 0)[k].ref;
            ref.ordinal < |visits| && visits[ref.ordinal].header == ref.header && Keeps(filter, ref.header)
  {
    var visits := Visits(root, [], 0);
    var kept := KeptVisits(filter, visits);
    WalkListsKeptNodes(filter, root);
    KeptVisitsMember(filter, visits, kept[k]);
    var i :| 0 <= i < |visits| && visits[i] == kept[k];
    VisitsNumbered(root, [], 0, i);
  }

  lemma {:induction false} KeptIsListed(filter: Filter, root: Tree, i: nat) returns (k: nat)
    requires i < Size(root) && Keeps(filter, Visits(root, [], 0)[i].header)
    ensures k < |Entries(filter, root, None, 0, 0)| && Entries(filter, root, None, 0, 0)[k].ref.ordinal == i
  {
    var visits := Visits(root, [], 0);
    var kept := KeptVisits(filter, visits);
    WalkListsKeptNodes(filter, root);
    KeptVisitsMember(filter, visits, visits[i]);
    VisitsNumbered(root, [], 0, i);
    k :| 0 <= k < |kept| && kept[k] == visits[i];
  }

  function Ordinals(entries: seq<Entry>): (ordinals: seq<nat>)
    ensures |ordinals| == |entries| && forall k :: 0 <= k < |entries| ==> ordinals[k] == entries[k].ref.ordinal
  {
    seq(|entries|, k requires 0 <= k < |entries| => entries[k].ref.ordinal)
  }

  function Kept(filter: Filter): Header -> bool {
    header => Keeps(filter, header)
  }

  lemma {:induction false} KeptAreListed(filter: Filter, root: Tree) returns (places: seq<nat>)
    ensures var entries := Entries(filter, root, None, 0, 0);
            && Picks(VisitHeaders(Visits(root, [], 0)), Kept(filter), PythonHeaders(AsPython(entries)), places)
            && PythonHeaders(AsPython(entries)) == CodeHeaders(AsCode(entries))
  {
    var visits, entries := Visits(root, [], 0), Entries(filter, root, None, 0, 0);
    places := Ordinals(entries);
    EntriesNumbered(filter, root, None, 0, 0);
    forall k | 0 <= k < |entries|
      ensures var n := places[k]; n < |visits| && visits[n].header == entries[k].ref.header && Keeps(filter, visits[n].header)
    {
      ListedIsKept(filter, root, k);
    }
    forall i | 0 <= i < |visits| && Keeps(filter, visits[i].header) ensures i in places {
      var k := KeptIsListed(filter, root, i);
      assert places[k] == i;
    }
  }

  /** Faults alone, or all named nodes with the faults, or all nodes. */
  function OfLevel(detail: PythonDetail): Header -> bool {
    match detail
    case Semantic => (header: Header) => header.error || header.missing
    case Syntax => (header: Header) => header.named || header.error || header.missing
    case SyntaxDebug => (header: Header) => true
  }

  /** Of all nodes in preorder, the Python parser lists those of the level, in order. */
  lemma {:induction false} LevelsList(root: Tree, detail: PythonDetail) returns (places: seq<nat>)
    ensures var nodes := AsPython(Entries(FilterOf(detail), root, None, 0, 0));
            Picks(VisitHeaders(Visits(root, [], 0)), OfLevel(detail), PythonHeaders(nodes), places)
  {
    places := KeptAreListed(FilterOf(detail), root);
  }

  /** The code adapters list all nodes, or the named ones with the faults. */
  lemma {:induction false} AdaptersList(root: Tree, includeAnonymousNodes: bool) returns (places: seq<nat>)
    ensures var nodes := AsCode(Entries(AdapterFilter(includeAnonymousNodes), root, None, 0, 0));
            var level := if includeAnonymousNodes then SyntaxDebug else Syntax;
            Picks(VisitHeaders(Visits(root, [], 0)), OfLevel(level), CodeHeaders(nodes), places)
  {
    places := KeptAreListed(AdapterFilter(includeAnonymousNodes), root);
  }
}
