/**
 Canonical signatures of walks: nodes numbered by first occurrence, labels
 encoded, edges counted. Two walks share a trace exactly when a one-to-one
 renaming of nodes carries one onto the other.
 */
module BasinTraces {
  import opened Wrappers

  const UNTYPED: string := "\U{2014}"

  datatype WalkStep = WalkStep(node: string, edgeType: Option<string>, direction: Option<string>)

  datatype TypedEdge = TypedEdge(source: nat, relation: string, target: nat)

  /** `edges` holds every typed edge as often as the walk takes it. */
  datatype TypedSignature = TypedSignature(
    nodeCount: nat, nodeTrace: seq<nat>, edgeLabelTrace: seq<string>, edges: multiset<TypedEdge>)

  datatype SignatureVariant = Typed | LabelFree

  // ---------------------------------------------------------------------------
  // Numbering by first occurrence

  function NodesOf(walk: seq<WalkStep>): (nodes: seq<string>)
    ensures |nodes| == |walk| && forall i :: 0 <= i < |walk| ==> nodes[i] == walk[i].node
  {
    seq(|walk|, i requires 0 <= i < |walk| => walk[i].node)
  }

  /** The number of every node, in order of first occurrence. */
  function Ids(nodes: seq<string>): (ids: map<string, nat>)
    ensures forall x :: x in ids <==> x in nodes
  {
    if nodes == [] then map[]
    else
      var front, last := nodes[..|nodes| - 1], nodes[|nodes| - 1];
      assert nodes == front + [last];
      var ids := Ids(front);
      if last in ids then ids else ids[last := |ids|]
  }

  function Trace(nodes: seq<string>): (trace: seq<nat>)
    ensures |trace| == |nodes|
  {
    if nodes == [] then []
    else
      var last := nodes[|nodes| - 1];
      assert last in nodes;
      Trace(nodes[..|nodes| - 1]) + [Ids(nodes)[last]]
  }

  lemma {:induction false} IdsNumberFromZero(nodes: seq<string>)
    ensures forall x :: x in Ids(nodes) ==> Ids(nodes)[x] < |Ids(nodes)|
    ensures forall x, y :: x in Ids(nodes) && y in Ids(nodes) && Ids(nodes)[x] == Ids(nodes)[y] ==> x == y
  {
    if nodes != [] {
      IdsNumberFromZero(nodes[..|nodes| - 1]);
    }
  }

  lemma {:induction false} TraceIsIds(nodes: seq<string>, i: nat)
    requires i < |nodes|
    ensures nodes[i] in Ids(nodes) && Trace(nodes)[i] == Ids(nodes)[nodes[i]]
  {
    if i < |nodes| - 1 {
      TraceIsIds(nodes[..|nodes| - 1], i);
    }
  }

  /** Equal numbers are equal nodes. */
  lemma {:induction false} TraceTellsNodes(nodes: seq<string>, i: nat, j: nat)
    requires i < |nodes| && j < |nodes|
    ensures Trace(nodes)[i] == Trace(nodes)[j] <==> nodes[i] == nodes[j]
  {
    TraceIsIds(nodes, i);
    TraceIsIds(nodes, j);
    IdsNumberFromZero(nodes);
  }

  lemma {:induction false} TracePrefix(nodes: seq<string>, k: nat)
    requires k <= |nodes|
    ensures Trace(nodes)[..k] == Trace(nodes[..k])
  {
    if k < |nodes| {
      TracePrefix(nodes[..|nodes| - 1], k);
      assert nodes[..|nodes| - 1][..k] == nodes[..k];
    } else {
      assert nodes[..k] == nodes;
    }
  }

  /** The same positions hold equal nodes. */
  predicate SamePattern(a: seq<string>, b: seq<string>) {
    |a| == |b| && forall i, j :: 0 <= i < |a| && 0 <= j < |a| ==> (a[i] == a[j] <==> b[i] == b[j])
  }

  lemma {:induction false} PatternGivesTrace(a: seq<string>, b: seq<string>)
    requires SamePattern(a, b)
    ensures Trace(a) == Trace(b) && |Ids(a)| == |Ids(b)|
  {
    if a != [] {
      var n := |a| - 1;
      var frontA, frontB := a[..n], b[..n];
      PatternGivesTrace(frontA, frontB);
      if a[n] in frontA {
        var i :| 0 <= i < n && frontA[i] == a[n];
        assert a[i] == a[n] && frontB[i] == b[i];
        TraceIsIds(frontA, i);
        TraceIsIds(frontB, i);
      } else {
        forall i | 0 <= i < n ensures frontB[i] != b[n] {
          assert frontA[i] == a[i] && frontB[i] == b[i];
        }
      }
    }
  }

  /** A one-to-one renaming of the nodes of `a` that gives `b`. */
  ghost predicate Renames(r: map<string, string>, a: seq<string>, b: seq<string>) {
    && |a| == |b|
    && (forall x, y :: x in r && y in r && r[x] == r[y] ==> x == y)
    && forall i :: 0 <= i < |a| ==> a[i] in r && r[a[i]] == b[i]
  }

  ghost predicate Renamable(a: seq<string>, b: seq<string>) {
    exists r :: Renames(r, a, b)
  }

  lemma {:induction false} PatternGivesRenaming(a: seq<string>, b: seq<string>) returns (r: map<string, string>)
    requires SamePattern(a, b)
    ensures Renames(r, a, b) && forall x :: x in r <==> x in a
  {
    if a == [] {
      r := map[];
    } else {
      var n := |a| - 1;
      var front := PatternGivesRenaming(a[..n], b[..n]);
      assert a == a[..n] + [a[n]];
      forall i | 0 <= i < n ensures front[a[i]] == b[i] {
        assert a[..n][i] == a[i] && b[..n][i] == b[i];
      }
      forall x | x in front && front[x] == b[n] ensures x == a[n] {
        var i :| 0 <= i < n && a[..n][i] == x;
        assert a[i] == a[n] <==> b[i] == b[n];
      }
      r := front[a[n] := b[n]];
    }
  }

  /** Two equally long walks get the same trace exactly when a renaming carries one onto the other. */
  lemma {:induction false} SameTraceIffRenamable(a: seq<string>, b: seq<string>)
    requires |a| == |b|
    ensures Trace(a) == Trace(b) <==> Renamable(a, b)
  {
    if Trace(a) == Trace(b) {
      forall i, j | 0 <= i < |a| && 0 <= j < |a| ensures a[i] == a[j] <==> b[i] == b[j] {
        TraceTellsNodes(a, i, j);
        TraceTellsNodes(b, i, j);
      }
      var r := PatternGivesRenaming(a, b);
    }
    if Renamable(a, b) {
      var r :| Renames(r, a, b);
      PatternGivesTrace(a, b);
    }
  }
}
