/** The canonical signature of a walk, with and without its labels. */
module BasinSignatures {
  import opened Wrappers
  import opened BasinTraces

  function EncodeEdgeLabel(edgeType: Option<string>, direction: Option<string>): string {
    match edgeType
    case None => UNTYPED
    case Some(name) => name + "|" + if direction.Some? then direction.value else []
  }

  function LabelAt(walk: seq<WalkStep>, i: nat): string
    requires i < |walk|
  {
    if i == 0 then UNTYPED else EncodeEdgeLabel(walk[i].edgeType, walk[i].direction)
  }

  function LabelTrace(walk: seq<WalkStep>): (labels: seq<string>)
    ensures |labels| == |walk| && forall i :: 0 <= i < |walk| ==> labels[i] == LabelAt(walk, i)
  {
    seq(|walk|, i requires 0 <= i < |walk| => LabelAt(walk, i))
  }

  /** The edges between the first `n` numbered nodes, with the labels they were reached by. */
  function EdgesOf(trace: seq<nat>, labels: seq<string>, n: nat): multiset<TypedEdge>
    requires n <= |trace| == |labels|
  {
    if n <= 1 then multiset{}
    else EdgesOf(trace, labels, n - 1) + multiset{TypedEdge(trace[n - 2], labels[n - 1], trace[n - 1])}
  }

  function Signature(walk: seq<WalkStep>): TypedSignature {
    var nodes, labels := NodesOf(walk), LabelTrace(walk);
    TypedSignature(|Ids(nodes)|, Trace(nodes), labels, EdgesOf(Trace(nodes), labels, |walk|))
  }

  /** Every number below the number of nodes stands somewhere in the trace. */
  lemma {:induction false} NumberIsUsed(nodes: seq<string>, k: nat)
    requires k < |Ids(nodes)|
    ensures k in Trace(nodes)
  {
    var n := |nodes| - 1;
    var front := nodes[..n];
    assert Trace(nodes) == Trace(front) + [Ids(nodes)[nodes[n]]];
    if k < |Ids(front)| {
      NumberIsUsed(front, k);
    }
  }

  /** The numbers below `n`. */
  function Below(n: nat): (numbers: set<nat>)
    ensures |numbers| == n && forall k :: k in numbers <==> 0 <= k < n
  {
    if n == 0 then {} else Below(n - 1) + {n - 1}
  }

  /** The distinct numbers of a trace are as many as its distinct nodes. */
  lemma {:induction false} DistinctNumbers(nodes: seq<string>)
    ensures |set id | id in Trace(nodes)| == |Ids(nodes)|
  {
    forall k: nat | k < |Ids(nodes)| ensures k in Trace(nodes) {
      NumberIsUsed(nodes, k);
    }
    forall id | id in Trace(nodes) ensures id < |Ids(nodes)| {
      var i :| 0 <= i < |nodes| && Trace(nodes)[i] == id;
      TraceIsIds(nodes, i);
      IdsNumberFromZero(nodes);
    }
    assert (set id | id in Trace(nodes)) == Below(|Ids(nodes)|);
  }

  method NumberNodes(walk: seq<WalkStep>) returns (trace: seq<nat>)
    ensures trace == Trace(NodesOf(walk))
  {
    ghost var nodes := NodesOf(walk);
    var ids: map<string, nat> := map[];
    trace := [];
    for i := 0 to |walk|
      invariant ids == Ids(nodes[..i]) && trace == Trace(nodes[..i])
    {
      assert nodes[..i + 1][..i] == nodes[..i] && nodes[..i + 1][i] == walk[i].node;
      var node := walk[i].node;
      if node !in ids {
        ids := ids[node := |ids|];
      }
      trace := trace + [ids[node]];
    }
    assert nodes[..|walk|] == nodes;
  }

  method CountEdges(trace: seq<nat>, labels: seq<string>) returns (edges: multiset<TypedEdge>)
    requires |trace| == |labels|
    ensures edges == EdgesOf(trace, labels, |trace|)
  {
    edges := multiset{};
    var i := 1;
    while i < |trace|
      invariant edges == EdgesOf(trace, labels, if i <= |trace| then i else |trace|)
    {
      edges := edges + multiset{TypedEdge(trace[i - 1], labels[i], trace[i])};
      i := i + 1;
    }
  }

  method TypedCanonicalSignature(walk: seq<WalkStep>) returns (signature: TypedSignature)
    ensures signature == Signature(walk)
  {
    var trace := NumberNodes(walk);
    var labels := LabelTrace(walk);
    var edges := CountEdges(trace, labels);
    DistinctNumbers(NodesOf(walk));
    var distinct := set id | id in trace;
    signature := TypedSignature(|distinct|, trace, labels, edges);
  }

  // ---------------------------------------------------------------------------
  // Without labels

  function Erased(edge: TypedEdge): TypedEdge {
    edge.(relation := UNTYPED)
  }

  ghost function Pick(edges: multiset<TypedEdge>): (edge: TypedEdge)
    requires edges != multiset{}
    ensures edge in edges
  {
    var edge :| edge in edges;
    edge
  }

  /** Every edge without its label, as often as it was there with any label. */
  ghost function LabelFreeEdges(edges: multiset<TypedEdge>): multiset<TypedEdge>
    decreases |edges|
  {
    if edges == multiset{} then multiset{}
    else LabelFreeEdges(edges - multiset{Pick(edges)}) + multiset{Erased(Pick(edges))}
  }

  ghost function WithoutLabels(signature: TypedSignature): TypedSignature {
    signature.(edgeLabelTrace := seq(|signature.edgeLabelTrace|, _ => UNTYPED),
               edges := LabelFreeEdges(signature.edges))
  }

  lemma {:induction false} LabelFreeAdds(edges: multiset<TypedEdge>, edge: TypedEdge)
    ensures LabelFreeEdges(edges + multiset{edge}) == LabelFreeEdges(edges) + multiset{Erased(edge)}
    decreases |edges|
  {
    var more := edges + multiset{edge};
    assert edge in more;
    var picked := Pick(more);
    var rest := edges - multiset{picked};
    if picked == edge {
      assert more - multiset{edge} == edges;
    } else {
      assert more - multiset{picked} == rest + multiset{edge};
      assert rest + multiset{picked} == edges;
      LabelFreeAdds(rest, edge);
      LabelFreeAdds(rest, picked);
    }
  }

  /** Erasing labels loses no edge. */
  lemma {:induction false} LabelFreeKeepsCount(edges: multiset<TypedEdge>)
    ensures |LabelFreeEdges(edges)| == |edges|
    decreases |edges|
  {
    if edges != multiset{} {
      LabelFreeKeepsCount(edges - multiset{Pick(edges)});
    }
  }

  /** An entry of a count table. */
  function Copies(edge: TypedEdge, n: nat): multiset<TypedEdge> {
    multiset{}[edge := n]
  }

  lemma {:induction false} OneMoreCopy(edge: TypedEdge, n: nat)
    ensures Copies(edge, n + 1) == Copies(edge, n) + multiset{edge}
  {
  }

  lemma {:induction false} LabelFreeAddsMany(edges: multiset<TypedEdge>, edge: TypedEdge, n: nat)
    ensures LabelFreeEdges(edges + Copies(edge, n)) == LabelFreeEdges(edges) + Copies(Erased(edge), n)
  {
    if n == 0 {
      assert edges + Copies(edge, 0) == edges;
    } else {
      var m := n - 1;
      LabelFreeAddsMany(edges, edge, m);
      LabelFreeAdds(edges + Copies(edge, m), edge);
      OneMoreCopy(edge, m);
      OneMoreCopy(Erased(edge), m);
      assert edges + Copies(edge, m) + multiset{edge} == edges + Copies(edge, n);
      assert LabelFreeEdges(edges) + Copies(Erased(edge), m) + multiset{Erased(edge)}
             == LabelFreeEdges(edges) + Copies(Erased(edge), n);
    }
  }

  /** Entry by entry, adding each entry's whole count to the edge without its label. */
  method RemoveLabels(signature: TypedSignature) returns (erased: TypedSignature)
    ensures erased == WithoutLabels(signature)
  {
    var counts: multiset<TypedEdge> := multiset{};
    var rest := signature.edges;
    ghost var done: multiset<TypedEdge> := multiset{};
    while rest != multiset{}
      invariant done + rest == signature.edges && counts == LabelFreeEdges(done)
      decreases |rest|
    {
      var edge :| edge in rest;
      var n := rest[edge];
      LabelFreeAddsMany(done, edge, n);
      counts := counts + Copies(Erased(edge), n);
      done := done + Copies(edge, n);
      assert rest == rest[edge := 0] + Copies(edge, n);
      rest := rest[edge := 0];
    }
    assert done == signature.edges;
    erased := TypedSignature(signature.nodeCount, signature.nodeTrace, seq(|signature.edgeLabelTrace|, _ => UNTYPED),
                             counts);
  }

  /** The walk with its labels taken off. */
  function Unlabelled(walk: seq<WalkStep>): (bare: seq<WalkStep>)
    ensures |bare| == |walk| && forall i :: 0 <= i < |walk| ==> bare[i] == WalkStep(walk[i].node, None, None)
  {
    seq(|walk|, i requires 0 <= i < |walk| => WalkStep(walk[i].node, None, None))
  }

  lemma {:induction false} EdgesErase(trace: seq<nat>, labels: seq<string>, bare: seq<string>, n: nat)
    requires n <= |trace| == |labels| == |bare| && forall i :: 0 <= i < |bare| ==> bare[i] == UNTYPED
    ensures LabelFreeEdges(EdgesOf(trace, labels, n)) == EdgesOf(trace, bare, n)
  {
    if n > 1 {
      EdgesErase(trace, labels, bare, n - 1);
      LabelFreeAdds(EdgesOf(trace, labels, n - 1), TypedEdge(trace[n - 2], labels[n - 1], trace[n - 1]));
    }
  }

  /** Erasing the labels of a signature is the signature of the walk without labels. */
  lemma {:induction false} ErasingCommutes(walk: seq<WalkStep>)
    ensures WithoutLabels(Signature(walk)) == Signature(Unlabelled(walk))
  {
    var bare := Unlabelled(walk);
    assert NodesOf(bare) == NodesOf(walk);
    var blank := seq(|walk|, _ => UNTYPED);
    assert LabelTrace(bare) == blank;
    EdgesErase(Trace(NodesOf(walk)), LabelTrace(walk), blank, |walk|);
  }

  lemma {:induction false} EdgesCounted(trace: seq<nat>, labels: seq<string>, n: nat)
    requires n <= |trace| == |labels|
    ensures |EdgesOf(trace, labels, n)| == if n == 0 then 0 else n - 1
  {
    if n > 1 {
      EdgesCounted(trace, labels, n - 1);
    }
  }

  /** With or without labels, the edge counts of a walk add up to its steps. */
  lemma {:induction false} CountsAddUp(walk: seq<WalkStep>)
    requires walk != []
    ensures |Signature(walk).edges| == |walk| - 1 == |WithoutLabels(Signature(walk)).edges|
  {
    EdgesCounted(Trace(NodesOf(walk)), LabelTrace(walk), |walk|);
    LabelFreeKeepsCount(Signature(walk).edges);
  }

  // ---------------------------------------------------------------------------
  // What an encoded label tells

  predicate NoBar(s: string) {
    '|' !in s
  }

  function DirectionText(direction: Option<string>): string {
    if direction.Some? then direction.value else []
  }

  lemma {:induction false} SplitAtBar(a: string, b: string, c: string, d: string)
    requires NoBar(a) && NoBar(c) && a + "|" + b == c + "|" + d
    ensures a == c && b == d
  {
    var s := a + "|" + b;
    assert s[|a|] == '|' && s[|c|] == '|';
    assert forall i :: 0 <= i < |a| ==> s[i] == a[i];
    assert forall i :: 0 <= i < |c| ==> s[i] == c[i];
    assert s[..|a|] == a && s[..|c|] == c && s[|a| + 1..] == b && s[|c| + 1..] == d;
  }

  /** Encoded labels of types without a bar are equal exactly when type and direction are, an absent direction being empty. */
  lemma {:induction false} EncodingTells(
    t: Option<string>, d: Option<string>, u: Option<string>, e: Option<string>)
    requires (t.Some? ==> NoBar(t.value)) && (u.Some? ==> NoBar(u.value))
    ensures EncodeEdgeLabel(t, d) == EncodeEdgeLabel(u, e) <==>
            t == u && (t.Some? ==> DirectionText(d) == DirectionText(e))
  {
    if t.Some? {
      assert EncodeEdgeLabel(t, d)[|t.value|] == '|';
    }
    if u.Some? {
      assert EncodeEdgeLabel(u, e)[|u.value|] == '|';
    }
    assert |UNTYPED| == 1 && UNTYPED[0] != '|';
    if t.Some? && u.Some? && EncodeEdgeLabel(t, d) == EncodeEdgeLabel(u, e) {
      SplitAtBar(t.value, DirectionText(d), u.value, DirectionText(e));
    }
  }

  /** A bar in a type makes different labels encode alike. */
  lemma {:induction false} EncodingCanCollide()
    ensures EncodeEdgeLabel(Some("a|b"), Some("c")) == EncodeEdgeLabel(Some("a"), Some("b|c"))
  {
    assert "a|b" + "|" + "c" == "a|b|c" == "a" + "|" + "b|c";
  }

  /** Without a type any direction encodes alike, and an absent direction encodes as an empty one. */
  lemma {:induction false} AbsenceCollides()
    ensures EncodeEdgeLabel(None, Some("out")) == EncodeEdgeLabel(None, None)
    ensures EncodeEdgeLabel(Some("a"), None) == EncodeEdgeLabel(Some("a"), Some(""))
  {
  }

  /** The encoded label determines type and direction. */
  ghost predicate Determines(t: Option<string>, d: Option<string>) {
    forall u: Option<string>, e: Option<string> ::
      EncodeEdgeLabel(u, e) == EncodeEdgeLabel(t, d) ==> u == t && e == d
  }

  lemma {:induction false} OneBarDetermines(name: string, text: string, u: Option<string>, e: Option<string>)
    requires NoBar(name) && NoBar(text)
    requires EncodeEdgeLabel(u, e) == name + "|" + text
    ensures u == Some(name) && DirectionText(e) == text
  {
    var s, n := name + "|" + text, |name|;
    assert s[n] == '|';
    assert |UNTYPED| == 1 && UNTYPED[0] != '|';
    assert u.Some?;
    var m := |u.value|;
    assert s[m] == '|';
    assert forall i :: 0 <= i < n ==> s[i] == name[i];
    assert forall i :: n < i < |s| ==> s[i] == text[i - n - 1];
    assert m == n;
    assert s[..n] == name && s[..m] == u.value && s[n + 1..] == text && s[m + 1..] == DirectionText(e);
  }

  lemma {:induction false} BarInNameConfuses(name: string, direction: Option<string>, i: nat)
    requires i < |name| && name[i] == '|'
    ensures !Determines(Some(name), direction)
  {
    var front, back := name[..i], name[i + 1..];
    assert name == front + "|" + back;
    var text := DirectionText(direction);
    assert front + "|" + (back + "|" + text) == name + "|" + text;
    assert EncodeEdgeLabel(Some(front), Some(back + "|" + text)) == EncodeEdgeLabel(Some(name), direction);
    assert |front| < |name|;
  }

  lemma {:induction false} BarInDirectionConfuses(name: string, text: string, i: nat)
    requires i < |text| && text[i] == '|'
    ensures !Determines(Some(name), Some(text))
  {
    var front, back := text[..i], text[i + 1..];
    assert text == front + "|" + back;
    assert name + "|" + front + "|" + back == name + "|" + text;
    assert EncodeEdgeLabel(Some(name + "|" + front), Some(back)) == EncodeEdgeLabel(Some(name), Some(text));
    assert |name + "|" + front| > |name|;
  }

  lemma {:induction false} AbsenceConfuses(t: Option<string>, d: Option<string>)
    requires t.None? || DirectionText(d) == []
    ensures !Determines(t, d)
  {
    var e := if d.Some? then None else Some([]);
    assert EncodeEdgeLabel(t, e) == EncodeEdgeLabel(t, d);
  }

  /**
   An encoded label determines type and direction exactly if both are given, the
   direction is not empty, and neither has a bar.
   */
  lemma {:induction false} DeterminesIffNoBar(t: Option<string>, d: Option<string>)
    ensures Determines(t, d) <==> t.Some? && d.Some? && d.value != [] && NoBar(t.value) && NoBar(d.value)
  {
    if t.None? || DirectionText(d) == [] {
      AbsenceConfuses(t, d);
    } else if !NoBar(t.value) {
      var i :| 0 <= i < |t.value| && t.value[i] == '|';
      BarInNameConfuses(t.value, d, i);
    } else if !NoBar(d.value) {
      var i :| 0 <= i < |d.value| && d.value[i] == '|';
      BarInDirectionConfuses(t.value, d.value, i);
    } else {
      forall u: Option<string>, e: Option<string> | EncodeEdgeLabel(u, e) == EncodeEdgeLabel(t, d)
        ensures u == t && e == d
      {
        OneBarDetermines(t.value, d.value, u, e);
      }
    }
  }
}
