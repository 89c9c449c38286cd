/**
 The node list of an AsciiDoc document: every node names its parent, every
 parent lists its children, and headings nest by level. An identifier is the
 position of its node.
 */
module AsciiDocTree {
  import opened Wrappers

  datatype Kind =
    | Heading | Attribute | Comment | BlockAttribute | CodeBlock | LiteralBlock | RawBlock | Include | Directive
    | Target | Transition | List | Table | Paragraph
    | ListItem | TableRow | TableCell | Inline(name: string)

  /** `start` and `end` are lines; inner nodes carry the lines of the block they stand in. */
  datatype Node = Node(kind: Kind, parent: Option<nat>, children: seq<nat>, level: nat, start: nat, end: nat)

  /** The first node of a block; the others are inside one. */
  predicate IsInner(kind: Kind) {
    kind.ListItem? || kind.TableRow? || kind.TableCell? || kind.Inline?
  }

  datatype Item = Item(start: nat, end: nat, inlines: seq<string>)

  datatype Row = Row(line: nat, cells: nat)

  /** What a run of lines is. `Gap` leaves no node; `Styled` is an attribute line and the delimited block below it. */
  datatype Block =
    | Gap(start: nat, end: nat)
    | HeadingLine(start: nat, end: nat, level: nat)
    | Leaf(start: nat, end: nat, kind: Kind)
    | Styled(start: nat, end: nat, kind: Kind)
    | TableOf(start: nat, end: nat, rows: seq<Row>)
    | ListOf(start: nat, end: nat, items: seq<Item>)
    | Text(start: nat, end: nat, inlines: seq<string>)

  lemma {:induction false} JoinOne<T>(a: seq<T>, x: T, b: seq<T>)
    ensures a + ([x] + b) == a + [x] + b
  {
  }

  // ---------------------------------------------------------------------------
  // Adding nodes

  /** One more node, and one more child of its parent. */
  function Added(nodes: seq<Node>, kind: Kind, parent: Option<nat>, level: nat, start: nat, end: nat): (r: seq<Node>)
    requires parent.Some? ==> parent.value < |nodes|
    ensures |r| == |nodes| + 1
  {
    var linked :=
      match parent
      case None => nodes
      case Some(p) => nodes[p := nodes[p].(children := nodes[p].children + [|nodes|])];
    linked + [Node(kind, parent, [], level, start, end)]
  }

  function InlinesAdded(nodes: seq<Node>, parent: nat, inlines: seq<string>, start: nat, end: nat): (r: seq<Node>)
    requires parent < |nodes|
    ensures |r| == |nodes| + |inlines|
  {
    if inlines == [] then nodes
    else
      var front := InlinesAdded(nodes, parent, inlines[..|inlines| - 1], start, end);
      Added(front, Inline(inlines[|inlines| - 1]), Some(parent), 0, start, end)
  }

  function ItemAdded(nodes: seq<Node>, list: nat, item: Item): (r: seq<Node>)
    requires list < |nodes|
    ensures |r| > |nodes|
  {
    var added := Added(nodes, ListItem, Some(list), 0, item.start, item.end);
    InlinesAdded(added, |nodes|, item.inlines, item.start, item.end)
  }

  function ItemsAdded(nodes: seq<Node>, list: nat, items: seq<Item>): (r: seq<Node>)
    requires list < |nodes|
    ensures |r| >= |nodes|
  {
    if items == [] then nodes
    else ItemAdded(ItemsAdded(nodes, list, items[..|items| - 1]), list, items[|items| - 1])
  }

  function CellsAdded(nodes: seq<Node>, row: nat, cells: nat, line: nat): (r: seq<Node>)
    requires row < |nodes|
    ensures |r| == |nodes| + cells
  {
    if cells == 0 then nodes
    else Added(CellsAdded(nodes, row, cells - 1, line), TableCell, Some(row), 0, line, line + 1)
  }

  function RowAdded(nodes: seq<Node>, table: nat, row: Row): (r: seq<Node>)
    requires table < |nodes|
    ensures |r| > |nodes|
  {
    CellsAdded(Added(nodes, TableRow, Some(table), 0, row.line, row.line + 1), |nodes|, row.cells, row.line)
  }

  function RowsAdded(nodes: seq<Node>, table: nat, rows: seq<Row>): (r: seq<Node>)
    requires table < |nodes|
    ensures |r| >= |nodes|
  {
    if rows == [] then nodes
    else RowAdded(RowsAdded(nodes, table, rows[..|rows| - 1]), table, rows[|rows| - 1])
  }

  /** A heading still open: its level and its node. */
  datatype Open = Open(level: nat, node: nat)

  /** The nodes so far, the open headings, and the last heading. */
  datatype Document = Document(nodes: seq<Node>, headings: seq<Open>, current: Option<nat>)

  function Closed(headings: seq<Open>, level: nat): (r: seq<Open>)
    ensures r <= headings
  {
    if headings != [] && headings[|headings| - 1].level >= level then Closed(headings[..|headings| - 1], level)
    else headings
  }

  function LastOpen(headings: seq<Open>): Option<nat> {
    if headings == [] then None else Some(headings[|headings| - 1].node)
  }

  /** Positions that are positions of nodes. */
  ghost predicate InRange(d: Document) {
    && (forall k :: 0 <= k < |d.headings| ==> d.headings[k].node < |d.nodes|)
    && (d.current.Some? ==> d.current.value < |d.nodes|)
  }

  function HeadingAdded(d: Document, start: nat, end: nat, level: nat): Document
    requires InRange(d)
  {
    var open := Closed(d.headings, level);
    var nodes := Added(d.nodes, Heading, LastOpen(open), level, start, end);
    Document(nodes, open + [Open(level, |d.nodes|)], Some(|d.nodes|))
  }

  function BlockAdded(d: Document, block: Block): Document
    requires InRange(d)
  {
    match block
    case Gap(_, _) => d
    case HeadingLine(start, end, level) => HeadingAdded(d, start, end, level)
    case Leaf(start, end, kind) => d.(nodes := Added(d.nodes, kind, d.current, 0, start, end))
    case Styled(start, end, kind) =>
      var attributed := Added(d.nodes, BlockAttribute, d.current, 0, start, start + 1);
      d.(nodes := Added(attributed, kind, d.current, 0, start, end))
    case TableOf(start, end, rows) =>
      d.(nodes := RowsAdded(Added(d.nodes, Table, d.current, 0, start, end), |d.nodes|, rows))
    case ListOf(start, end, items) =>
      d.(nodes := ItemsAdded(Added(d.nodes, List, d.current, 0, start, end), |d.nodes|, items))
    case Text(start, end, inlines) =>
      var added := Added(d.nodes, Paragraph, d.current, 0, start, end);
      d.(nodes := InlinesAdded(added, |d.nodes|, inlines, start, end))
  }

  // ---------------------------------------------------------------------------
  // Parents and children mirror each other

  ghost predicate ParentsEarlier(nodes: seq<Node>) {
    forall i :: 0 <= i < |nodes| && nodes[i].parent.Some? ==> nodes[i].parent.value < i
  }

  /** A node's children are exactly the nodes that name it as parent, in order. */
  ghost predicate ListsChildren(nodes: seq<Node>, p: nat)
    requires p < |nodes|
  {
    && (forall k, l :: 0 <= k < l < |nodes[p].children| ==> nodes[p].children[k] < nodes[p].children[l])
    && (forall c: nat :: c in nodes[p].children <==> c < |nodes| && nodes[c].parent == Some(p))
  }

  ghost predicate Mirrored(nodes: seq<Node>) {
    ParentsEarlier(nodes) && forall p :: 0 <= p < |nodes| ==> ListsChildren(nodes, p)
  }

  /** Nodes already there keep everything but the parent's list of children. */
  lemma {:induction false} AddedKeeps(
    nodes: seq<Node>, kind: Kind, parent: Option<nat>, level: nat, start: nat, end: nat)
    requires parent.Some? ==> parent.value < |nodes|
    ensures var r := Added(nodes, kind, parent, level, start, end);
            && (forall i :: 0 <= i < |nodes| ==>
                  r[i] == nodes[i].(children := nodes[i].children + if parent == Some(i) then [|nodes|] else []))
            && r[|nodes|] == Node(kind, parent, [], level, start, end)
  {
  }

  lemma {:induction false} AddedMirrors(
    nodes: seq<Node>, kind: Kind, parent: Option<nat>, level: nat, start: nat, end: nat)
    requires Mirrored(nodes) && (parent.Some? ==> parent.value < |nodes|)
    ensures Mirrored(Added(nodes, kind, parent, level, start, end))
  {
    var r, n := Added(nodes, kind, parent, level, start, end), |nodes|;
    AddedKeeps(nodes, kind, parent, level, start, end);
    forall p | 0 <= p < |r| ensures ListsChildren(r, p) {
      if p < n {
        assert ListsChildren(nodes, p);
        var before, after := nodes[p].children, r[p].children;
        forall k, l | 0 <= k < l < |after| ensures after[k] < after[l] {
          assert before[k] in before;
        }
        forall c: nat ensures c in after <==> c < |r| && r[c].parent == Some(p) {
          assert c in after <==> c in before || (parent == Some(p) && c == n);
        }
      }
    }
  }

  lemma {:induction false} InlinesMirror(nodes: seq<Node>, parent: nat, inlines: seq<string>, start: nat, end: nat)
    requires Mirrored(nodes) && parent < |nodes|
    ensures Mirrored(InlinesAdded(nodes, parent, inlines, start, end))
  {
    if inlines != [] {
      var front := inlines[..|inlines| - 1];
      InlinesMirror(nodes, parent, front, start, end);
      AddedMirrors(InlinesAdded(nodes, parent, front, start, end), Inline(inlines[|inlines| - 1]), Some(parent), 0, start,
                   end);
    }
  }

  lemma {:induction false} ItemsMirror(nodes: seq<Node>, list: nat, items: seq<Item>)
    requires Mirrored(nodes) && list < |nodes|
    ensures Mirrored(ItemsAdded(nodes, list, items))
  {
    if items != [] {
      var front, item := items[..|items| - 1], items[|items| - 1];
      ItemsMirror(nodes, list, front);
      var before := ItemsAdded(nodes, list, front);
      AddedMirrors(before, ListItem, Some(list), 0, item.start, item.end);
      InlinesMirror(Added(before, ListItem, Some(list), 0, item.start, item.end), |before|, item.inlines, item.start,
                    item.end);
    }
  }

  lemma {:induction false} CellsMirror(nodes: seq<Node>, row: nat, cells: nat, line: nat)
    requires Mirrored(nodes) && row < |nodes|
    ensures Mirrored(CellsAdded(nodes, row, cells, line))
  {
    if cells > 0 {
      CellsMirror(nodes, row, cells - 1, line);
      AddedMirrors(CellsAdded(nodes, row, cells - 1, line), TableCell, Some(row), 0, line, line + 1);
    }
  }

  lemma {:induction false} RowsMirror(nodes: seq<Node>, table: nat, rows: seq<Row>)
    requires Mirrored(nodes) && table < |nodes|
    ensures Mirrored(RowsAdded(nodes, table, rows))
  {
    if rows != [] {
      var front, row := rows[..|rows| - 1], rows[|rows| - 1];
      RowsMirror(nodes, table, front);
      var before := RowsAdded(nodes, table, front);
      AddedMirrors(before, TableRow, Some(table), 0, row.line, row.line + 1);
      CellsMirror(Added(before, TableRow, Some(table), 0, row.line, row.line + 1), |before|, row.cells, row.line);
    }
  }

  lemma {:induction false} LastOpenInRange(d: Document, level: nat)
    requires InRange(d)
    ensures var open := LastOpen(Closed(d.headings, level)); open.Some? ==> open.value < |d.nodes|
  {
    var open := Closed(d.headings, level);
    assert open == [] || d.headings[|open| - 1] == open[|open| - 1];
  }

  /** Every block keeps parents and children mirrored. */
  lemma {:induction false} BlockMirrors(d: Document, block: Block)
    requires InRange(d) && Mirrored(d.nodes)
    ensures Mirrored(BlockAdded(d, block).nodes)
  {
    match block
    case Gap(_, _) =>
    case HeadingLine(start, end, level) =>
      LastOpenInRange(d, level);
      AddedMirrors(d.nodes, Heading, LastOpen(Closed(d.headings, level)), level, start, end);
    case Leaf(start, end, kind) => AddedMirrors(d.nodes, kind, d.current, 0, start, end);
    case Styled(start, end, kind) =>
      AddedMirrors(d.nodes, BlockAttribute, d.current, 0, start, start + 1);
      AddedMirrors(Added(d.nodes, BlockAttribute, d.current, 0, start, start + 1), kind, d.current, 0, start, end);
    case TableOf(start, end, rows) =>
      AddedMirrors(d.nodes, Table, d.current, 0, start, end);
      RowsMirror(Added(d.nodes, Table, d.current, 0, start, end), |d.nodes|, rows);
    case ListOf(start, end, items) =>
      AddedMirrors(d.nodes, List, d.current, 0, start, end);
      ItemsMirror(Added(d.nodes, List, d.current, 0, start, end), |d.nodes|, items);
    case Text(start, end, inlines) =>
      AddedMirrors(d.nodes, Paragraph, d.current, 0, start, end);
      InlinesMirror(Added(d.nodes, Paragraph, d.current, 0, start, end), |d.nodes|, inlines, start, end);
  }

  // ---------------------------------------------------------------------------
  // Which parent a node has

  /** The nearest heading before node `i` whose level is smaller. */
  function EnclosingHeading(nodes: seq<Node>, i: nat, level: nat): Option<nat>
    requires i <= |nodes|
  {
    if i == 0 then None
    else if nodes[i - 1].kind.Heading? && nodes[i - 1].level < level then Some(i - 1)
    else EnclosingHeading(nodes, i - 1, level)
  }

  /** The nearest heading before node `i`. */
  function LastHeading(nodes: seq<Node>, i: nat): Option<nat>
    requires i <= |nodes|
  {
    if i == 0 then None
    else if nodes[i - 1].kind.Heading? then Some(i - 1)
    else LastHeading(nodes, i - 1)
  }

  predicate InsideOf(inner: Kind, outer: Kind) {
    match inner
    case ListItem => outer.List?
    case TableRow => outer.Table?
    case TableCell => outer.TableRow?
    case Inline(_) => outer.ListItem? || outer.Paragraph?
    case _ => false
  }

  /** The parent the document's structure gives a node. */
  predicate RightParent(nodes: seq<Node>, i: nat)
    requires i < |nodes|
  {
    if nodes[i].kind.Heading? then nodes[i].parent == EnclosingHeading(nodes, i, nodes[i].level)
    else if IsInner(nodes[i].kind) then
      nodes[i].parent.Some? && nodes[i].parent.value < i && InsideOf(nodes[i].kind, nodes[nodes[i].parent.value].kind)
    else nodes[i].parent == LastHeading(nodes, i)
  }

  ghost predicate RightParents(nodes: seq<Node>) {
    forall i :: 0 <= i < |nodes| ==> RightParent(nodes, i)
  }

  /** More nodes; the earlier ones keep what headings and parents depend on. */
  ghost predicate Grows(nodes: seq<Node>, r: seq<Node>) {
    && |nodes| <= |r|
    && forall i :: 0 <= i < |nodes| ==>
         && r[i].kind == nodes[i].kind && r[i].level == nodes[i].level && r[i].parent == nodes[i].parent
         && r[i].start == nodes[i].start && r[i].end == nodes[i].end
  }

  lemma {:induction false} HeadingsStay(nodes: seq<Node>, r: seq<Node>, i: nat, level: nat)
    requires Grows(nodes, r) && i <= |nodes|
    ensures EnclosingHeading(r, i, level) == EnclosingHeading(nodes, i, level)
    ensures LastHeading(r, i) == LastHeading(nodes, i)
  {
    if i > 0 {
      HeadingsStay(nodes, r, i - 1, level);
    }
  }

  lemma {:induction false} RightParentsStay(nodes: seq<Node>, r: seq<Node>)
    requires Grows(nodes, r) && RightParents(nodes)
    ensures forall i :: 0 <= i < |nodes| ==> RightParent(r, i)
  {
    forall i | 0 <= i < |nodes| ensures RightParent(r, i) {
      HeadingsStay(nodes, r, i, nodes[i].level);
      assert RightParent(nodes, i);
    }
  }

  /** Only inner nodes are new, each inside what it belongs to. */
  ghost predicate GrowsInside(nodes: seq<Node>, r: seq<Node>) {
    && Grows(nodes, r)
    && forall i :: |nodes| <= i < |r| ==> IsInner(r[i].kind) && RightParent(r, i)
  }

  lemma {:induction false} GrowsInsideTwice(a: seq<Node>, b: seq<Node>, c: seq<Node>)
    requires GrowsInside(a, b) && GrowsInside(b, c)
    ensures GrowsInside(a, c)
  {
    forall i | |a| <= i < |b| ensures IsInner(c[i].kind) && RightParent(c, i) {
      assert RightParent(b, i);
    }
  }

  lemma {:induction false} InnerAdded(nodes: seq<Node>, kind: Kind, parent: nat, start: nat, end: nat)
    requires parent < |nodes| && IsInner(kind) && InsideOf(kind, nodes[parent].kind)
    ensures GrowsInside(nodes, Added(nodes, kind, Some(parent), 0, start, end))
  {
    AddedKeeps(nodes, kind, Some(parent), 0, start, end);
  }

  lemma {:induction false} InlinesGrow(nodes: seq<Node>, parent: nat, inlines: seq<string>, start: nat, end: nat)
    requires parent < |nodes| && (nodes[parent].kind.ListItem? || nodes[parent].kind.Paragraph?)
    ensures GrowsInside(nodes, InlinesAdded(nodes, parent, inlines, start, end))
  {
    if inlines != [] {
      var front, last := inlines[..|inlines| - 1], Inline(inlines[|inlines| - 1]);
      InlinesGrow(nodes, parent, front, start, end);
      var before := InlinesAdded(nodes, parent, front, start, end);
      InnerAdded(before, last, parent, start, end);
      GrowsInsideTwice(nodes, before, Added(before, last, Some(parent), 0, start, end));
    }
  }

  lemma {:induction false} ItemsGrow(nodes: seq<Node>, list: nat, items: seq<Item>)
    requires list < |nodes| && nodes[list].kind.List?
    ensures GrowsInside(nodes, ItemsAdded(nodes, list, items))
  {
    if items != [] {
      var front, item := items[..|items| - 1], items[|items| - 1];
      ItemsGrow(nodes, list, front);
      var before := ItemsAdded(nodes, list, front);
      var added := Added(before, ListItem, Some(list), 0, item.start, item.end);
      InnerAdded(before, ListItem, list, item.start, item.end);
      InlinesGrow(added, |before|, item.inlines, item.start, item.end);
      GrowsInsideTwice(nodes, before, added);
      GrowsInsideTwice(nodes, added, ItemAdded(before, list, item));
    }
  }

  lemma {:induction false} CellsGrow(nodes: seq<Node>, row: nat, cells: nat, line: nat)
    requires row < |nodes| && nodes[row].kind.TableRow?
    ensures GrowsInside(nodes, CellsAdded(nodes, row, cells, line))
  {
    if cells > 0 {
      CellsGrow(nodes, row, cells - 1, line);
      var before, end := CellsAdded(nodes, row, cells - 1, line), line + 1;
      InnerAdded(before, TableCell, row, line, end);
      GrowsInsideTwice(nodes, before, Added(before, TableCell, Some(row), 0, line, end));
    }
  }

  lemma {:induction false} RowsGrow(nodes: seq<Node>, table: nat, rows: seq<Row>)
    requires table < |nodes| && nodes[table].kind.Table?
    ensures GrowsInside(nodes, RowsAdded(nodes, table, rows))
  {
    if rows != [] {
      var front, row := rows[..|rows| - 1], rows[|rows| - 1];
      RowsGrow(nodes, table, front);
      var before, end := RowsAdded(nodes, table, front), row.line + 1;
      var added := Added(before, TableRow, Some(table), 0, row.line, end);
      InnerAdded(before, TableRow, table, row.line, end);
      CellsGrow(added, |before|, row.cells, row.line);
      GrowsInsideTwice(nodes, before, added);
      GrowsInsideTwice(nodes, added, RowAdded(before, table, row));
    }
  }

  // ---------------------------------------------------------------------------
  // The stack of open headings

  /** The stack finds, for every level, the nearest heading of a smaller one. */
  ghost predicate Finds(nodes: seq<Node>, headings: seq<Open>) {
    forall level :: EnclosingHeading(nodes, |nodes|, level) == LastOpen(Closed(headings, level))
  }

  ghost predicate Tracks(d: Document) {
    InRange(d) && Finds(d.nodes, d.headings) && LastHeading(d.nodes, |d.nodes|) == d.current && RightParents(d.nodes)
  }

  lemma {:induction false} CloseTwice(headings: seq<Open>, first: nat, second: nat)
    requires second <= first
    ensures Closed(Closed(headings, first), second) == Closed(headings, second)
  {
    if headings != [] && headings[|headings| - 1].level >= first {
      CloseTwice(headings[..|headings| - 1], first, second);
    }
  }

  lemma {:induction false} HeadingFinds(d: Document, start: nat, end: nat, level: nat, wanted: nat)
    requires Tracks(d)
    ensures var after := HeadingAdded(d, start, end, level);
            EnclosingHeading(after.nodes, |after.nodes|, wanted) == LastOpen(Closed(after.headings, wanted))
  {
    LastOpenInRange(d, level);
    var open := Closed(d.headings, level);
    var after, n := HeadingAdded(d, start, end, level), |d.nodes|;
    AddedKeeps(d.nodes, Heading, LastOpen(open), level, start, end);
    HeadingsStay(d.nodes, after.nodes, n, wanted);
    assert after.headings == open + [Open(level, n)] && after.headings[..|open|] == open;
    if wanted <= level {
      CloseTwice(d.headings, level, wanted);
    }
  }

  lemma {:induction false} HeadingTracks(d: Document, start: nat, end: nat, level: nat)
    requires Tracks(d)
    ensures Tracks(HeadingAdded(d, start, end, level))
  {
    LastOpenInRange(d, level);
    var open := Closed(d.headings, level);
    var after, n := HeadingAdded(d, start, end, level), |d.nodes|;
    AddedKeeps(d.nodes, Heading, LastOpen(open), level, start, end);
    RightParentsStay(d.nodes, after.nodes);
    forall wanted: nat
      ensures EnclosingHeading(after.nodes, |after.nodes|, wanted) == LastOpen(Closed(after.headings, wanted))
    {
      HeadingFinds(d, start, end, level, wanted);
    }
    HeadingsStay(d.nodes, after.nodes, n, level);
    assert RightParent(after.nodes, n);
  }

  lemma {:induction false} NoHeadingsBetween(nodes: seq<Node>, r: seq<Node>, i: nat, level: nat)
    requires Grows(nodes, r) && |nodes| <= i <= |r| && forall k :: |nodes| <= k < |r| ==> !r[k].kind.Heading?
    ensures EnclosingHeading(r, i, level) == EnclosingHeading(nodes, |nodes|, level)
    ensures LastHeading(r, i) == LastHeading(nodes, |nodes|)
  {
    if i == |nodes| {
      HeadingsStay(nodes, r, i, level);
    } else {
      NoHeadingsBetween(nodes, r, i - 1, level);
    }
  }

  /** Nodes that are not headings leave the stack right. */
  lemma {:induction false} OthersTrack(d: Document, r: seq<Node>)
    requires Tracks(d) && Grows(d.nodes, r) && forall k :: |d.nodes| <= k < |r| ==> !r[k].kind.Heading? && RightParent(r, k)
    ensures Tracks(d.(nodes := r))
  {
    RightParentsStay(d.nodes, r);
    forall level: nat ensures EnclosingHeading(r, |r|, level) == LastOpen(Closed(d.headings, level)) {
      NoHeadingsBetween(d.nodes, r, |r|, level);
    }
    NoHeadingsBetween(d.nodes, r, |r|, 0);
  }

  predicate IsLeaf(kind: Kind) {
    !kind.Heading? && !IsInner(kind)
  }

  lemma {:induction false} LeafTracks(d: Document, kind: Kind, start: nat, end: nat)
    requires Tracks(d) && IsLeaf(kind)
    ensures Tracks(d.(nodes := Added(d.nodes, kind, d.current, 0, start, end)))
  {
    var r := Added(d.nodes, kind, d.current, 0, start, end);
    AddedKeeps(d.nodes, kind, d.current, 0, start, end);
    HeadingsStay(d.nodes, r, |d.nodes|, 0);
    OthersTrack(d, r);
  }

  /** Blocks as the line recognisers give them. */
  predicate IsBlock(block: Block) {
    match block
    case Leaf(_, _, kind) => IsLeaf(kind)
    case Styled(_, _, kind) => IsLeaf(kind)
    case _ => true
  }

  lemma {:induction false} BlockTracks(d: Document, block: Block)
    requires Tracks(d) && IsBlock(block)
    ensures Tracks(BlockAdded(d, block))
  {
    match block
    case Gap(_, _) =>
    case HeadingLine(start, end, level) => HeadingTracks(d, start, end, level);
    case Leaf(start, end, kind) => LeafTracks(d, kind, start, end);
    case Styled(start, end, kind) =>
      var next := start + 1;
      LeafTracks(d, BlockAttribute, start, next);
      LeafTracks(d.(nodes := Added(d.nodes, BlockAttribute, d.current, 0, start, next)), kind, start, end);
    case TableOf(start, end, rows) =>
      LeafTracks(d, Table, start, end);
      var table := d.(nodes := Added(d.nodes, Table, d.current, 0, start, end));
      RowsGrow(table.nodes, |d.nodes|, rows);
      OthersTrack(table, RowsAdded(table.nodes, |d.nodes|, rows));
    case ListOf(start, end, items) =>
      LeafTracks(d, List, start, end);
      var list := d.(nodes := Added(d.nodes, List, d.current, 0, start, end));
      ItemsGrow(list.nodes, |d.nodes|, items);
      OthersTrack(list, ItemsAdded(list.nodes, |d.nodes|, items));
    case Text(start, end, inlines) =>
      LeafTracks(d, Paragraph, start, end);
      var text := d.(nodes := Added(d.nodes, Paragraph, d.current, 0, start, end));
      InlinesGrow(text.nodes, |d.nodes|, inlines, start, end);
      OthersTrack(text, InlinesAdded(text.nodes, |d.nodes|, inlines, start, end));
  }

  // ---------------------------------------------------------------------------
  // Whole documents

  function Parsed(blocks: seq<Block>): (d: Document)
    ensures InRange(d)
  {
    if blocks == [] then Document([], [], None)
    else
      var before := Parsed(blocks[..|blocks| - 1]);
      BlockInRange(before, blocks[|blocks| - 1]);
      BlockAdded(before, blocks[|blocks| - 1])
  }

  lemma {:induction false} BlockInRange(d: Document, block: Block)
    requires InRange(d)
    ensures InRange(BlockAdded(d, block))
  {
    if block.HeadingLine? {
      var open := Closed(d.headings, block.level);
      assert forall k :: 0 <= k < |open| ==> open[k] == d.headings[k];
    }
  }

  /**
   In every document, parents and children mirror each other, parents come
   first, a heading's parent is the nearest earlier heading of a smaller level,
   every other block's parent is the nearest earlier heading, and inner nodes
   stand in the list, item, table, row or paragraph they belong to.
   */
  lemma {:induction false} DocumentIsRight(blocks: seq<Block>)
    requires forall k :: 0 <= k < |blocks| ==> IsBlock(blocks[k])
    ensures Mirrored(Parsed(blocks).nodes) && RightParents(Parsed(blocks).nodes) && Tracks(Parsed(blocks))
  {
    if blocks != [] {
      var front, last := blocks[..|blocks| - 1], blocks[|blocks| - 1];
      DocumentIsRight(front);
      BlockMirrors(Parsed(front), last);
      BlockTracks(Parsed(front), last);
      assert Parsed(blocks) == BlockAdded(Parsed(front), last);
    } else {
      forall level: nat ensures EnclosingHeading([], 0, level) == LastOpen(Closed([], level)) {
      }
    }
  }

  /** What the nearest heading of a smaller level is. */
  lemma {:induction false} EnclosingIsNearest(nodes: seq<Node>, i: nat, level: nat)
    requires i <= |nodes|
    ensures match EnclosingHeading(nodes, i, level)
            case Some(h) =>
              && h < i && nodes[h].kind.Heading? && nodes[h].level < level
              && forall k :: h < k < i && nodes[k].kind.Heading? ==> nodes[k].level >= level
            case None => forall k :: 0 <= k < i && nodes[k].kind.Heading? ==> nodes[k].level >= level
  {
    if i > 0 {
      EnclosingIsNearest(nodes, i - 1, level);
    }
  }
}
