/** Headings of whole documents: their levels are equals signs, and they nest by counting them. */
module AsciiDocHeadings {
  import opened Wrappers
  import opened AsciiDocTree
  import opened AsciiDocBlocks
  import opened AsciiDocLines
  import opened AsciiDocParser
  import opened AsciiDocSpelling

  // ---------------------------------------------------------------------------
  // Blocks of headings

  /** A block is a heading exactly if its first line is spelled as one; then it is that line alone. */
  ghost predicate BlockFits(lines: seq<string>, block: Block) {
    && block.start < |lines| && IsBlock(block) && (block.HeadingLine? ==> block.end == block.start + 1)
    && forall level :: IsHeading(lines[block.start], level) <==> IsHeadingBlock(block, level)
  }

  predicate IsHeadingBlock(block: Block, level: nat) {
    block.HeadingLine? && block.level == level && block.end == block.start + 1
  }

  ghost predicate AllFit(lines: seq<string>, blocks: seq<Block>) {
    forall k :: 0 <= k < |blocks| ==> BlockFits(lines, blocks[k])
  }

  lemma {:induction false} BlockAtFits(lines: seq<string>, at: nat, retainComments: bool, inlines: map<nat, seq<string>>)
    requires at < |lines|
    ensures BlockFits(lines, BlockAt(ShapesOf(lines), at, retainComments, inlines))
  {
    var shapes := ShapesOf(lines);
    var block := BlockAt(shapes, at, retainComments, inlines);
    ShapesAreShapes(lines);
    BlockAdvances(shapes, at, retainComments, inlines);
    forall level ensures IsHeading(lines[at], level) <==> IsHeadingBlock(block, level) {
      HeadingIff(lines[at], level);
      if IsHeading(lines[at], level) {
        HeadingIsNotBlank(lines[at]);
      }
    }
  }

  lemma {:induction false} HeadingIsNotBlank(line: string)
    requires HeadingLevel(line).Some?
    ensures !IsBlank(line)
  {
  }

  lemma {:induction false} BlocksFit(lines: seq<string>, at: nat, retainComments: bool, inlines: map<nat, seq<string>>)
    requires at <= |lines| && forall k :: 0 <= k < |lines| ==> IsShape(ShapesOf(lines)[k])
    ensures AllFit(lines, BlocksFrom(ShapesOf(lines), at, retainComments, inlines))
    decreases |lines| - at
  {
    if at < |lines| {
      var shapes := ShapesOf(lines);
      var block := BlockAt(shapes, at, retainComments, inlines);
      BlockAtFits(lines, at, retainComments, inlines);
      BlockAdvances(shapes, at, retainComments, inlines);
      BlocksFit(lines, block.end, retainComments, inlines);
      var rest := BlocksFrom(shapes, block.end, retainComments, inlines);
      assert forall k :: 0 < k < |[block] + rest| ==> ([block] + rest)[k] == rest[k - 1];
    }
  }

  // ---------------------------------------------------------------------------
  // Nodes of headings

  /** Heading nodes stand for heading lines before a line, in the order of the lines. */
  ghost predicate HeadingsFit(lines: seq<string>, nodes: seq<Node>, end: nat) {
    && (forall i :: 0 <= i < |nodes| && nodes[i].kind.Heading? ==>
          nodes[i].start < end && nodes[i].start < |lines| && IsHeading(lines[nodes[i].start], nodes[i].level))
    && (forall i, j :: 0 <= i < j < |nodes| && nodes[i].kind.Heading? && nodes[j].kind.Heading? ==>
          nodes[i].start < nodes[j].start)
  }

  /** Every heading line among the first lines of blocks has a node. */
  ghost predicate HasNode(nodes: seq<Node>, line: nat, level: nat) {
    exists i :: 0 <= i < |nodes| && nodes[i].kind.Heading? && nodes[i].start == line && nodes[i].level == level
  }

  lemma {:induction false} NoMoreHeadings(lines: seq<string>, nodes: seq<Node>, r: seq<Node>, end: nat, later: nat)
    requires HeadingsFit(lines, nodes, end) && Grows(nodes, r) && end <= later
    requires forall k :: |nodes| <= k < |r| ==> !r[k].kind.Heading?
    ensures HeadingsFit(lines, r, later)
    ensures forall line, level :: HasNode(nodes, line, level) ==> HasNode(r, line, level)
  {
    forall line, level | HasNode(nodes, line, level) ensures HasNode(r, line, level) {
      var i :| 0 <= i < |nodes| && nodes[i].kind.Heading? && nodes[i].start == line && nodes[i].level == level;
      assert r[i].kind.Heading? && r[i].start == line && r[i].level == level;
    }
  }

  lemma {:induction false} LeafGrows(nodes: seq<Node>, kind: Kind, parent: Option<nat>, start: nat, end: nat)
    requires !kind.Heading? && (parent.Some? ==> parent.value < |nodes|)
    ensures var r := Added(nodes, kind, parent, 0, start, end);
            && Grows(nodes, r) && |r| == |nodes| + 1 && r[|nodes|].kind == kind
            && forall k :: |nodes| <= k < |r| ==> !r[k].kind.Heading?
  {
    AddedKeeps(nodes, kind, parent, 0, start, end);
  }

  lemma {:induction false} GrowsOn(a: seq<Node>, b: seq<Node>, c: seq<Node>)
    requires Grows(a, b) && Grows(b, c)
    requires forall k :: |a| <= k < |b| ==> !b[k].kind.Heading?
    requires forall k :: |b| <= k < |c| ==> !c[k].kind.Heading?
    ensures Grows(a, c) && forall k :: |a| <= k < |c| ==> !c[k].kind.Heading?
  {
  }

  /** Other blocks add no headings. */
  lemma {:induction false} OtherGrows(d: Document, block: Block)
    requires InRange(d) && IsBlock(block) && !block.HeadingLine?
    ensures var r := BlockAdded(d, block).nodes;
            Grows(d.nodes, r) && forall k :: |d.nodes| <= k < |r| ==> !r[k].kind.Heading?
  {
    var nodes := d.nodes;
    match block
    case Gap(_, _) =>
    case Leaf(start, end, kind) => LeafGrows(nodes, kind, d.current, start, end);
    case Styled(start, end, kind) =>
      var next := start + 1;
      var attributed := Added(nodes, BlockAttribute, d.current, 0, start, next);
      LeafGrows(nodes, BlockAttribute, d.current, start, next);
      LeafGrows(attributed, kind, d.current, start, end);
      GrowsOn(nodes, attributed, Added(attributed, kind, d.current, 0, start, end));
    case TableOf(start, end, rows) =>
      var added := Added(nodes, Table, d.current, 0, start, end);
      LeafGrows(nodes, Table, d.current, start, end);
      RowsGrow(added, |nodes|, rows);
      GrowsOn(nodes, added, RowsAdded(added, |nodes|, rows));
    case ListOf(start, end, items) =>
      var added := Added(nodes, List, d.current, 0, start, end);
      LeafGrows(nodes, List, d.current, start, end);
      ItemsGrow(added, |nodes|, items);
      GrowsOn(nodes, added, ItemsAdded(added, |nodes|, items));
    case Text(start, end, inlines) =>
      var added := Added(nodes, Paragraph, d.current, 0, start, end);
      LeafGrows(nodes, Paragraph, d.current, start, end);
      InlinesGrow(added, |nodes|, inlines, start, end);
      GrowsOn(nodes, added, InlinesAdded(added, |nodes|, inlines, start, end));
  }

  lemma {:induction false} HeadingFits(lines: seq<string>, d: Document, line: nat, level: nat, later: nat)
    requires InRange(d) && HeadingsFit(lines, d.nodes, line) && line < |lines| && IsHeading(lines[line], level)
    requires line < later
    ensures var r := HeadingAdded(d, line, line + 1, level).nodes;
            && HeadingsFit(lines, r, later) && HasNode(r, line, level)
            && forall other, wanted :: HasNode(d.nodes, other, wanted) ==> HasNode(r, other, wanted)
  {
    LastOpenInRange(d, level);
    var parent, end, n := LastOpen(Closed(d.headings, level)), line + 1, |d.nodes|;
    var r := HeadingAdded(d, line, end, level).nodes;
    AddedKeeps(d.nodes, Heading, parent, level, line, end);
    assert r[n].kind.Heading? && r[n].start == line && r[n].level == level;
    forall other, wanted | HasNode(d.nodes, other, wanted) ensures HasNode(r, other, wanted) {
      var i :| 0 <= i < |d.nodes| && d.nodes[i].kind.Heading? && d.nodes[i].start == other && d.nodes[i].level == wanted;
      assert r[i].kind.Heading? && r[i].start == other && r[i].level == wanted;
    }
  }

  /** Blocks that follow one another up to a line. */
  ghost predicate InRow(blocks: seq<Block>, end: nat) {
    && (forall k :: 0 <= k < |blocks| ==> blocks[k].start < blocks[k].end <= end)
    && (forall k, l :: 0 <= k < l < |blocks| ==> blocks[k].end <= blocks[l].start)
  }

  lemma {:induction false} TilesInRow(blocks: seq<Block>, start: nat, end: nat)
    requires BlocksTile(blocks, start, end)
    ensures InRow(blocks, end) && forall k :: 0 <= k < |blocks| ==> start <= blocks[k].start
  {
    if blocks != [] {
      var rest := blocks[1..];
      TilesInRow(rest, blocks[0].end, end);
      assert forall k :: 0 < k < |blocks| ==> blocks[k] == rest[k - 1];
      if rest != [] {
        assert rest[0].start < rest[0].end <= end;
      }
    }
  }

  /** The blocks that are headings have their nodes. */
  ghost predicate AllHaveNodes(lines: seq<string>, blocks: seq<Block>, nodes: seq<Node>) {
    forall k, level :: 0 <= k < |blocks| && blocks[k].start < |lines| && IsHeading(lines[blocks[k].start], level) ==>
      HasNode(nodes, blocks[k].start, level)
  }

  /** What one more block does for headings. */
  ghost predicate HeadingsGo(lines: seq<string>, nodes: seq<Node>, block: Block, r: seq<Node>, end: nat)
    requires block.start < |lines|
  {
    && HeadingsFit(lines, r, end)
    && (forall line, level :: HasNode(nodes, line, level) ==> HasNode(r, line, level))
    && forall level :: IsHeading(lines[block.start], level) ==> HasNode(r, block.start, level)
  }

  lemma {:induction false} HeadingBlockFits(lines: seq<string>, d: Document, block: Block, end: nat)
    requires InRange(d) && BlockFits(lines, block) && HeadingsFit(lines, d.nodes, block.start) && block.start < end
    requires block.HeadingLine?
    ensures HeadingsGo(lines, d.nodes, block, BlockAdded(d, block).nodes, end)
  {
    var start, level := block.start, block.level;
    assert IsHeadingBlock(block, level);
    HeadingFits(lines, d, start, level, end);
    var r := HeadingAdded(d, start, start + 1, level).nodes;
    assert BlockAdded(d, block).nodes == r;
    forall other | IsHeading(lines[start], other) ensures HasNode(r, start, other) {
      assert IsHeadingBlock(block, other);
    }
  }

  lemma {:induction false} OtherBlockFits(lines: seq<string>, d: Document, block: Block, end: nat)
    requires InRange(d) && BlockFits(lines, block) && HeadingsFit(lines, d.nodes, block.start) && block.start < end
    requires !block.HeadingLine?
    ensures HeadingsGo(lines, d.nodes, block, BlockAdded(d, block).nodes, end)
  {
    OtherGrows(d, block);
    NoMoreHeadings(lines, d.nodes, BlockAdded(d, block).nodes, block.start, end);
  }

  lemma {:induction false} ParsedHeadingsFit(lines: seq<string>, blocks: seq<Block>, end: nat)
    requires InRow(blocks, end) && AllFit(lines, blocks)
    ensures HeadingsFit(lines, Parsed(blocks).nodes, end) && AllHaveNodes(lines, blocks, Parsed(blocks).nodes)
  {
    if blocks != [] {
      var front, last := blocks[..|blocks| - 1], blocks[|blocks| - 1];
      ParsedHeadingsFit(lines, front, last.start);
      if last.HeadingLine? {
        HeadingBlockFits(lines, Parsed(front), last, end);
      } else {
        OtherBlockFits(lines, Parsed(front), last, end);
      }
      assert Parsed(blocks) == BlockAdded(Parsed(front), last);
      forall k, level | 0 <= k < |blocks| && blocks[k].start < |lines| && IsHeading(lines[blocks[k].start], level)
        ensures HasNode(Parsed(blocks).nodes, blocks[k].start, level)
      {
        if k < |front| {
          assert blocks[k] == front[k];
        }
      }
    }
  }

  /** The nearest heading node before another with fewer equals signs, if there is one, is its parent. */
  ghost predicate NestsByCounting(nodes: seq<Node>, i: nat)
    requires i < |nodes|
  {
    match nodes[i].parent
    case None => forall k :: 0 <= k < i && nodes[k].kind.Heading? ==> nodes[k].level >= nodes[i].level
    case Some(h) =>
      && h < i && nodes[h].kind.Heading? && nodes[h].level < nodes[i].level
      && forall k :: h < k < i && nodes[k].kind.Heading? ==> nodes[k].level >= nodes[i].level
  }

  /**
   For every text: headings are the lines spelled with one to six equals signs that
   start a block, each with a node of that level, in order; and a heading stands
   under the nearest one before it that has fewer equals signs.
   */
  lemma {:induction false} HeadingsNestByCounting(
    lines: seq<string>, retainComments: bool, inlines: map<nat, seq<string>>)
    ensures var blocks := BlocksOf(lines, retainComments, inlines);
            var nodes := Parsed(blocks).nodes;
            && AllFit(lines, blocks) && AllHaveNodes(lines, blocks, nodes) && HeadingsFit(lines, nodes, |lines|)
            && forall i :: 0 <= i < |nodes| && nodes[i].kind.Heading? ==> NestsByCounting(nodes, i)
  {
    ShapesAreShapes(lines);
    var blocks := BlocksOf(lines, retainComments, inlines);
    BlocksTileLines(ShapesOf(lines), 0, retainComments, inlines);
    TilesInRow(blocks, 0, |lines|);
    BlocksFit(lines, 0, retainComments, inlines);
    ParsedHeadingsFit(lines, blocks, |lines|);
    DocumentIsRight(blocks);
    var nodes := Parsed(blocks).nodes;
    forall i | 0 <= i < |nodes| && nodes[i].kind.Heading? ensures NestsByCounting(nodes, i) {
      assert RightParent(nodes, i);
      EnclosingIsNearest(nodes, i, nodes[i].level);
    }
  }
}
