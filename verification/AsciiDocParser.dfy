/** The block parser as it runs: a cursor over the lines, a node builder, and a stack of open headings. */
module AsciiDocParser {
  import opened Wrappers
  import opened AsciiDocTree
  import opened AsciiDocBlocks
  import opened AsciiDocLines

  class NodeBuilder {
    var nodes: seq<Node>

    constructor ()
      ensures nodes == []
    {
      nodes := [];
    }

    /** Children are nodes already pushed. */
    ghost predicate Valid()
      reads this
    {
      forall p, k :: 0 <= p < |nodes| && 0 <= k < |nodes[p].children| ==> nodes[p].children[k] < |nodes|
    }

    method Push(kind: Kind, start: nat, end: nat, parent: Option<nat>) returns (node: nat)
      requires Valid()
      modifies this
      ensures Valid() && node == old(|nodes|) && nodes == old(nodes) + [Node(kind, parent, [], 0, start, end)]
    {
      node := |nodes|;
      nodes := nodes + [Node(kind, parent, [], 0, start, end)];
    }

    method LinkChild(parent: nat, child: nat)
      requires Valid() && parent < |nodes| && child < |nodes|
      modifies this
      ensures Valid()
      ensures var named := old(nodes)[child := old(nodes)[child].(parent := Some(parent))];
              nodes == named[parent := named[parent].(children := named[parent].children + [child])]
    {
      nodes := nodes[child := nodes[child].(parent := Some(parent))];
      nodes := nodes[parent := nodes[parent].(children := nodes[parent].children + [child])];
    }

    method AttachToParent(parent: Option<nat>, child: nat)
      requires Valid() && child < |nodes| && (parent.Some? ==> parent.value < |nodes|)
      modifies this
      ensures Valid()
      ensures match parent
              case None => nodes == old(nodes)
              case Some(p) =>
                if child in old(nodes)[p].children then nodes == old(nodes)
                else nodes == old(nodes)[p := old(nodes)[p].(children := old(nodes)[p].children + [child])]
    {
      if parent.Some? && child !in nodes[parent.value].children {
        var p := parent.value;
        nodes := nodes[p := nodes[p].(children := nodes[p].children + [child])];
      }
    }

    /** A new node, listed by the parent it names. */
    method PushAttached(kind: Kind, start: nat, end: nat, parent: Option<nat>) returns (node: nat)
      requires Valid() && (parent.Some? ==> parent.value < |nodes|)
      modifies this
      ensures Valid() && node == old(|nodes|) && nodes == Added(old(nodes), kind, parent, 0, start, end)
    {
      node := Push(kind, start, end, parent);
      AttachToParent(parent, node);
    }

    /** A new node inside another. */
    method PushLinked(kind: Kind, start: nat, end: nat, parent: nat) returns (node: nat)
      requires Valid() && parent < |nodes|
      modifies this
      ensures Valid() && node == old(|nodes|) && nodes == Added(old(nodes), kind, Some(parent), 0, start, end)
    {
      node := Push(kind, start, end, Some(parent));
      LinkChild(parent, node);
    }

    method SetLevel(node: nat, level: nat)
      requires Valid() && node < |nodes|
      modifies this
      ensures Valid() && nodes == old(nodes)[node := old(nodes)[node].(level := level)]
    {
      nodes := nodes[node := nodes[node].(level := level)];
    }

    method AddInlineChildren(parent: nat, inlines: seq<string>, start: nat, end: nat)
      requires Valid() && parent < |nodes|
      modifies this
      ensures Valid() && nodes == InlinesAdded(old(nodes), parent, inlines, start, end)
    {
      for i := 0 to |inlines|
        invariant Valid() && nodes == InlinesAdded(old(nodes), parent, inlines[..i], start, end)
      {
        assert inlines[..i + 1][..i] == inlines[..i];
        var child := PushLinked(Inline(inlines[i]), start, end, parent);
      }
      assert inlines[..|inlines|] == inlines;
    }

    method AddItems(list: nat, items: seq<Item>)
      requires Valid() && list < |nodes|
      modifies this
      ensures Valid() && nodes == ItemsAdded(old(nodes), list, items)
    {
      for i := 0 to |items|
        invariant Valid() && nodes == ItemsAdded(old(nodes), list, items[..i])
      {
        assert items[..i + 1][..i] == items[..i];
        ghost var before := nodes;
        var item := PushLinked(ListItem, items[i].start, items[i].end, list);
        AddInlineChildren(item, items[i].inlines, items[i].start, items[i].end);
        assert nodes == ItemAdded(before, list, items[i]);
      }
      assert items[..|items|] == items;
    }

    method AddCells(row: nat, cells: nat, line: nat)
      requires Valid() && row < |nodes|
      modifies this
      ensures Valid() && nodes == CellsAdded(old(nodes), row, cells, line)
    {
      for i := 0 to cells
        invariant Valid() && nodes == CellsAdded(old(nodes), row, i, line)
      {
        var cell := PushLinked(TableCell, line, line + 1, row);
      }
    }

    method AddTableNodes(table: nat, rows: seq<Row>)
      requires Valid() && table < |nodes|
      modifies this
      ensures Valid() && nodes == RowsAdded(old(nodes), table, rows)
    {
      for i := 0 to |rows|
        invariant Valid() && nodes == RowsAdded(old(nodes), table, rows[..i])
      {
        assert rows[..i + 1][..i] == rows[..i];
        ghost var before := nodes;
        var row := PushLinked(TableRow, rows[i].line, rows[i].line + 1, table);
        AddCells(row, rows[i].cells, rows[i].line);
        assert nodes == RowAdded(before, table, rows[i]);
      }
      assert rows[..|rows|] == rows;
    }
  }

  method ReadTable(lines: seq<Shape>, start: nat) returns (block: Block)
    requires start < |lines|
    ensures block == TableAt(lines, start)
  {
    var end, _ := DelimitedExtent(lines, start, TableMark);
    if !(end > start + 1 && lines[end - 1].tableMark) {
      return Leaf(start, end, RawBlock);
    }
    var first, last := start + 1, end - 1;
    var rows := TableRows(lines, first, last);
    block := if rows == [] then Leaf(start, end, RawBlock) else TableOf(start, end, rows);
  }

  method ReadStyled(lines: seq<Shape>, at: nat, style: Kind) returns (block: Block)
    requires at < |lines|
    ensures block ==
            if at + 1 < |lines| && lines[at + 1].delimiter.Some? then
              Styled(at, MarkedExtent(lines, at + 2, DelimiterMark(lines[at + 1].delimiter.value)).end, style)
            else Leaf(at, at + 1, BlockAttribute)
  {
    var next := at + 1;
    if next < |lines| && lines[next].delimiter.Some? {
      var end, _ := DelimitedExtent(lines, next, DelimiterMark(lines[next].delimiter.value));
      return Styled(at, end, style);
    }
    return Leaf(at, next, BlockAttribute);
  }

  /** What starts on a line; the order of the questions decides. */
  method ReadBlock(lines: seq<Shape>, at: nat, retainComments: bool, inlines: map<nat, seq<string>>)
    returns (block: Block)
    requires at < |lines|
    ensures block == BlockAt(lines, at, retainComments, inlines)
  {
    var line, next := lines[at], at + 1;
    if line.blank {
      block := Gap(at, next);
    } else if line.heading.Some? {
      block := HeadingLine(at, next, line.heading.value);
    } else if line.attribute {
      block := Leaf(at, next, Attribute);
    } else if line.comment {
      var end := CommentExtent(lines, at);
      block := if retainComments then Leaf(at, end, Comment) else Gap(at, end);
    } else if line.style.Some? {
      block := ReadStyled(lines, at, line.style.value);
    } else if line.directive.Some? {
      block := Leaf(at, next, line.directive.value);
    } else if line.tableMark {
      block := ReadTable(lines, at);
    } else if line.delimiter.Some? {
      var end, _ := DelimitedExtent(lines, at, DelimiterMark(line.delimiter.value));
      block := Leaf(at, end, DelimiterKind(line.delimiter.value));
    } else if line.anchor {
      block := Leaf(at, next, Target);
    } else if line.transition {
      block := Leaf(at, next, Transition);
    } else if line.listLine {
      var end, items := ListExtent(lines, at, inlines);
      block := ListOf(at, end, items);
    } else if line.malformed {
      block := Leaf(at, next, RawBlock);
    } else {
      var end := ParagraphExtent(lines, at);
      block := Text(at, end, InlinesAt(inlines, at));
    }
  }

  /** Closes the headings of this level or deeper, and opens one under what is left. */
  method AddHeading(builder: NodeBuilder, headings: seq<Open>, start: nat, end: nat, level: nat,
                    ghost before: Document)
    returns (headings': seq<Open>, current: Option<nat>)
    requires builder.Valid() && InRange(before) && before.nodes == builder.nodes && before.headings == headings
    modifies builder
    ensures builder.Valid()
    ensures Document(builder.nodes, headings', current) == HeadingAdded(before, start, end, level)
  {
    headings' := headings;
    while headings' != [] && headings'[|headings'| - 1].level >= level
      invariant headings' <= headings && Closed(headings', level) == Closed(headings, level)
    {
      headings' := headings'[..|headings'| - 1];
    }
    var parent := LastOpen(headings');
    var node := builder.PushAttached(Heading, start, end, parent);
    builder.SetLevel(node, level);
    headings', current := headings' + [Open(level, node)], Some(node);
  }

  /** Adds the nodes of a block that is not a heading. */
  method AddOther(builder: NodeBuilder, current: Option<nat>, block: Block, ghost before: Document)
    requires builder.Valid() && InRange(before) && before.nodes == builder.nodes && before.current == current
    requires !block.HeadingLine?
    modifies builder
    ensures builder.Valid() && BlockAdded(before, block) == before.(nodes := builder.nodes)
  {
    match block {
      case Gap(_, _) =>
      case Leaf(start, end, kind) =>
        var node := builder.PushAttached(kind, start, end, current);
      case Styled(start, end, kind) =>
        var attribute := builder.PushAttached(BlockAttribute, start, start + 1, current);
        var node := builder.PushAttached(kind, start, end, current);
      case TableOf(start, end, rows) =>
        var table := builder.PushAttached(Table, start, end, current);
        builder.AddTableNodes(table, rows);
      case ListOf(start, end, items) =>
        var list := builder.PushAttached(List, start, end, current);
        builder.AddItems(list, items);
      case Text(start, end, inlines) =>
        var paragraph := builder.PushAttached(Paragraph, start, end, current);
        builder.AddInlineChildren(paragraph, inlines, start, end);
    }
  }

  method AddBlock(builder: NodeBuilder, headings: seq<Open>, current: Option<nat>, block: Block, ghost before: Document)
    returns (headings': seq<Open>, current': Option<nat>)
    requires builder.Valid() && InRange(before) && before == Document(builder.nodes, headings, current)
    modifies builder
    ensures builder.Valid() && Document(builder.nodes, headings', current') == BlockAdded(before, block)
  {
    headings', current' := headings, current;
    if block.HeadingLine? {
      headings', current' := AddHeading(builder, headings, block.start, block.end, block.level, before);
    } else {
      AddOther(builder, current, block, before);
    }
  }

  method ParseShapes(shapes: seq<Shape>, retainComments: bool, inlines: map<nat, seq<string>>)
    returns (nodes: seq<Node>)
    requires forall k :: 0 <= k < |shapes| ==> IsShape(shapes[k])
    ensures nodes == Parsed(BlocksFrom(shapes, 0, retainComments, inlines)).nodes
  {
    var builder := new NodeBuilder();
    var headings: seq<Open> := [];
    var current: Option<nat> := None;
    var cursor := 0;
    ghost var done: seq<Block> := [];
    ghost var all := BlocksFrom(shapes, 0, retainComments, inlines);
    while cursor < |shapes|
      invariant cursor <= |shapes| && builder.Valid() && fresh(builder)
      invariant done + BlocksFrom(shapes, cursor, retainComments, inlines) == all
      invariant Document(builder.nodes, headings, current) == Parsed(done)
      decreases |shapes| - cursor
    {
      var block := ReadBlock(shapes, cursor, retainComments, inlines);
      BlockAdvances(shapes, cursor, retainComments, inlines);
      ghost var rest := BlocksFrom(shapes, block.end, retainComments, inlines);
      headings, current := AddBlock(builder, headings, current, block, Parsed(done));
      ParsedStep(done, block);
      JoinOne(done, block, rest);
      assert BlocksFrom(shapes, cursor, retainComments, inlines) == [block] + rest;
      done := done + [block];
      cursor := block.end;
    }
    assert done + [] == done;
    nodes := builder.nodes;
  }

  /** The blocks of a document, by its lines. */
  function BlocksOf(lines: seq<string>, retainComments: bool, inlines: map<nat, seq<string>>): seq<Block> {
    ShapesAreShapes(lines);
    BlocksFrom(ShapesOf(lines), 0, retainComments, inlines)
  }

  /** The nodes of a document; `inlines` are the inline elements found in the item or paragraph that starts on a line. */
  method ParseNodes(lines: seq<string>, retainComments: bool, inlines: map<nat, seq<string>>)
    returns (nodes: seq<Node>)
    ensures nodes == Parsed(BlocksOf(lines, retainComments, inlines)).nodes
  {
    ShapesAreShapes(lines);
    nodes := ParseShapes(ShapesOf(lines), retainComments, inlines);
  }

  lemma {:induction false} ParsedStep(blocks: seq<Block>, block: Block)
    ensures Parsed(blocks + [block]) == BlockAdded(Parsed(blocks), block)
  {
    assert (blocks + [block])[..|blocks|] == blocks;
  }

  /** For every text, the blocks take every line once, and the nodes are linked and nested as the document is. */
  lemma {:induction false} ParsedDocumentsAreRight(
    lines: seq<string>, retainComments: bool, inlines: map<nat, seq<string>>)
    ensures var blocks := BlocksOf(lines, retainComments, inlines);
            && BlocksTile(blocks, 0, |lines|)
            && Mirrored(Parsed(blocks).nodes) && RightParents(Parsed(blocks).nodes)
  {
    ShapesAreShapes(lines);
    BlocksTileLines(ShapesOf(lines), 0, retainComments, inlines);
    DocumentIsRight(BlocksOf(lines, retainComments, inlines));
  }
}
