/** The blocks of a document: what starts on a line, and how far it reaches. */
module AsciiDocBlocks {
  import opened Wrappers
  import opened AsciiDocTree

  /** What the recognisers say of one line; `style` and `macro` are the kinds of node they lead to. */
  datatype Shape = Shape(
    blank: bool, heading: Option<nat>, attribute: bool, comment: bool, commentMark: bool, style: Option<Kind>,
    directive: Option<Kind>, tableMark: bool, delimiter: Option<string>, anchor: bool, transition: bool, listLine: bool,
    malformed: bool, indentation: nat, cells: nat)

  predicate IsShape(s: Shape) {
    && (s.style.Some? ==> s.style.value in {CodeBlock, LiteralBlock, RawBlock})
    && (s.directive.Some? ==> s.directive.value in {Include, Directive, RawBlock})
  }

  /** A line that ends a paragraph. */
  predicate EndsParagraph(s: Shape) {
    || s.blank || s.heading.Some? || s.attribute || s.style.Some? || s.directive.Some? || s.delimiter.Some?
    || s.tableMark || s.anchor || s.comment || s.listLine
  }

  // ---------------------------------------------------------------------------
  // Extents

  datatype Mark = CommentMark | TableMark | DelimiterMark(delimiter: string)

  predicate IsMark(s: Shape, mark: Mark) {
    match mark
    case CommentMark => s.commentMark
    case TableMark => s.tableMark
    case DelimiterMark(delimiter) => s.delimiter == Some(delimiter)
  }

  datatype Extent = Extent(end: nat, closed: bool)

  /** From `cursor` on, the end after the first line that is a mark. */
  function MarkedExtent(lines: seq<Shape>, cursor: nat, mark: Mark): (extent: Extent)
    requires cursor <= |lines|
    ensures cursor <= extent.end <= |lines|
    decreases |lines| - cursor
  {
    if cursor == |lines| then Extent(cursor, false)
    else if IsMark(lines[cursor], mark) then Extent(cursor + 1, true)
    else MarkedExtent(lines, cursor + 1, mark)
  }

  /** A block is closed exactly by the first line that is its mark; without one it takes all lines. */
  lemma {:induction false} ClosedByFirstMark(lines: seq<Shape>, cursor: nat, mark: Mark)
    requires cursor <= |lines|
    ensures var extent := MarkedExtent(lines, cursor, mark);
            if extent.closed
            then cursor < extent.end && IsMark(lines[extent.end - 1], mark)
                 && forall k :: cursor <= k < extent.end - 1 ==> !IsMark(lines[k], mark)
            else extent.end == |lines| && forall k :: cursor <= k < |lines| ==> !IsMark(lines[k], mark)
    decreases |lines| - cursor
  {
    if cursor < |lines| && !IsMark(lines[cursor], mark) {
      ClosedByFirstMark(lines, cursor + 1, mark);
    }
  }

  method DelimitedExtent(lines: seq<Shape>, start: nat, mark: Mark) returns (end: nat, closed: bool)
    requires start < |lines|
    ensures Extent(end, closed) == MarkedExtent(lines, start + 1, mark)
  {
    var first := start + 1;
    var cursor := first;
    while cursor < |lines|
      invariant first <= cursor <= |lines|
      invariant MarkedExtent(lines, cursor, mark) == MarkedExtent(lines, first, mark)
    {
      if IsMark(lines[cursor], mark) {
        return cursor + 1, true;
      }
      cursor := cursor + 1;
    }
    return |lines|, false;
  }

  function CommentEnd(lines: seq<Shape>, start: nat): (end: nat)
    requires start < |lines|
    ensures start < end <= |lines|
  {
    if !lines[start].commentMark then start + 1 else MarkedExtent(lines, start + 1, CommentMark).end
  }

  method CommentExtent(lines: seq<Shape>, start: nat) returns (end: nat)
    requires start < |lines|
    ensures end == CommentEnd(lines, start)
  {
    if !lines[start].commentMark {
      return start + 1;
    }
    var closed: bool;
    end, closed := DelimitedExtent(lines, start, CommentMark);
  }

  predicate Continues(s: Shape, base: nat) {
    s.blank || s.indentation > base
  }

  function ItemEnd(lines: seq<Shape>, cursor: nat, base: nat): (end: nat)
    requires cursor <= |lines|
    ensures cursor <= end <= |lines|
    decreases |lines| - cursor
  {
    if cursor < |lines| && Continues(lines[cursor], base) then ItemEnd(lines, cursor + 1, base) else cursor
  }

  predicate StartsItem(s: Shape, base: nat) {
    s.listLine && s.indentation == base
  }

  /** The items of a list from a line on, each with the inline elements found in it. */
  function Items(lines: seq<Shape>, cursor: nat, base: nat, inlines: map<nat, seq<string>>): (items: seq<Item>)
    requires cursor <= |lines|
    ensures forall k :: 0 <= k < |items| ==> cursor <= items[k].start < items[k].end <= |lines|
    decreases |lines| - cursor
  {
    if cursor == |lines| || !StartsItem(lines[cursor], base) then []
    else
      var end := ItemEnd(lines, cursor + 1, base);
      [Item(cursor, end, InlinesAt(inlines, cursor))] + Items(lines, end, base, inlines)
  }

  /** The inline elements of the item or paragraph that starts on a line. */
  function InlinesAt(inlines: map<nat, seq<string>>, line: nat): seq<string> {
    if line in inlines then inlines[line] else []
  }

  function ItemsEnd(items: seq<Item>, start: nat): nat {
    if items == [] then start else items[|items| - 1].end
  }

  lemma {:induction false} ItemsStep(lines: seq<Shape>, cursor: nat, base: nat, inlines: map<nat, seq<string>>)
    requires cursor < |lines| && StartsItem(lines[cursor], base)
    ensures var next := cursor + 1;
            var end := ItemEnd(lines, next, base);
            Items(lines, cursor, base, inlines) ==
            [Item(cursor, end, InlinesAt(inlines, cursor))] + Items(lines, end, base, inlines)
  {
  }

  method ItemExtent(lines: seq<Shape>, start: nat, base: nat) returns (end: nat)
    requires start < |lines|
    ensures var next := start + 1; end == ItemEnd(lines, next, base)
  {
    end := start + 1;
    ghost var expected := ItemEnd(lines, end, base);
    while end < |lines| && (lines[end].blank || lines[end].indentation > base)
      invariant start < end <= |lines| && ItemEnd(lines, end, base) == expected
    {
      end := end + 1;
    }
  }

  method ListExtent(lines: seq<Shape>, start: nat, inlines: map<nat, seq<string>>)
    returns (end: nat, items: seq<Item>)
    requires start < |lines|
    ensures items == Items(lines, start, lines[start].indentation, inlines) && end == ItemsEnd(items, start)
    ensures start <= end <= |lines|
  {
    var base := lines[start].indentation;
    ghost var all := Items(lines, start, base, inlines);
    var cursor := start;
    items := [];
    while cursor < |lines|
      invariant start <= cursor <= |lines| && cursor == ItemsEnd(items, start)
      invariant items + Items(lines, cursor, base, inlines) == all
    {
      if !StartsItem(lines[cursor], base) {
        break;
      }
      ghost var before := items;
      ItemsStep(lines, cursor, base, inlines);
      var next := ItemExtent(lines, cursor, base);
      ghost var rest := Items(lines, next, base, inlines);
      var item := Item(cursor, next, InlinesAt(inlines, cursor));
      items := items + [item];
      JoinOne(before, item, rest);
      cursor := next;
    }
    assert items + [] == items;
    end := cursor;
  }

  function ParagraphEnd(lines: seq<Shape>, cursor: nat): (end: nat)
    requires cursor <= |lines|
    ensures cursor <= end <= |lines|
    ensures forall k :: cursor <= k < end ==> !EndsParagraph(lines[k])
    ensures end < |lines| ==> EndsParagraph(lines[end])
    decreases |lines| - cursor
  {
    if cursor < |lines| && !EndsParagraph(lines[cursor]) then ParagraphEnd(lines, cursor + 1) else cursor
  }

  method ParagraphExtent(lines: seq<Shape>, start: nat) returns (end: nat)
    requires start < |lines|
    ensures end == ParagraphEnd(lines, start + 1)
  {
    var first := start + 1;
    end := first;
    while end < |lines|
      invariant first <= end <= |lines| && ParagraphEnd(lines, end) == ParagraphEnd(lines, first)
    {
      if EndsParagraph(lines[end]) {
        break;
      }
      end := end + 1;
    }
  }

  /** The rows of a table: the lines that have cells. */
  function Rows(lines: seq<Shape>, cursor: nat, end: nat): seq<Row>
    requires cursor <= end <= |lines|
    decreases end - cursor
  {
    if cursor == end then []
    else
      (if lines[cursor].cells > 0 then [Row(cursor, lines[cursor].cells)] else []) + Rows(lines, cursor + 1, end)
  }

  method TableRows(lines: seq<Shape>, start: nat, end: nat) returns (rows: seq<Row>)
    requires start <= end <= |lines|
    ensures rows == Rows(lines, start, end)
  {
    rows := [];
    ghost var all := Rows(lines, start, end);
    var cursor := start;
    while cursor < end
      invariant start <= cursor <= end && rows + Rows(lines, cursor, end) == all
    {
      ghost var before, next := rows, cursor + 1;
      ghost var rest := Rows(lines, next, end);
      if lines[cursor].cells > 0 {
        rows := rows + [Row(cursor, lines[cursor].cells)];
        JoinOne(before, Row(cursor, lines[cursor].cells), rest);
      } else {
        assert Rows(lines, cursor, end) == [] + rest == rest;
      }
      cursor := cursor + 1;
    }
    assert rows + [] == rows;
  }

  // ---------------------------------------------------------------------------
  // The block that starts on a line

  function DelimiterKind(delimiter: string): Kind {
    if delimiter == "----" then CodeBlock else if delimiter == "...." then LiteralBlock else RawBlock
  }

  /** A table without an end, or without rows, is kept as raw source. */
  function TableAt(lines: seq<Shape>, start: nat): Block
    requires start < |lines|
  {
    var end := MarkedExtent(lines, start + 1, TableMark).end;
    var closed := end > start + 1 && lines[end - 1].tableMark;
    var rows := if closed then Rows(lines, start + 1, end - 1) else [];
    if rows == [] then Leaf(start, end, RawBlock) else TableOf(start, end, rows)
  }

  function ListAt(lines: seq<Shape>, start: nat, inlines: map<nat, seq<string>>): Block
    requires start < |lines|
  {
    var items := Items(lines, start, lines[start].indentation, inlines);
    ListOf(start, ItemsEnd(items, start), items)
  }

  function BlockAt(lines: seq<Shape>, at: nat, retainComments: bool, inlines: map<nat, seq<string>>): Block
    requires at < |lines|
  {
    var line := lines[at];
    if line.blank then Gap(at, at + 1)
    else if line.heading.Some? then HeadingLine(at, at + 1, line.heading.value)
    else if line.attribute then Leaf(at, at + 1, Attribute)
    else if line.comment then
      if retainComments then Leaf(at, CommentEnd(lines, at), Comment) else Gap(at, CommentEnd(lines, at))
    else if line.style.Some? then
      if at + 1 < |lines| && lines[at + 1].delimiter.Some? then
        Styled(at, MarkedExtent(lines, at + 2, DelimiterMark(lines[at + 1].delimiter.value)).end, line.style.value)
      else Leaf(at, at + 1, BlockAttribute)
    else if line.directive.Some? then Leaf(at, at + 1, line.directive.value)
    else if line.tableMark then TableAt(lines, at)
    else if line.delimiter.Some? then
      Leaf(at, MarkedExtent(lines, at + 1, DelimiterMark(line.delimiter.value)).end, DelimiterKind(line.delimiter.value))
    else if line.anchor then Leaf(at, at + 1, Target)
    else if line.transition then Leaf(at, at + 1, Transition)
    else if line.listLine then ListAt(lines, at, inlines)
    else if line.malformed then Leaf(at, at + 1, RawBlock)
    else Text(at, ParagraphEnd(lines, at + 1), InlinesAt(inlines, at))
  }

  predicate BlockOk(block: Block, at: nat, end: nat) {
    block.start == at < block.end <= end && IsBlock(block)
  }

  lemma {:induction false} ListAdvances(lines: seq<Shape>, at: nat, inlines: map<nat, seq<string>>)
    requires at < |lines| && lines[at].listLine
    ensures BlockOk(ListAt(lines, at, inlines), at, |lines|)
  {
    ItemsStep(lines, at, lines[at].indentation, inlines);
    var items := Items(lines, at, lines[at].indentation, inlines);
    assert at <= items[|items| - 1].start;
  }

  lemma {:induction false} StyledAdvances(lines: seq<Shape>, at: nat, retainComments: bool, inlines: map<nat, seq<string>>)
    requires at < |lines| && IsShape(lines[at])
    requires !(lines[at].blank || lines[at].heading.Some? || lines[at].attribute || lines[at].comment)
    requires lines[at].style.Some?
    ensures BlockOk(BlockAt(lines, at, retainComments, inlines), at, |lines|)
  {
  }

  /** Every block starts where it is looked for, takes at least that line, and is of a known kind. */
  lemma {:induction false} BlockAdvances(lines: seq<Shape>, at: nat, retainComments: bool, inlines: map<nat, seq<string>>)
    requires at < |lines| && IsShape(lines[at])
    ensures BlockOk(BlockAt(lines, at, retainComments, inlines), at, |lines|)
  {
    var line := lines[at];
    if line.blank || line.heading.Some? || line.attribute || line.comment {
    } else if line.style.Some? {
      StyledAdvances(lines, at, retainComments, inlines);
    } else if line.listLine {
      ListAdvances(lines, at, inlines);
    }
  }

  /** The blocks from a line on; together they take every line once. */
  function BlocksFrom(lines: seq<Shape>, at: nat, retainComments: bool, inlines: map<nat, seq<string>>): seq<Block>
    requires at <= |lines| && forall k :: 0 <= k < |lines| ==> IsShape(lines[k])
    decreases |lines| - at
  {
    if at == |lines| then []
    else
      BlockAdvances(lines, at, retainComments, inlines);
      var block := BlockAt(lines, at, retainComments, inlines);
      [block] + BlocksFrom(lines, block.end, retainComments, inlines)
  }

  /** Blocks that follow one another from one line to another. */
  predicate BlocksTile(blocks: seq<Block>, start: nat, end: nat) {
    if blocks == [] then start == end
    else blocks[0].start == start < blocks[0].end && BlocksTile(blocks[1..], blocks[0].end, end)
  }

  lemma {:induction false} BlocksTileLines(lines: seq<Shape>, at: nat, retainComments: bool, inlines: map<nat, seq<string>>)
    requires at <= |lines| && forall k :: 0 <= k < |lines| ==> IsShape(lines[k])
    ensures var blocks := BlocksFrom(lines, at, retainComments, inlines);
            BlocksTile(blocks, at, |lines|) && forall k :: 0 <= k < |blocks| ==> IsBlock(blocks[k])
    decreases |lines| - at
  {
    if at < |lines| {
      BlockAdvances(lines, at, retainComments, inlines);
      BlocksTileLines(lines, BlockAt(lines, at, retainComments, inlines).end, retainComments, inlines);
    }
  }
}
