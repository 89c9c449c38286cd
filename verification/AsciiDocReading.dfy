/** What the blocks of a document are, and where each of them ends, said without the steps that find them. */
module AsciiDocReading {
  import opened Wrappers
  import opened AsciiDocTree
  import opened AsciiDocBlocks
  import opened AsciiDocLines
  import opened AsciiDocParser

  // ---------------------------------------------------------------------------
  // What a block should be

  datatype Question =
    | Blank | IsHeading | IsAttribute | IsComment | HasStyle | IsDirective | MarksTable | IsDelimiter | IsAnchor
    | IsTransition | IsListLine | IsMalformed | Otherwise

  /** The place of a question among those that a line is asked. */
  function Rank(question: Question): nat {
    match question
    case Blank => 0
    case IsHeading => 1
    case IsAttribute => 2
    case IsComment => 3
    case HasStyle => 4
    case IsDirective => 5
    case MarksTable => 6
    case IsDelimiter => 7
    case IsAnchor => 8
    case IsTransition => 9
    case IsListLine => 10
    case IsMalformed => 11
    case Otherwise => 12
  }

  predicate Answers(s: Shape, question: Question) {
    match question
    case Blank => s.blank
    case IsHeading => s.heading.Some?
    case IsAttribute => s.attribute
    case IsComment => s.comment
    case HasStyle => s.style.Some?
    case IsDirective => s.directive.Some?
    case MarksTable => s.tableMark
    case IsDelimiter => s.delimiter.Some?
    case IsAnchor => s.anchor
    case IsTransition => s.transition
    case IsListLine => s.listLine
    case IsMalformed => s.malformed
    case Otherwise => true
  }

  /** The first question that a line answers. */
  ghost predicate AnswersFirst(s: Shape, question: Question) {
    Answers(s, question) && forall other :: Rank(other) < Rank(question) ==> !Answers(s, other)
  }

  /** After the first line from `start` on that is a mark, or after all lines. */
  ghost predicate EndsAfter(lines: seq<Shape>, start: nat, marks: Shape -> bool, end: nat) {
    && start <= end <= |lines| && (forall k :: start <= k < end - 1 ==> !marks(lines[k]))
    && (end < |lines| ==> start < end && marks(lines[end - 1]))
  }

  /** Before the first line from `start` on that stops it, or after all lines. */
  ghost predicate EndsBefore(lines: seq<Shape>, start: nat, stops: Shape -> bool, end: nat) {
    && start <= end <= |lines| && (forall k :: start <= k < end ==> !stops(lines[k]))
    && (end < |lines| ==> stops(lines[end]))
  }

  function IsDelimiterOf(delimiter: Option<string>): Shape -> bool {
    (s: Shape) => s.delimiter == delimiter
  }

  const COMMENT_MARK: Shape -> bool := (s: Shape) => s.commentMark

  const TABLE_MARK: Shape -> bool := (s: Shape) => s.tableMark

  /** Neither blank nor further in than the list. */
  function LeavesItem(base: nat): Shape -> bool {
    (s: Shape) => !s.blank && s.indentation <= base
  }

  const STOPPERS: set<Question> := {
    Blank, IsHeading, IsAttribute, IsComment, HasStyle, IsDirective, MarksTable, IsDelimiter, IsAnchor, IsListLine}

  ghost function StopsParagraph(): Shape -> bool {
    (s: Shape) => exists question :: question in STOPPERS && Answers(s, question)
  }

  /** Exactly the lines with cells, in order. */
  ghost predicate RowsRead(lines: seq<Shape>, start: nat, end: nat, rows: seq<Row>) {
    && (forall i :: 0 <= i < |rows| ==>
          start <= rows[i].line < end && rows[i].line < |lines| && lines[rows[i].line].cells == rows[i].cells > 0)
    && (forall i, j :: 0 <= i < j < |rows| ==> rows[i].line < rows[j].line)
    && (forall k {:trigger Row(k, lines[k].cells)} ::
          start <= k < end && k < |lines| && lines[k].cells > 0 ==> Row(k, lines[k].cells) in rows)
  }

  /** A table has rows and an end; otherwise it is raw. */
  ghost predicate TableReads(lines: seq<Shape>, start: nat, block: Block)
    requires start < |lines|
  {
    var next := start + 1;
    && block.start == start && EndsAfter(lines, next, TABLE_MARK, block.end)
    && var closed := next < block.end && lines[block.end - 1].tableMark;
       var last := if closed then block.end - 1 else next;
       if exists k :: next <= k < last && lines[k].cells > 0
       then block.TableOf? && RowsRead(lines, next, last, block.rows)
       else block == Leaf(start, block.end, RawBlock)
  }

  /** Items that follow one another, each a list line no further in or out than the first and what goes on with it. */
  ghost predicate ItemsRead(
    lines: seq<Shape>, start: nat, base: nat, items: seq<Item>, end: nat, inlines: map<nat, seq<string>>)
    requires start <= |lines|
    decreases |items|
  {
    if items == [] then end == start && (start < |lines| ==> !(lines[start].listLine && lines[start].indentation == base))
    else
      var item, next := items[0], start + 1;
      && item.start == start < |lines| && lines[start].listLine && lines[start].indentation == base
      && item.inlines == (if start in inlines then inlines[start] else [])
      && EndsBefore(lines, next, LeavesItem(base), item.end) && ItemsRead(lines, item.end, base, items[1..], end, inlines)
  }

  /** What starts on a line whose first answer is to this question. */
  ghost predicate Reads(
    lines: seq<Shape>, at: nat, question: Question, block: Block, retainComments: bool, inlines: map<nat, seq<string>>)
    requires at < |lines|
  {
    var line, next, end := lines[at], at + 1, block.end;
    match question
    case Blank => block == Gap(at, next)
    case IsHeading => line.heading.Some? && block == HeadingLine(at, next, line.heading.value)
    case IsAttribute => block == Leaf(at, next, Attribute)
    case IsComment =>
      && (if line.commentMark then EndsAfter(lines, next, COMMENT_MARK, end) else end == next)
      && block == (if retainComments then Leaf(at, end, Comment) else Gap(at, end))
    case HasStyle =>
      if next < |lines| && lines[next].delimiter.Some? then
        && line.style.Some? && block == Styled(at, end, line.style.value)
        && var inner := next + 1; EndsAfter(lines, inner, IsDelimiterOf(lines[next].delimiter), end)
      else block == Leaf(at, next, BlockAttribute)
    case IsDirective => line.directive.Some? && block == Leaf(at, next, line.directive.value)
    case MarksTable => TableReads(lines, at, block)
    case IsDelimiter =>
      && EndsAfter(lines, next, IsDelimiterOf(line.delimiter), end) && block.Leaf? && block.start == at
      && (line.delimiter == Some("----") ==> block.kind == CodeBlock)
      && (line.delimiter == Some("....") ==> block.kind == LiteralBlock)
      && (line.delimiter != Some("----") && line.delimiter != Some("....") ==> block.kind == RawBlock)
    case IsAnchor => block == Leaf(at, next, Target)
    case IsTransition => block == Leaf(at, next, Transition)
    case IsListLine =>
      block.ListOf? && block.start == at && ItemsRead(lines, at, line.indentation, block.items, end, inlines)
    case IsMalformed => block == Leaf(at, next, RawBlock)
    case Otherwise =>
      && EndsBefore(lines, next, StopsParagraph(), end)
      && block == Text(at, end, if at in inlines then inlines[at] else [])
  }

  // ---------------------------------------------------------------------------
  // What blocks are

  lemma {:induction false} MarkedEnds(lines: seq<Shape>, start: nat, mark: Mark, marks: Shape -> bool)
    requires start <= |lines| && forall s :: IsMark(s, mark) <==> marks(s)
    ensures EndsAfter(lines, start, marks, MarkedExtent(lines, start, mark).end)
  {
    ClosedByFirstMark(lines, start, mark);
  }

  lemma {:induction false} RowInFront(lines: seq<Shape>, start: nat, next: nat, end: nat, rest: seq<Row>)
    requires next == start + 1 <= end <= |lines| && RowsRead(lines, next, end, rest) && lines[start].cells > 0
    ensures RowsRead(lines, start, end, [Row(start, lines[start].cells)] + rest)
  {
    var rows := [Row(start, lines[start].cells)] + rest;
    forall i | 0 < i < |rows| ensures rows[i] == rest[i - 1] && rows[0].line < rows[i].line {
    }
    forall k | start <= k < end && lines[k].cells > 0 ensures Row(k, lines[k].cells) in rows {
      if k == start {
        assert rows[0] == Row(k, lines[k].cells);
      } else {
        assert Row(k, lines[k].cells) in rest;
      }
    }
  }

  lemma {:induction false} LinePassedOver(lines: seq<Shape>, start: nat, next: nat, end: nat, rest: seq<Row>)
    requires next == start + 1 <= end <= |lines| && RowsRead(lines, next, end, rest) && lines[start].cells == 0
    ensures RowsRead(lines, start, end, rest)
  {
  }

  lemma {:induction false} RowsStep(lines: seq<Shape>, start: nat, next: nat, end: nat)
    requires next == start + 1 <= end <= |lines|
    ensures Rows(lines, start, end) ==
            (if lines[start].cells > 0 then [Row(start, lines[start].cells)] else []) + Rows(lines, next, end)
  {
  }

  lemma {:induction false} RowsAreRead(lines: seq<Shape>, start: nat, end: nat)
    requires start <= end <= |lines|
    ensures RowsRead(lines, start, end, Rows(lines, start, end))
    decreases end - start
  {
    if start < end {
      var next := start + 1;
      var rest := Rows(lines, next, end);
      RowsAreRead(lines, next, end);
      RowsStep(lines, start, next, end);
      if lines[start].cells > 0 {
        RowInFront(lines, start, next, end, rest);
      } else {
        LinePassedOver(lines, start, next, end, rest);
        assert [] + rest == rest;
      }
    }
  }

  lemma {:induction false} SomeRowIff(lines: seq<Shape>, start: nat, end: nat)
    requires start <= end <= |lines|
    ensures Rows(lines, start, end) != [] <==> exists k :: start <= k < end && lines[k].cells > 0
  {
    var rows := Rows(lines, start, end);
    RowsAreRead(lines, start, end);
    if rows != [] {
      assert lines[rows[0].line].cells > 0;
    }
    forall k | start <= k < end && lines[k].cells > 0 ensures rows != [] {
      assert Row(k, lines[k].cells) in rows;
    }
  }

  lemma {:induction false} TableIsRead(lines: seq<Shape>, start: nat)
    requires start < |lines|
    ensures TableReads(lines, start, TableAt(lines, start))
  {
    var next := start + 1;
    var end := MarkedExtent(lines, next, TableMark).end;
    MarkedEnds(lines, next, TableMark, TABLE_MARK);
    if end > next && lines[end - 1].tableMark {
      var last := end - 1;
      RowsAreRead(lines, next, last);
      SomeRowIff(lines, next, last);
    }
  }

  lemma {:induction false} ItemEnds(lines: seq<Shape>, start: nat, base: nat)
    requires start <= |lines|
    ensures EndsBefore(lines, start, LeavesItem(base), ItemEnd(lines, start, base))
    decreases |lines| - start
  {
    if start < |lines| && Continues(lines[start], base) {
      ItemEnds(lines, start + 1, base);
    }
  }

  lemma {:induction false} ItemsAreRead(lines: seq<Shape>, start: nat, base: nat, inlines: map<nat, seq<string>>)
    requires start <= |lines|
    ensures var items := Items(lines, start, base, inlines);
            ItemsRead(lines, start, base, items, ItemsEnd(items, start), inlines)
    decreases |lines| - start
  {
    if start < |lines| && StartsItem(lines[start], base) {
      var next := start + 1;
      var end := ItemEnd(lines, next, base);
      ItemEnds(lines, next, base);
      ItemsAreRead(lines, end, base, inlines);
      var rest := Items(lines, end, base, inlines);
      assert ItemsEnd([Item(start, end, InlinesAt(inlines, start))] + rest, start) == ItemsEnd(rest, end);
    }
  }

  lemma {:induction false} ParagraphEnds(lines: seq<Shape>, start: nat)
    requires start <= |lines|
    ensures EndsBefore(lines, start, StopsParagraph(), ParagraphEnd(lines, start))
  {
    var end := ParagraphEnd(lines, start);
    forall k | 0 <= k < |lines| ensures StopsParagraph()(lines[k]) <==> EndsParagraph(lines[k]) {
      StopsIff(lines[k]);
    }
  }

  lemma {:induction false} StopsIff(s: Shape)
    ensures StopsParagraph()(s) <==> EndsParagraph(s)
  {
    assert Blank in STOPPERS && Answers(s, Blank) == s.blank;
    assert IsHeading in STOPPERS && Answers(s, IsHeading) == s.heading.Some?;
    assert IsAttribute in STOPPERS && Answers(s, IsAttribute) == s.attribute;
    assert IsComment in STOPPERS && Answers(s, IsComment) == s.comment;
    assert HasStyle in STOPPERS && Answers(s, HasStyle) == s.style.Some?;
    assert IsDirective in STOPPERS && Answers(s, IsDirective) == s.directive.Some?;
    assert MarksTable in STOPPERS && Answers(s, MarksTable) == s.tableMark;
    assert IsDelimiter in STOPPERS && Answers(s, IsDelimiter) == s.delimiter.Some?;
    assert IsAnchor in STOPPERS && Answers(s, IsAnchor) == s.anchor;
    assert IsListLine in STOPPERS && Answers(s, IsListLine) == s.listLine;
  }

  /** The questions that come before the first one answered. */
  lemma {:induction false} NotBefore(s: Shape, question: Question)
    requires AnswersFirst(s, question)
    ensures var rank := Rank(question);
            && (rank > 0 ==> !s.blank) && (rank > 1 ==> s.heading.None?) && (rank > 2 ==> !s.attribute)
            && (rank > 3 ==> !s.comment) && (rank > 4 ==> s.style.None?) && (rank > 5 ==> s.directive.None?)
            && (rank > 6 ==> !s.tableMark) && (rank > 7 ==> s.delimiter.None?) && (rank > 8 ==> !s.anchor)
            && (rank > 9 ==> !s.transition) && (rank > 10 ==> !s.listLine) && (rank > 11 ==> !s.malformed)
  {
    assert Answers(s, Blank) == s.blank && Answers(s, IsHeading) == s.heading.Some?;
    assert Answers(s, IsAttribute) == s.attribute && Answers(s, IsComment) == s.comment;
    assert Answers(s, HasStyle) == s.style.Some? && Answers(s, IsDirective) == s.directive.Some?;
    assert Answers(s, MarksTable) == s.tableMark && Answers(s, IsDelimiter) == s.delimiter.Some?;
    assert Answers(s, IsAnchor) == s.anchor && Answers(s, IsTransition) == s.transition;
    assert Answers(s, IsListLine) == s.listLine && Answers(s, IsMalformed) == s.malformed;
  }

  lemma {:induction false} CommentIsRead(
    lines: seq<Shape>, at: nat, retainComments: bool, inlines: map<nat, seq<string>>)
    requires at < |lines| && AnswersFirst(lines[at], IsComment)
    ensures Reads(lines, at, IsComment, BlockAt(lines, at, retainComments, inlines), retainComments, inlines)
  {
    NotBefore(lines[at], IsComment);
    MarkedEnds(lines, at + 1, CommentMark, COMMENT_MARK);
  }

  lemma {:induction false} StyledIsRead(
    lines: seq<Shape>, at: nat, retainComments: bool, inlines: map<nat, seq<string>>)
    requires at < |lines| && AnswersFirst(lines[at], HasStyle)
    ensures Reads(lines, at, HasStyle, BlockAt(lines, at, retainComments, inlines), retainComments, inlines)
  {
    NotBefore(lines[at], HasStyle);
    var next := at + 1;
    if next < |lines| && lines[next].delimiter.Some? {
      var delimiter := lines[next].delimiter.value;
      MarkedEnds(lines, next + 1, DelimiterMark(delimiter), IsDelimiterOf(Some(delimiter)));
    }
  }

  lemma {:induction false} DelimitedIsRead(
    lines: seq<Shape>, at: nat, retainComments: bool, inlines: map<nat, seq<string>>)
    requires at < |lines| && AnswersFirst(lines[at], IsDelimiter)
    ensures Reads(lines, at, IsDelimiter, BlockAt(lines, at, retainComments, inlines), retainComments, inlines)
  {
    NotBefore(lines[at], IsDelimiter);
    var delimiter := lines[at].delimiter.value;
    MarkedEnds(lines, at + 1, DelimiterMark(delimiter), IsDelimiterOf(Some(delimiter)));
  }

  /** What starts on a line is what its first answer asks for. */
  lemma {:induction false} BlockIsRead(
    lines: seq<Shape>, at: nat, question: Question, retainComments: bool, inlines: map<nat, seq<string>>)
    requires at < |lines| && AnswersFirst(lines[at], question)
    ensures Reads(lines, at, question, BlockAt(lines, at, retainComments, inlines), retainComments, inlines)
  {
    NotBefore(lines[at], question);
    match question
    case IsComment => CommentIsRead(lines, at, retainComments, inlines);
    case HasStyle => StyledIsRead(lines, at, retainComments, inlines);
    case IsDelimiter => DelimitedIsRead(lines, at, retainComments, inlines);
    case MarksTable => TableIsRead(lines, at);
    case IsListLine => ItemsAreRead(lines, at, lines[at].indentation, inlines);
    case Otherwise => ParagraphEnds(lines, at + 1);
    case _ =>
  }

  lemma {:induction false} SomeAnswer(s: Shape) returns (question: Question)
    ensures AnswersFirst(s, question)
  {
    question :=
      if s.blank then Blank else if s.heading.Some? then IsHeading else if s.attribute then IsAttribute
      else if s.comment then IsComment else if s.style.Some? then HasStyle else if s.directive.Some? then IsDirective
      else if s.tableMark then MarksTable else if s.delimiter.Some? then IsDelimiter else if s.anchor then IsAnchor
      else if s.transition then IsTransition else if s.listLine then IsListLine
      else if s.malformed then IsMalformed else Otherwise;
  }

  /** A block is what its first line asks for. */
  ghost predicate IsRead(lines: seq<Shape>, block: Block, retainComments: bool, inlines: map<nat, seq<string>>) {
    block.start < |lines| && exists question ::
      AnswersFirst(lines[block.start], question)
      && Reads(lines, block.start, question, block, retainComments, inlines)
  }

  ghost predicate AllRead(
    lines: seq<Shape>, blocks: seq<Block>, retainComments: bool, inlines: map<nat, seq<string>>)
  {
    forall k :: 0 <= k < |blocks| ==> IsRead(lines, blocks[k], retainComments, inlines)
  }

  lemma {:induction false} BlocksAreRead(
    lines: seq<Shape>, at: nat, retainComments: bool, inlines: map<nat, seq<string>>)
    requires at <= |lines| && forall k :: 0 <= k < |lines| ==> IsShape(lines[k])
    ensures AllRead(lines, BlocksFrom(lines, at, retainComments, inlines), retainComments, inlines)
    decreases |lines| - at
  {
    if at < |lines| {
      var block := BlockAt(lines, at, retainComments, inlines);
      BlockAdvances(lines, at, retainComments, inlines);
      var rest := BlocksFrom(lines, block.end, retainComments, inlines);
      BlocksAreRead(lines, block.end, retainComments, inlines);
      var question := SomeAnswer(lines[at]);
      BlockIsRead(lines, at, question, retainComments, inlines);
      assert IsRead(lines, block, retainComments, inlines);
      assert forall k :: 0 < k < |[block] + rest| ==> ([block] + rest)[k] == rest[k - 1];
    }
  }

  /**
   For every text: the blocks take every line once, in order, and each of them is
   what its first line asks for, from there to its own end.
   */
  lemma {:induction false} DocumentsAreRead(
    lines: seq<string>, retainComments: bool, inlines: map<nat, seq<string>>)
    ensures var blocks := BlocksOf(lines, retainComments, inlines);
            BlocksTile(blocks, 0, |lines|) && AllRead(ShapesOf(lines), blocks, retainComments, inlines)
  {
    ShapesAreShapes(lines);
    BlocksTileLines(ShapesOf(lines), 0, retainComments, inlines);
    BlocksAreRead(ShapesOf(lines), 0, retainComments, inlines);
  }
}
