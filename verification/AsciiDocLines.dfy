/** What each line of an AsciiDoc document looks like to the block parser. */
module AsciiDocLines {
  import opened Wrappers
  import opened Text
  import opened AsciiDocTree
  import opened AsciiDocBlocks

  // ---------------------------------------------------------------------------
  // Strings

  function IndexOf(s: string, c: char): (i: Option<nat>)
    ensures i.Some? ==> i.value < |s| && s[i.value] == c && c !in s[..i.value]
  {
    if s == [] then None
    else if s[0] == c then Some(0)
    else
      match IndexOf(s[1..], c)
      case None => None
      case Some(k) =>
        assert s[..k + 1] == [s[0]] + s[1..][..k];
        Some(k + 1)
  }

  function LastIndexOf(s: string, c: char): (i: Option<nat>)
    ensures i.Some? ==> i.value < |s| && s[i.value] == c
  {
    if s == [] then None
    else if s[|s| - 1] == c then Some(|s| - 1)
    else LastIndexOf(s[..|s| - 1], c)
  }

  /** The first white space. */
  function WhitespaceAt(s: string): (i: Option<nat>)
    ensures i.Some? ==> i.value < |s|
  {
    if s == [] then None
    else if IsWhitespace(s[0]) then Some(0)
    else match WhitespaceAt(s[1..]) case None => None case Some(k) => Some(k + 1)
  }

  predicate All(s: string, allowed: char -> bool) {
    forall i :: 0 <= i < |s| ==> allowed(s[i])
  }

  predicate IsNameChar(c: char) {
    IsAsciiAlphabetic(c) || IsAsciiDigit(c) || c == '-' || c == '_'
  }

  predicate IsEquals(c: char) {
    c == '='
  }

  function DropEnd(s: string, dropped: set<char>): string {
    if s != [] && s[|s| - 1] in dropped then DropEnd(s[..|s| - 1], dropped) else s
  }

  function DropStart(s: string, dropped: set<char>): string {
    if s != [] && s[0] in dropped then DropStart(s[1..], dropped) else s
  }

  function DropBoth(s: string, dropped: set<char>): string {
    DropEnd(DropStart(s, dropped), dropped)
  }

  // ---------------------------------------------------------------------------
  // Recognisers

  function HeadingLevel(line: string): (level: Option<nat>)
    ensures level.Some? ==> 1 <= level.value <= 6
  {
    var trimmed := Trim(line);
    match IndexOf(trimmed, ' ')
    case None => None
    case Some(end) =>
      if end == 0 || end > 6 || !All(trimmed[..end], IsEquals) then None
      else if Trim(trimmed[end + 1..]) == [] then None
      else Some(end)
  }

  predicate IsDocumentAttribute(line: string) {
    var trimmed := Trim(line);
    && StartsWith(trimmed, ":")
    && match IndexOf(trimmed[1..], ':')
       case None => false
       case Some(close) =>
         var name := Trim(trimmed[1..][..close]);
         name != [] && All(DropEnd(name, {'!'}), IsNameChar)
  }

  predicate IsCommentStart(line: string) {
    StartsWith(TrimStart(line), "//")
  }

  /** The offset of the first comma outside quotes, or the end. */
  function FieldEnd(s: string, i: nat, quote: Option<char>): (end: nat)
    requires i <= |s|
    ensures end <= |s|
    decreases |s| - i
  {
    if i == |s| then i
    else if quote.None? && s[i] == ',' then i
    else if quote.None? && s[i] in {'\'', '"'} then FieldEnd(s, i + 1, Some(s[i]))
    else if quote == Some(s[i]) then FieldEnd(s, i + 1, None)
    else FieldEnd(s, i + 1, quote)
  }

  /** The style of a block attribute line: its first field, without quotes. */
  function BlockStyle(line: string): Option<string> {
    var trimmed := Trim(line);
    if |trimmed| < 3 || trimmed[0] != '[' || trimmed[|trimmed| - 1] != ']' || trimmed[1] == '[' then None
    else
      var body := trimmed[1..|trimmed| - 1];
      Some(DropBoth(Trim(body[..FieldEnd(body, 0, None)]), {'\'', '"'}))
  }

  /** The name of a block macro line. */
  function MacroName(line: string): Option<string> {
    var trimmed := Trim(line);
    match Find(trimmed, 0, "::")
    case None => None
    case Some(at) =>
      var name, rest := trimmed[..at], trimmed[at + 2..];
      if name == [] || !All(name, IsNameChar) then None
      else
        match LastIndexOf(rest, '[')
        case None => None
        case Some(open) => if EndsWith(rest[open + 1..], "]") then Some(name) else None
  }

  function BlockDelimiter(line: string): Option<string> {
    var trimmed := Trim(line);
    if trimmed in ["----", "....", "++++", "====", "****", "____"] then Some(trimmed) else None
  }

  predicate IsAnchor(line: string) {
    var trimmed := Trim(line);
    if StartsWith(trimmed, "[[") && |trimmed| >= 4 && EndsWith(trimmed, "]]") then
      Trim(Split(trimmed[2..|trimmed| - 2], ',')[0]) != []
    else StartsWith(trimmed, "[#") && |trimmed| >= 3 && EndsWith(trimmed, "]") && Trim(trimmed[2..|trimmed| - 1]) != []
  }

  predicate IsListLine(line: string) {
    var trimmed := TrimStart(line);
    || StartsWith(trimmed, "- ") || StartsWith(trimmed, "+ ") || StartsWith(trimmed, "* ")
    || match WhitespaceAt(trimmed)
       case None => false
       case Some(end) =>
         var token := trimmed[..end];
         token == "#." || All(DropBoth(token, {'(', ')', '.'}), IsAsciiDigit)
  }

  predicate IsMalformedAttribute(line: string) {
    StartsWith(TrimStart(line), "[") && !EndsWith(TrimEnd(line), "]")
  }

  function Indentation(line: string): nat {
    if line != [] && line[0] in {' ', '\t'} then 1 + Indentation(line[1..]) else 0
  }

  predicate IsBlank(line: string) {
    Trim(line) == []
  }

  predicate IsTableMark(line: string) {
    Trim(line) == "|==="
  }

  function Bars(line: string): nat {
    if line == [] then 0 else (if line[0] == '|' then 1 else 0) + Bars(line[1..])
  }

  /** A bar opens a cell, except a last one that closes the line. */
  function CellCount(line: string): nat {
    var bars := Bars(line);
    if bars > 1 && line[|line| - 1] == '|' then bars - 1 else bars
  }

  // ---------------------------------------------------------------------------
  // Shapes

  const INCLUDE: string := "include"

  const DIRECTIVES: set<string> := {"audio", "icon", "image", "kbd", "link", "mailto", "menu", "pass", "video"}

  /** The block a style makes of the delimited lines below it. */
  function StyledKind(style: string): Kind {
    if style == "source" || style == "listing" then CodeBlock
    else if style == "literal" || style == "verse" then LiteralBlock
    else RawBlock
  }

  function MacroKind(name: string): Kind {
    var lower := Lower(name);
    if lower == INCLUDE then Include else if lower in DIRECTIVES then Directive else RawBlock
  }

  function ShapeOf(line: string): Shape {
    Shape(
      IsBlank(line), HeadingLevel(line), IsDocumentAttribute(line), IsCommentStart(line), Trim(line) == "////",
      (match BlockStyle(line) case None => None case Some(style) => Some(StyledKind(style))),
      (match MacroName(line) case None => None case Some(name) => Some(MacroKind(name))),
      IsTableMark(line), BlockDelimiter(line), IsAnchor(line), Trim(line) == "'''", IsListLine(line),
      IsMalformedAttribute(line), Indentation(line), if IsBlank(line) then 0 else CellCount(line))
  }

  function ShapesOf(lines: seq<string>): (shapes: seq<Shape>)
    ensures |shapes| == |lines| && forall i :: 0 <= i < |lines| ==> shapes[i] == ShapeOf(lines[i])
  {
    seq(|lines|, i requires 0 <= i < |lines| => ShapeOf(lines[i]))
  }

  lemma {:induction false} ShapesAreShapes(lines: seq<string>)
    ensures forall i :: 0 <= i < |lines| ==> IsShape(ShapesOf(lines)[i])
  {
  }
}
