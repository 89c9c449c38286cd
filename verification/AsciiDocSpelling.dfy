/** How the lines that the block parser recognises are spelled, character by character. */
module AsciiDocSpelling {
  import opened Wrappers
  import opened Text
  import opened TextTheorems
  import opened AsciiDocTree
  import opened AsciiDocLines

  // ---------------------------------------------------------------------------
  // White space around a text

  /** The line is this text with white space around it. */
  ghost predicate Holds(line: string, core: string) {
    IsTrimmed(core) && exists before, after :: IsAround(line, before, core, after)
  }

  predicate IsAround(line: string, before: string, core: string, after: string) {
    IsWhite(before) && IsWhite(after) && line == before + core + after
  }

  lemma {:induction false} TrimIff(line: string, core: string)
    ensures Trim(line) == core <==> Holds(line, core)
  {
    if Trim(line) == core {
      var before, after := TrimCuts(line);
      assert IsAround(line, before, core, after);
    }
    if Holds(line, core) {
      var before, after :| IsAround(line, before, core, after);
      TrimDrops(before, core, after);
    }
  }

  /** White space, and then this text. */
  ghost predicate BeginsWith(line: string, start: string) {
    exists before, rest :: IsWhite(before) && line == before + (start + rest)
  }

  lemma {:induction false} TrimIsTrimmed(line: string)
    ensures IsTrimmed(Trim(line))
  {
    var before, after := TrimCuts(line);
  }

  lemma {:induction false} PartsOf(front: string, middle: string, rest: string)
    ensures var s := front + (middle + rest);
            s[..|front|] == front && s[|front| + |middle|..] == rest && s[|front|..] == middle + rest
  {
  }

  lemma {:induction false} TrimStartIff(line: string, start: string)
    requires start != [] && !IsWhitespace(start[0])
    ensures StartsWith(TrimStart(line), start) <==> BeginsWith(line, start)
  {
    if StartsWith(TrimStart(line), start) {
      var before := TrimStartCuts(line);
      var rest := TrimStart(line)[|start|..];
      assert TrimStart(line) == start + rest;
      assert line == before + (start + rest);
    }
    if BeginsWith(line, start) {
      var before, rest :| IsWhite(before) && line == before + (start + rest);
      TrimStartDrops(before, start + rest);
    }
  }

  // ---------------------------------------------------------------------------
  // First places

  lemma {:induction false} IndexOfIs(front: string, c: char, rest: string)
    requires c !in front
    ensures IndexOf(front + ([c] + rest), c) == Some(|front|)
  {
    var s := front + ([c] + rest);
    if front == [] {
      assert s[0] == c;
    } else {
      assert s[0] == front[0] && s[0] in front && s[1..] == front[1..] + ([c] + rest);
      IndexOfIs(front[1..], c, rest);
    }
  }

  lemma {:induction false} IndexOfNone(s: string, c: char)
    ensures IndexOf(s, c).None? <==> c !in s
  {
    if s != [] {
      IndexOfNone(s[1..], c);
      assert s == [s[0]] + s[1..];
    }
  }

  lemma {:induction false} SplitAtFirst(s: string, c: char)
    requires IndexOf(s, c).Some?
    ensures var i := IndexOf(s, c).value; s == s[..i] + ([c] + s[i + 1..]) && c !in s[..i]
  {
  }

  // ---------------------------------------------------------------------------
  // Headings

  function Equals(n: nat): (s: string)
    ensures |s| == n && forall i :: 0 <= i < n ==> s[i] == '='
  {
    seq(n, _ => '=')
  }

  /** A title is something that does not end with white space. */
  predicate IsTitle(title: string) {
    title != [] && !IsWhitespace(title[|title| - 1])
  }

  /** Without white space around it: as many equals signs as the level, a space, and a title. */
  ghost predicate IsHeading(line: string, level: nat) {
    1 <= level <= 6 && exists title :: IsTitle(title) && Holds(line, Equals(level) + ([' '] + title))
  }

  lemma {:induction false} TitleIsNotBlank(title: string)
    requires IsTitle(title)
    ensures Trim(title) != []
  {
    var before := TrimStartCuts(title);
    assert TrimStart(title) != [];
    TrimEndKeeps(TrimStart(title));
  }

  lemma {:induction false} HeadingRead(line: string, level: nat, title: string)
    requires 1 <= level <= 6 && IsTitle(title) && Trim(line) == Equals(level) + ([' '] + title)
    ensures HeadingLevel(line) == Some(level)
  {
    IndexOfIs(Equals(level), ' ', title);
    PartsOf(Equals(level), [' '], title);
    TitleIsNotBlank(title);
  }

  lemma {:induction false} TrimEndKeeps(s: string)
    requires s != [] && !IsWhitespace(s[|s| - 1])
    ensures TrimEnd(s) == s
  {
  }

  lemma {:induction false} TitleSpelled(trimmed: string, level: nat, title: string)
    requires IsTrimmed(trimmed) && IndexOf(trimmed, ' ') == Some(level) && title == trimmed[level + 1..]
    requires All(trimmed[..level], IsEquals) && Trim(title) != []
    ensures IsTitle(title) && trimmed == Equals(level) + ([' '] + title)
  {
    SplitAtFirst(trimmed, ' ');
    assert trimmed[..level] == Equals(level);
    assert title != [] by {
      assert Trim([]) == [];
    }
    var last := |title| - 1;
    assert title[last] == trimmed[level + 1 + last];
  }

  lemma {:induction false} HeadingSpelled(line: string) returns (title: string)
    requires HeadingLevel(line).Some?
    ensures var level := HeadingLevel(line).value;
            1 <= level <= 6 && IsTitle(title) && Trim(line) == Equals(level) + ([' '] + title)
  {
    var trimmed, level := Trim(line), HeadingLevel(line).value;
    title := trimmed[level + 1..];
    TrimIsTrimmed(line);
    TitleSpelled(trimmed, level, title);
  }

  /** A line is a heading of a level exactly if it is spelled as one. */
  lemma {:induction false} HeadingIff(line: string, level: nat)
    ensures ShapeOf(line).heading == Some(level) <==> IsHeading(line, level)
  {
    if HeadingLevel(line) == Some(level) {
      var title := HeadingSpelled(line);
      TrimIff(line, Equals(level) + ([' '] + title));
    }
    if IsHeading(line, level) {
      var title :| IsTitle(title) && Holds(line, Equals(level) + ([' '] + title));
      TrimIff(line, Equals(level) + ([' '] + title));
      HeadingRead(line, level, title);
    }
  }

  // ---------------------------------------------------------------------------
  // Marks

  const DELIMITERS: set<string> := {"----", "....", "++++", "====", "****", "____"}

  /** Blank lines, comments and marks, by what they hold. */
  lemma {:induction false} MarksIff(line: string, delimiter: string)
    ensures ShapeOf(line).blank <==> IsWhite(line)
    ensures ShapeOf(line).comment <==> BeginsWith(line, "//")
    ensures ShapeOf(line).commentMark <==> Holds(line, "////")
    ensures ShapeOf(line).tableMark <==> Holds(line, "|===")
    ensures ShapeOf(line).transition <==> Holds(line, "'''")
    ensures ShapeOf(line).delimiter == Some(delimiter) <==> delimiter in DELIMITERS && Holds(line, delimiter)
  {
    BlankIff(line);
    TrimStartIff(line, "//");
    TrimIff(line, "////");
    TrimIff(line, "|===");
    TrimIff(line, "'''");
    TrimIff(line, delimiter);
  }

  lemma {:induction false} BlankIff(line: string)
    ensures IsBlank(line) <==> IsWhite(line)
  {
    TrimIff(line, []);
    if IsWhite(line) {
      assert IsAround(line, line, [], []);
    }
    if Holds(line, []) {
      var before, after :| IsAround(line, before, [], after);
    }
  }

  // ---------------------------------------------------------------------------
  // Dropping characters at the ends

  predicate AllIn(s: string, dropped: set<char>) {
    forall i :: 0 <= i < |s| ==> s[i] in dropped
  }

  predicate Stripped(s: string, dropped: set<char>) {
    s != [] ==> s[0] !in dropped && s[|s| - 1] !in dropped
  }

  lemma {:induction false} DropStartOf(before: string, s: string, dropped: set<char>)
    requires AllIn(before, dropped) && (s != [] ==> s[0] !in dropped)
    ensures DropStart(before + s, dropped) == s
  {
    if before == [] {
      assert before + s == s;
    } else {
      assert (before + s)[1..] == before[1..] + s;
      DropStartOf(before[1..], s, dropped);
    }
  }

  lemma {:induction false} DropStartCuts(s: string, dropped: set<char>) returns (before: string)
    ensures AllIn(before, dropped) && s == before + DropStart(s, dropped)
    ensures DropStart(s, dropped) != [] ==> DropStart(s, dropped)[0] !in dropped
  {
    before := [];
    if s != [] && s[0] in dropped {
      var rest := DropStartCuts(s[1..], dropped);
      before := [s[0]] + rest;
      assert s == [s[0]] + s[1..];
    }
  }

  lemma {:induction false} DropEndOf(s: string, after: string, dropped: set<char>)
    requires AllIn(after, dropped) && (s != [] ==> s[|s| - 1] !in dropped)
    ensures DropEnd(s + after, dropped) == s
  {
    if after == [] {
      assert s + after == s;
    } else {
      assert (s + after)[..|s + after| - 1] == s + after[..|after| - 1];
      DropEndOf(s, after[..|after| - 1], dropped);
    }
  }

  lemma {:induction false} DropEndCuts(s: string, dropped: set<char>) returns (after: string)
    ensures AllIn(after, dropped) && s == DropEnd(s, dropped) + after
    ensures DropEnd(s, dropped) != [] ==> DropEnd(s, dropped)[|DropEnd(s, dropped)| - 1] !in dropped
  {
    after := [];
    if s != [] && s[|s| - 1] in dropped {
      var rest := DropEndCuts(s[..|s| - 1], dropped);
      after := rest + [s[|s| - 1]];
      assert s == s[..|s| - 1] + [s[|s| - 1]];
    }
  }

  lemma {:induction false} DropBothOf(before: string, s: string, after: string, dropped: set<char>)
    requires AllIn(before, dropped) && AllIn(after, dropped) && Stripped(s, dropped)
    ensures DropBoth(before + s + after, dropped) == s
  {
    if s == [] {
      assert before + s + after == (before + after) + [];
      DropStartOf(before + after, [], dropped);
    } else {
      assert before + s + after == before + (s + after);
      DropStartOf(before, s + after, dropped);
      DropEndOf(s, after, dropped);
    }
  }

  lemma {:induction false} DropBothCuts(s: string, dropped: set<char>) returns (before: string, after: string)
    ensures AllIn(before, dropped) && AllIn(after, dropped) && Stripped(DropBoth(s, dropped), dropped)
    ensures s == before + DropBoth(s, dropped) + after
  {
    before := DropStartCuts(s, dropped);
    after := DropEndCuts(DropStart(s, dropped), dropped);
    var core := DropBoth(s, dropped);
    assert before + (core + after) == before + core + after;
  }

  // ---------------------------------------------------------------------------
  // List lines

  const PUNCTUATION: set<char> := {'(', ')', '.'}

  /** Digits between parentheses and dots. */
  ghost predicate IsNumber(token: string) {
    exists before, digits, after ::
      && AllIn(before, PUNCTUATION) && All(digits, IsAsciiDigit) && AllIn(after, PUNCTUATION)
      && token == before + digits + after
  }

  /** A word that marks an item: a hash and a dot, or a number. */
  ghost predicate IsMarker(token: string) {
    token != [] && (forall i :: 0 <= i < |token| ==> !IsWhitespace(token[i])) && (token == "#." || IsNumber(token))
  }

  ghost predicate IsMarked(line: string, before: string, token: string, w: char, rest: string) {
    IsWhite(before) && IsMarker(token) && IsWhitespace(w) && line == before + (token + ([w] + rest))
  }

  lemma {:induction false} NumberIff(token: string)
    ensures All(DropBoth(token, PUNCTUATION), IsAsciiDigit) <==> IsNumber(token)
  {
    if All(DropBoth(token, PUNCTUATION), IsAsciiDigit) {
      var before, after := DropBothCuts(token, PUNCTUATION);
    }
    if IsNumber(token) {
      var before, digits, after :| AllIn(before, PUNCTUATION) && All(digits, IsAsciiDigit) && AllIn(after, PUNCTUATION)
        && token == before + digits + after;
      DropBothOf(before, digits, after, PUNCTUATION);
    }
  }

  lemma {:induction false} WhitespaceAtIs(token: string, w: char, rest: string)
    requires (forall i :: 0 <= i < |token| ==> !IsWhitespace(token[i])) && IsWhitespace(w)
    ensures WhitespaceAt(token + ([w] + rest)) == Some(|token|)
  {
    var s := token + ([w] + rest);
    if token == [] {
      assert s[0] == w;
    } else {
      assert s[0] == token[0] && s[1..] == token[1..] + ([w] + rest);
      WhitespaceAtIs(token[1..], w, rest);
    }
  }

  lemma {:induction false} WhitespaceFirst(s: string)
    requires WhitespaceAt(s).Some?
    ensures var k := WhitespaceAt(s).value;
            IsWhitespace(s[k]) && (forall i :: 0 <= i < k ==> !IsWhitespace(s[i])) && s == s[..k] + ([s[k]] + s[k + 1..])
  {
    if !IsWhitespace(s[0]) {
      WhitespaceFirst(s[1..]);
    }
  }

  /** A line is in a list exactly if it begins with a bullet and a space, or with a marker and white space. */
  lemma {:induction false} ListLineIff(line: string)
    ensures ShapeOf(line).listLine <==>
            || BeginsWith(line, "- ") || BeginsWith(line, "+ ") || BeginsWith(line, "* ")
            || exists before, token, w, rest :: IsMarked(line, before, token, w, rest)
  {
    TrimStartIff(line, "- ");
    TrimStartIff(line, "+ ");
    TrimStartIff(line, "* ");
    var trimmed := TrimStart(line);
    var end := WhitespaceAt(trimmed);
    if end.Some? {
      MarkedIfRead(line, end.value);
    }
    if exists before, token, w, rest :: IsMarked(line, before, token, w, rest) {
      var before, token, w, rest :| IsMarked(line, before, token, w, rest);
      TrimStartDrops(before, token + ([w] + rest));
      WhitespaceAtIs(token, w, rest);
      assert trimmed[..|token|] == token;
      NumberIff(token);
    }
  }

  /** A first word that is a marker. */
  lemma {:induction false} WordSpelled(line: string, k: nat)
    returns (before: string, token: string, w: char, rest: string)
    requires WhitespaceAt(TrimStart(line)) == Some(k)
    ensures IsWhite(before) && IsWhitespace(w) && token == TrimStart(line)[..k]
    ensures token != [] && (forall i :: 0 <= i < |token| ==> !IsWhitespace(token[i]))
    ensures line == before + (token + ([w] + rest))
  {
    var trimmed := TrimStart(line);
    before := TrimStartCuts(line);
    WhitespaceFirst(trimmed);
    token, w, rest := trimmed[..k], trimmed[k], trimmed[k + 1..];
  }

  lemma {:induction false} MarkedIfRead(line: string, k: nat)
    requires WhitespaceAt(TrimStart(line)) == Some(k)
    ensures var token := TrimStart(line)[..k];
            token == "#." || All(DropBoth(token, PUNCTUATION), IsAsciiDigit) ==>
              exists before, token, w, rest :: IsMarked(line, before, token, w, rest)
  {
    var before, token, w, rest := WordSpelled(line, k);
    NumberIff(token);
    if token == "#." || IsNumber(token) {
      assert IsMarked(line, before, token, w, rest);
    }
  }

  // ---------------------------------------------------------------------------
  // Attributes

  /** A name, perhaps followed by exclamation marks, with white space around it. */
  ghost predicate IsAttributeName(name: string) {
    exists before, stem, marks, after :: NamesAttribute(name, before, stem, marks, after)
  }

  predicate NamesAttribute(name: string, before: string, stem: string, marks: string, after: string) {
    && IsWhite(before) && IsWhite(after) && All(stem, AsciiDocLines.IsNameChar) && AllIn(marks, {'!'})
    && stem + marks != [] && name == before + (stem + marks) + after
  }

  lemma {:induction false} AttributeNameIff(name: string)
    ensures Trim(name) != [] && All(DropEnd(Trim(name), {'!'}), AsciiDocLines.IsNameChar) <==> IsAttributeName(name)
  {
    if Trim(name) != [] && All(DropEnd(Trim(name), {'!'}), AsciiDocLines.IsNameChar) {
      var before, after := TrimCuts(name);
      var marks := DropEndCuts(Trim(name), {'!'});
      assert NamesAttribute(name, before, DropEnd(Trim(name), {'!'}), marks, after);
    }
    if IsAttributeName(name) {
      var before, stem, marks, after :| NamesAttribute(name, before, stem, marks, after);
      NameIsTrimmed(stem, marks);
      TrimDrops(before, stem + marks, after);
      DropEndOf(stem, marks, {'!'});
    }
  }

  lemma {:induction false} NameIsTrimmed(stem: string, marks: string)
    requires All(stem, AsciiDocLines.IsNameChar) && AllIn(marks, {'!'})
    ensures IsTrimmed(stem + marks) && (stem != [] ==> stem[|stem| - 1] !in {'!'})
  {
    assert forall i :: 0 <= i < |stem| ==> AsciiDocLines.IsNameChar(stem[i]) && !IsWhitespace(stem[i]);
    assert forall i :: 0 <= i < |marks| ==> marks[i] == '!';
  }

  ghost predicate IsAttributeLine(line: string, name: string, rest: string) {
    ':' !in name && IsAttributeName(name) && Holds(line, [':'] + (name + ([':'] + rest)))
  }

  lemma {:induction false} AttributeParts(trimmed: string, name: string, rest: string, close: nat)
    requires trimmed != [] && trimmed[0] == ':' && IndexOf(trimmed[1..], ':') == Some(close)
    requires name == trimmed[1..][..close] && rest == trimmed[1..][close + 1..]
    ensures trimmed == [':'] + (name + ([':'] + rest)) && ':' !in name
  {
    SplitAtFirst(trimmed[1..], ':');
  }

  lemma {:induction false} AttributeUnfolded(line: string)
    requires IsDocumentAttribute(line)
    ensures var trimmed := Trim(line);
            && trimmed != [] && trimmed[0] == ':' && IndexOf(trimmed[1..], ':').Some?
            && var name := trimmed[1..][..IndexOf(trimmed[1..], ':').value];
               Trim(name) != [] && All(DropEnd(Trim(name), {'!'}), AsciiDocLines.IsNameChar)
  {
  }

  lemma {:induction false} AttributeSpelled(line: string) returns (name: string, rest: string)
    requires IsDocumentAttribute(line)
    ensures IsAttributeLine(line, name, rest)
  {
    AttributeUnfolded(line);
    var trimmed := Trim(line);
    var close := IndexOf(trimmed[1..], ':').value;
    name, rest := trimmed[1..][..close], trimmed[1..][close + 1..];
    AttributeParts(trimmed, name, rest, close);
    AttributeNameIff(name);
    TrimIff(line, [':'] + (name + ([':'] + rest)));
  }

  lemma {:induction false} AttributeRead(line: string, name: string, rest: string)
    requires IsAttributeLine(line, name, rest)
    ensures IsDocumentAttribute(line)
  {
    var inner := name + ([':'] + rest);
    TrimIff(line, [':'] + inner);
    IndexOfIs(name, ':', rest);
    PartsOf([], [':'], inner);
    assert [] + ([':'] + inner) == [':'] + inner;
    PartsOf(name, [':'], rest);
    AttributeNameIff(name);
  }

  /** A line is a document attribute exactly if it is a name between colons, and anything after it. */
  lemma {:induction false} AttributeIff(line: string)
    ensures ShapeOf(line).attribute <==> exists name, rest :: IsAttributeLine(line, name, rest)
  {
    if IsDocumentAttribute(line) {
      var name, rest := AttributeSpelled(line);
    }
    if exists name, rest :: IsAttributeLine(line, name, rest) {
      var name, rest :| IsAttributeLine(line, name, rest);
      AttributeRead(line, name, rest);
    }
  }

  // ---------------------------------------------------------------------------
  // Block styles

  const QUOTES: set<char> := {'\'', '"'}

  /** The first field of a list: up to the first comma outside quotes, or all of it. */
  ghost predicate IsFirstField(body: string, end: nat) {
    FirstUnquoted(body, 0, end, ',') || (end == |body| && forall at :: !FirstUnquoted(body, 0, at, ','))
  }

  /** A field without the white space around it, and then without the quotes. */
  ghost predicate IsField(field: string, value: string) {
    Stripped(value, QUOTES) && exists before, after ::
      AllIn(before, QUOTES) && AllIn(after, QUOTES) && Holds(field, before + value + after)
  }

  lemma {:induction false} FieldEndIs(body: string, i: nat)
    requires i <= |body| && forall p :: 0 <= p < i ==> !(body[p] == ',' && OpenQuote(body, 0, p) == None)
    ensures IsFirstField(body, FieldEnd(body, i, OpenQuote(body, 0, i)))
    decreases |body| - i
  {
    if i < |body| && !(body[i] == ',' && OpenQuote(body, 0, i) == None) {
      FieldEndIs(body, i + 1);
    }
  }

  lemma {:induction false} OneFirstField(body: string, a: nat, b: nat)
    requires IsFirstField(body, a) && IsFirstField(body, b)
    ensures a == b
  {
  }

  lemma {:induction false} FieldIff(field: string, value: string)
    ensures DropBoth(Trim(field), QUOTES) == value <==> IsField(field, value)
  {
    if DropBoth(Trim(field), QUOTES) == value {
      var before, after := DropBothCuts(Trim(field), QUOTES);
      TrimIff(field, before + value + after);
    }
    if IsField(field, value) {
      var before, after :| AllIn(before, QUOTES) && AllIn(after, QUOTES) && Holds(field, before + value + after);
      TrimIff(field, before + value + after);
      DropBothOf(before, value, after, QUOTES);
    }
  }

  /** A list in brackets, whose first field is the style. */
  ghost predicate IsStyled(line: string, body: string, end: nat, style: string) {
    && body != [] && body[0] != '[' && Holds(line, ['['] + body + [']'])
    && IsFirstField(body, end) && end <= |body| && IsField(body[..end], style)
  }

  ghost predicate HasStyle(line: string, style: string) {
    exists body, end: nat :: IsStyled(line, body, end, style)
  }

  lemma {:induction false} StyleSpelled(line: string) returns (body: string, end: nat)
    requires BlockStyle(line).Some?
    ensures IsStyled(line, body, end, BlockStyle(line).value)
  {
    var trimmed := Trim(line);
    body := trimmed[1..|trimmed| - 1];
    end := FieldEnd(body, 0, None);
    assert trimmed == ['['] + body + [']'] && body[0] == trimmed[1];
    TrimIff(line, trimmed);
    FieldEndIs(body, 0);
    FieldIff(body[..end], BlockStyle(line).value);
  }

  lemma {:induction false} StyleRead(line: string, body: string, end: nat, style: string)
    requires IsStyled(line, body, end, style)
    ensures BlockStyle(line) == Some(style)
  {
    var trimmed := ['['] + body + [']'];
    TrimIff(line, trimmed);
    assert trimmed[1..|trimmed| - 1] == body && trimmed[1] == body[0];
    FieldEndIs(body, 0);
    OneFirstField(body, end, FieldEnd(body, 0, None));
    FieldIff(body[..end], style);
  }

  /** A line has a block style exactly if it is a list in brackets with that style as its first field. */
  lemma {:induction false} BlockStyleIff(line: string, style: string)
    ensures BlockStyle(line) == Some(style) <==> HasStyle(line, style)
  {
    if BlockStyle(line) == Some(style) {
      var body, end := StyleSpelled(line);
    }
    if HasStyle(line, style) {
      var body, end: nat :| IsStyled(line, body, end, style);
      StyleRead(line, body, end, style);
    }
  }

  const STYLES: map<string, Kind> :=
    map["source" := CodeBlock, "listing" := CodeBlock, "literal" := LiteralBlock, "verse" := LiteralBlock]

  function KindOfStyle(style: string): Kind {
    if style in STYLES then STYLES[style] else RawBlock
  }

  lemma {:induction false} StyledKindIs(style: string)
    ensures StyledKind(style) == KindOfStyle(style)
  {
  }

  lemma {:induction false} StyleShapeIs(line: string)
    ensures ShapeOf(line).style ==
            match BlockStyle(line) case None => None case Some(style) => Some(StyledKind(style))
  {
  }

  /** Such a line makes code or literal text of the block below it by its style, and raw source otherwise. */
  lemma {:induction false} StyleIff(line: string, kind: Kind)
    ensures ShapeOf(line).style == Some(kind) <==> exists style :: HasStyle(line, style) && KindOfStyle(style) == kind
  {
    StyleShapeIs(line);
    if ShapeOf(line).style == Some(kind) {
      var style := BlockStyle(line).value;
      BlockStyleIff(line, style);
      StyledKindIs(style);
      assert HasStyle(line, style);
    }
    if exists style :: HasStyle(line, style) && KindOfStyle(style) == kind {
      var style :| HasStyle(line, style) && KindOfStyle(style) == kind;
      BlockStyleIff(line, style);
      StyledKindIs(style);
    }
  }

  // ---------------------------------------------------------------------------
  // Block macros

  /** A name, two colons, a target, and options in brackets. */
  ghost predicate IsMacro(line: string, name: string, target: string, options: string, colons: string) {
    && name != [] && All(name, AsciiDocLines.IsNameChar) && '[' !in options
    && Holds(line, name + (colons + (target + (['['] + options + [']']))))
  }

  ghost predicate HasMacro(line: string, name: string, colons: string) {
    exists target, options :: IsMacro(line, name, target, options, colons)
  }

  lemma {:induction false} LastIndexIs(front: string, c: char, rest: string)
    requires c !in rest
    ensures LastIndexOf(front + ([c] + rest), c) == Some(|front|)
  {
    var s := front + ([c] + rest);
    if rest == [] {
      assert s[|s| - 1] == c;
    } else {
      assert s[|s| - 1] == rest[|rest| - 1] && rest[|rest| - 1] in rest;
      assert s[..|s| - 1] == front + ([c] + rest[..|rest| - 1]);
      LastIndexIs(front, c, rest[..|rest| - 1]);
    }
  }

  lemma {:induction false} LastIndexSplits(s: string, c: char)
    requires LastIndexOf(s, c).Some?
    ensures var i := LastIndexOf(s, c).value; s == s[..i] + ([c] + s[i + 1..]) && c !in s[i + 1..]
  {
    if s[|s| - 1] != c {
      var front := s[..|s| - 1];
      LastIndexSplits(front, c);
      var i := LastIndexOf(s, c).value;
      assert s[i + 1..] == front[i + 1..] + [s[|s| - 1]];
    }
  }

  lemma {:induction false} OptionsSpelled(rest: string) returns (target: string, options: string)
    requires LastIndexOf(rest, '[').Some? && EndsWith(rest[LastIndexOf(rest, '[').value + 1..], "]")
    ensures rest == target + (['['] + options + [']']) && '[' !in options
  {
    var open := LastIndexOf(rest, '[').value;
    LastIndexSplits(rest, '[');
    var tail := rest[open + 1..];
    target, options := rest[..open], tail[..|tail| - 1];
    assert tail == options + [']'];
    assert ['['] + tail == ['['] + options + [']'];
  }

  lemma {:induction false} OptionsRead(target: string, options: string, rest: string)
    requires rest == target + (['['] + options + [']']) && '[' !in options
    ensures LastIndexOf(rest, '[') == Some(|target|) && EndsWith(rest[|target| + 1..], "]")
  {
    var tail := options + [']'];
    assert ['['] + options + [']'] == ['['] + tail;
    LastIndexIs(target, '[', tail);
    assert rest[|target| + 1..] == tail && tail[|tail| - 1..] == "]";
  }

  lemma {:induction false} MatchSplits(s: string, at: nat, needle: string, end: nat)
    requires MatchesAt(s, at, needle) && end == at + |needle|
    ensures s == s[..at] + (needle + s[end..])
  {
  }

  lemma {:induction false} MacroSpelled(line: string, colons: string) returns (target: string, options: string)
    requires colons == "::" && MacroName(line).Some?
    ensures IsMacro(line, MacroName(line).value, target, options, colons)
  {
    var trimmed := Trim(line);
    var at := Find(trimmed, 0, colons).value;
    var end := at + 2;
    target, options := OptionsSpelled(trimmed[end..]);
    MatchSplits(trimmed, at, colons, end);
    TrimIff(line, trimmed);
  }

  lemma {:induction false} FirstColons(name: string, rest: string, colons: string)
    requires colons == "::" && name != [] && All(name, AsciiDocLines.IsNameChar)
    ensures Find(name + (colons + rest), 0, colons) == Some(|name|)
  {
    var s, n := name + (colons + rest), |name|;
    assert s[n..n + 2] == colons && MatchesAt(s, n, colons);
    forall i: nat | i < n ensures !MatchesAt(s, i, colons) {
      assert AsciiDocLines.IsNameChar(name[i]) && s[i] == name[i];
      assert s[i..i + 2][0] == s[i];
    }
  }

  lemma {:induction false} MacroParts(line: string, trimmed: string, name: string, rest: string, open: nat, colons: string)
    requires colons == "::" && trimmed == name + (colons + rest) && Trim(line) == trimmed
    requires name != [] && All(name, AsciiDocLines.IsNameChar)
    requires LastIndexOf(rest, '[') == Some(open) && EndsWith(rest[open + 1..], "]")
    ensures MacroName(line) == Some(name)
  {
    FirstColons(name, rest, colons);
    PartsOf(name, colons, rest);
    MacroNameIs(line, trimmed, |name|, name, rest, open, colons);
  }

  lemma {:induction false} MacroRead(line: string, name: string, target: string, options: string, colons: string)
    requires colons == "::" && IsMacro(line, name, target, options, colons)
    ensures MacroName(line) == Some(name)
  {
    var rest := target + (['['] + options + [']']);
    var trimmed := name + (colons + rest);
    TrimIff(line, trimmed);
    OptionsRead(target, options, rest);
    MacroParts(line, trimmed, name, rest, |target|, colons);
  }

  lemma {:induction false} MacroNameIs(
    line: string, trimmed: string, at: nat, name: string, rest: string, open: nat, colons: string)
    requires colons == "::" && Trim(line) == trimmed && Find(trimmed, 0, colons) == Some(at)
    requires at + 2 <= |trimmed| && trimmed[..at] == name && trimmed[at + 2..] == rest
    requires name != [] && All(name, AsciiDocLines.IsNameChar)
    requires LastIndexOf(rest, '[') == Some(open) && EndsWith(rest[open + 1..], "]")
    ensures MacroName(line) == Some(name)
  {
  }

  /** A line is a block macro exactly if it is spelled as one, up to its last opening bracket. */
  lemma {:induction false} MacroIff(line: string, name: string, colons: string)
    requires colons == "::"
    ensures MacroName(line) == Some(name) <==> HasMacro(line, name, colons)
  {
    if MacroName(line) == Some(name) {
      var target, options := MacroSpelled(line, colons);
    }
    if HasMacro(line, name, colons) {
      var target, options :| IsMacro(line, name, target, options, colons);
      MacroRead(line, name, target, options, colons);
    }
  }

  const KNOWN_MACROS: set<string> := {"audio", "icon", "image", "kbd", "link", "mailto", "menu", "pass", "video"}

  function KindOfMacro(name: string): Kind {
    var lower := Lower(name);
    if lower in KNOWN_MACROS then Directive else if lower == "include" then Include else RawBlock
  }

  lemma {:induction false} MacroKindIs(name: string)
    ensures MacroKind(name) == KindOfMacro(name)
  {
  }

  lemma {:induction false} DirectiveShapeIs(line: string)
    ensures ShapeOf(line).directive == match MacroName(line) case None => None case Some(name) => Some(MacroKind(name))
  {
  }

  /** Such a line includes a file or is a known directive by its name, ignoring case, and raw source otherwise. */
  lemma {:induction false} DirectiveIff(line: string, kind: Kind, colons: string)
    requires colons == "::"
    ensures ShapeOf(line).directive == Some(kind) <==>
            exists name :: HasMacro(line, name, colons) && KindOfMacro(name) == kind
  {
    DirectiveShapeIs(line);
    if ShapeOf(line).directive == Some(kind) {
      var name := MacroName(line).value;
      MacroIff(line, name, colons);
      MacroKindIs(name);
      assert HasMacro(line, name, colons);
    }
    if exists name :: HasMacro(line, name, colons) && KindOfMacro(name) == kind {
      var name :| HasMacro(line, name, colons) && KindOfMacro(name) == kind;
      MacroIff(line, name, colons);
      MacroKindIs(name);
    }
  }

  // ---------------------------------------------------------------------------
  // Other lines

  predicate IsLeftOpen(core: string) {
    core != [] && core[0] == '[' && core[|core| - 1] != ']'
  }

  lemma {:induction false} MalformedByTrim(line: string)
    ensures ShapeOf(line).malformed <==> IsLeftOpen(Trim(line))
  {
    TrimmedStart(line);
    if Trim(line) != [] {
      TrimmedEnd(line);
    }
  }

  /** An opening bracket that is not closed at the end of the line. */
  lemma {:induction false} MalformedIff(line: string)
    ensures ShapeOf(line).malformed <==> exists core :: Holds(line, core) && IsLeftOpen(core)
  {
    MalformedByTrim(line);
    TrimIff(line, Trim(line));
    if exists core :: Holds(line, core) && IsLeftOpen(core) {
      var core :| Holds(line, core) && IsLeftOpen(core);
      TrimIff(line, core);
    }
  }

  lemma {:induction false} TrimmedStart(line: string)
    ensures StartsWith(TrimStart(line), "[") <==> Trim(line) != [] && Trim(line)[0] == '['
  {
    var before := TrimStartCuts(line);
    var after := TrimEndCuts(TrimStart(line));
    assert TrimStart(line) == Trim(line) + after;
    assert Trim(line) == [] ==> TrimStart(line) == after;
  }

  lemma {:induction false} TrimmedEnd(line: string)
    requires Trim(line) != []
    ensures EndsWith(TrimEnd(line), "]") <==> Trim(line)[|Trim(line)| - 1] == ']'
  {
    var before, after := TrimCuts(line);
    var front := before + Trim(line);
    assert front[|front| - 1] == Trim(line)[|Trim(line)| - 1];
    TrimEndDrops(front, after);
    assert front[|front| - 1..] == [front[|front| - 1]];
  }

  lemma {:induction false} IndentationOf(front: string, rest: string)
    requires AllIn(front, {' ', '\t'}) && (rest != [] ==> rest[0] !in {' ', '\t'})
    ensures Indentation(front + rest) == |front|
  {
    if front == [] {
      assert front + rest == rest;
    } else {
      assert (front + rest)[1..] == front[1..] + rest;
      IndentationOf(front[1..], rest);
    }
  }

  /** Indentation counts the spaces and tabs in front. */
  lemma {:induction false} IndentationIs(front: string, rest: string)
    requires AllIn(front, {' ', '\t'}) && (rest != [] ==> rest[0] !in {' ', '\t'})
    ensures ShapeOf(front + rest).indentation == |front|
  {
    IndentationOf(front, rest);
  }

  // ---------------------------------------------------------------------------
  // Anchors

  /** An identifier up to a comma between doubled brackets, or after a bracket and a hash. */
  ghost predicate IsAnchorLine(line: string, id: string, rest: string) {
    && !IsWhite(id)
    && ((',' !in id && (rest == [] || rest[0] == ',') && Holds(line, ['[', '['] + (id + rest) + [']', ']']))
        || (rest == [] && Holds(line, ['[', '#'] + id + [']'])))
  }

  lemma {:induction false} FirstPieceIs(id: string, rest: string)
    requires ',' !in id && (rest == [] || rest[0] == ',')
    ensures Split(id + rest, ',')[0] == id
  {
    if rest == [] {
      assert id + rest == id;
      SplitFirst(id, [], ',');
    } else {
      assert rest == [','] + rest[1..];
      SplitFirst(id, rest[1..], ',');
    }
  }

  lemma {:induction false} FirstPieceOf(s: string) returns (id: string, rest: string)
    ensures id == Split(s, ',')[0] && s == id + rest && ',' !in id && (rest == [] || rest[0] == ',')
  {
    var pieces := Split(s, ',');
    SplitPieces(s, ',');
    id := pieces[0];
    rest := if |pieces| == 1 then [] else [','] + JoinWith(pieces[1..], [',']);
  }

  /** What stands between a start and an end that do not overlap. */
  lemma {:induction false} InnerOf(s: string, start: string, end: string)
    requires |start| + |end| <= |s| && StartsWith(s, start) && EndsWith(s, end)
    ensures s == start + s[|start|..|s| - |end|] + end
  {
  }

  lemma {:induction false} InnerIs(start: string, inner: string, end: string)
    ensures var s := start + inner + end;
            && StartsWith(s, start) && EndsWith(s, end) && |start| + |end| <= |s|
            && s[|start|..|s| - |end|] == inner
  {
    assert (start + inner + end)[|start + inner|..] == end;
  }

  lemma {:induction false} AnchorSpelled(line: string, double: string, close: string, hash: string, single: string)
    returns (id: string, rest: string)
    requires double == ['[', '['] && close == [']', ']'] && hash == ['[', '#'] && single == [']'] && IsAnchor(line)
    ensures IsAnchorLine(line, id, rest)
  {
    var trimmed := Trim(line);
    TrimIff(line, trimmed);
    if StartsWith(trimmed, double) && |trimmed| >= 4 && EndsWith(trimmed, close) {
      InnerOf(trimmed, double, close);
      id, rest := FirstPieceOf(trimmed[2..|trimmed| - 2]);
    } else {
      InnerOf(trimmed, hash, single);
      id, rest := trimmed[2..|trimmed| - 1], [];
    }
    BlankIff(id);
  }

  lemma {:induction false} AnchorRead(
    line: string, id: string, rest: string, double: string, close: string, hash: string, single: string)
    requires double == ['[', '['] && close == [']', ']'] && hash == ['[', '#'] && single == [']']
    requires IsAnchorLine(line, id, rest)
    ensures IsAnchor(line)
  {
    BlankIff(id);
    if ',' !in id && (rest == [] || rest[0] == ',') && Holds(line, double + (id + rest) + close) {
      TrimIff(line, double + (id + rest) + close);
      InnerIs(double, id + rest, close);
      FirstPieceIs(id, rest);
    } else {
      TrimIff(line, hash + id + single);
      InnerIs(hash, id, single);
      assert Trim(line)[1] == '#';
    }
  }

  /** A line is an anchor exactly if it is spelled as one. */
  lemma {:induction false} AnchorIff(line: string)
    ensures ShapeOf(line).anchor <==> exists id, rest :: IsAnchorLine(line, id, rest)
  {
    if IsAnchor(line) {
      var id, rest := AnchorSpelled(line, ['[', '['], [']', ']'], ['[', '#'], [']']);
    }
    if exists id, rest :: IsAnchorLine(line, id, rest) {
      var id, rest :| IsAnchorLine(line, id, rest);
      AnchorRead(line, id, rest, ['[', '['], [']', ']'], ['[', '#'], [']']);
    }
  }

  // ---------------------------------------------------------------------------
  // Table lines

  lemma {:induction false} BarsCount(line: string)
    ensures Bars(line) == multiset(line)['|']
  {
    if line != [] {
      BarsCount(line[1..]);
      assert line == [line[0]] + line[1..];
    }
  }

  /** A table line has a cell for each of its bars, but for a last one that closes the line. */
  lemma {:induction false} CellsAreBars(line: string)
    ensures ShapeOf(line).cells == multiset(line)['|']
            - if multiset(line)['|'] > 1 && line[|line| - 1] == '|' then 1 else 0
  {
    BarsCount(line);
    BlankIff(line);
    if IsWhite(line) {
      assert '|' !in line;
    }
  }
}
