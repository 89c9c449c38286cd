/** The lossless HTML lexer: tokens as ranges of the text. */
module HtmlLexer {
  import opened Wrappers
  import opened Text

  datatype TokenKind = StartTag | EndTag | PlainText | Comment | ProcessingInstruction | Doctype | Declaration

  datatype Token = Token(kind: TokenKind, start: nat, end: nat, name: Option<string>, selfClosing: bool)

  datatype Defect = RawTextUnclosed | CommentUnclosed | MarkupUnclosed

  datatype Diagnostic = Diagnostic(defect: Defect, start: nat, end: nat)

  /** Element names with a syntax of their own; `HtmlVocabulary.HTML5` is the one in use. */
  datatype Vocabulary = Vocabulary(voidElements: set<string>, rawTextElements: set<string>)

  const PLAINTEXT: string := "plaintext"

  function RawOf(text: string, token: Token): string
    requires token.start <= token.end <= |text|
  {
    text[token.start..token.end]
  }

  // ---------------------------------------------------------------------------
  // Scanning helpers

  predicate MatchesIgnoringCase(s: string, at: nat, needle: string) {
    at + |needle| <= |s| && EqualsIgnoreCase(s[at..at + |needle|], needle)
  }

  function FindIgnoringCase(s: string, from: nat, needle: string): (r: Option<nat>)
    requires from <= |s|
    ensures r.Some? ==> from <= r.value && MatchesIgnoringCase(s, r.value, needle)
    decreases |s| - from
  {
    if MatchesIgnoringCase(s, from, needle) then Some(from)
    else if from == |s| then None
    else FindIgnoringCase(s, from + 1, needle)
  }

  /** The offset after the first `>` outside quotes. */
  function MarkupEndFrom(text: string, cursor: nat, quote: Option<char>): (end: Option<nat>)
    ensures end.Some? ==> cursor < end.value <= |text| && text[end.value - 1] == '>'
    decreases |text| - cursor
  {
    if cursor >= |text| then None
    else
      var c := text[cursor];
      if quote.Some? then MarkupEndFrom(text, cursor + 1, if quote.value == c then None else quote)
      else if c == '\'' || c == '"' then MarkupEndFrom(text, cursor + 1, Some(c))
      else if c == '>' then Some(cursor + 1)
      else MarkupEndFrom(text, cursor + 1, None)
  }

  function MarkupEnd(text: string, start: nat): Option<nat> {
    MarkupEndFrom(text, start + 1, None)
  }

  method ScanMarkupEnd(text: string, start: nat) returns (end: Option<nat>)
    ensures end == MarkupEnd(text, start)
  {
    var cursor := start + 1;
    var quote: Option<char> := None;
    while cursor < |text|
      invariant MarkupEndFrom(text, cursor, quote) == MarkupEnd(text, start)
    {
      var c := text[cursor];
      if quote.Some? {
        if quote.value == c {
          quote := None;
        }
      } else if c == '\'' || c == '"' {
        quote := Some(c);
      } else if c == '>' {
        return Some(cursor + 1);
      }
      cursor := cursor + 1;
    }
    end := None;
  }

  /** The leading run of characters that can belong to a markup name. */
  function MarkupName(value: string): string {
    if value == [] || IsWhitespace(value[0]) || value[0] in {'/', '>', '?'} then []
    else [value[0]] + MarkupName(value[1..])
  }

  function TrimQuestionMarks(value: string): string {
    if value != [] && value[0] == '?' then TrimQuestionMarks(value[1..]) else value
  }

  function InstructionName(trimmed: string): Option<string> {
    var name := MarkupName(TrimStart(TrimQuestionMarks(trimmed)));
    if name == [] then None else Some(name)
  }

  predicate IsDoctype(trimmed: string)
    requires trimmed != []
  {
    StartsWith(Lower(TrimStart(trimmed[1..])), "doctype")
  }

  // ---------------------------------------------------------------------------
  // One token

  /** A token, if its range is not empty. */
  function Push(kind: TokenKind, start: nat, end: nat): seq<Token> {
    if start < end then [Token(kind, start, end, None, false)] else []
  }

  function Inner(text: string, start: nat, end: nat): string
    requires start + 2 <= end <= |text|
  {
    Trim(text[start + 1..end - 1])
  }

  function StartTagToken(v: Vocabulary, start: nat, end: nat, trimmed: string): Token {
    var name := MarkupName(trimmed);
    if name == [] then Token(PlainText, start, end, None, false)
    else
      Token(StartTag, start, end, Some(name),
            EndsWith(TrimEnd(trimmed), ['/']) || Lower(name) in v.voidElements)
  }

  /** The token of closed markup, by what stands after its `<`. */
  function MarkupToken(v: Vocabulary, text: string, start: nat, end: nat): Token
    requires start + 2 <= end <= |text|
  {
    var trimmed := Inner(text, start, end);
    if trimmed == [] then Token(PlainText, start, end, None, false)
    else if trimmed[0] == '?' then Token(ProcessingInstruction, start, end, InstructionName(trimmed), false)
    else if trimmed[0] == '!' then
      Token(if IsDoctype(trimmed) then Doctype else Declaration, start, end, None, false)
    else if trimmed[0] == '/' then Token(EndTag, start, end, Some(MarkupName(trimmed[1..])), false)
    else StartTagToken(v, start, end, trimmed)
  }

  /** The raw-text element a start tag opens, lower-cased. */
  function RawTextAfter(v: Vocabulary, token: Token): Option<string> {
    if token.kind == StartTag && token.name.Some? && !token.selfClosing
       && Lower(token.name.value) in v.rawTextElements
    then Some(Lower(token.name.value))
    else None
  }

  /** What one round of the lexer gives, and where the next one starts, if any. */
  datatype Round = Round(lexed: Lexed, next: nat, rawText: Option<string>)

  datatype Lexed = Lexed(tokens: seq<Token>, diagnostics: seq<Diagnostic>)

  function Appended(a: Lexed, b: Lexed): Lexed {
    Lexed(a.tokens + b.tokens, a.diagnostics + b.diagnostics)
  }

  lemma {:induction false} AppendedAssociates(a: Lexed, b: Lexed, c: Lexed)
    ensures Appended(Appended(a, b), c) == Appended(a, Appended(b, c))
  {
    assert a.tokens + b.tokens + c.tokens == a.tokens + (b.tokens + c.tokens);
    assert a.diagnostics + b.diagnostics + c.diagnostics == a.diagnostics + (b.diagnostics + c.diagnostics);
  }

  /** Plain text, if there is any. */
  function TextOnly(start: nat, end: nat): Lexed {
    Lexed(Push(PlainText, start, end), [])
  }

  function CommentRound(text: string, start: nat): Round
    requires MatchesAt(text, start, "<!--")
  {
    var close := Find(text, start + 4, "-->");
    var end := if close.Some? then close.value + 3 else |text|;
    var closed := end < |text| || EndsWith(text[start..], "-->");
    Round(Lexed(Push(Comment, start, end), if closed then [] else [Diagnostic(CommentUnclosed, start, end)]), end, None)
  }

  function MarkupRound(v: Vocabulary, text: string, start: nat): Round
    requires start < |text| && text[start] == '<'
  {
    if MatchesAt(text, start, "<!--") then CommentRound(text, start)
    else
      match MarkupEnd(text, start)
      case None =>
        Round(Lexed(Push(Declaration, start, |text|), [Diagnostic(MarkupUnclosed, start, |text|)]), |text|, None)
      case Some(end) =>
        var token := MarkupToken(v, text, start, end);
        Round(Lexed([token], []), end, RawTextAfter(v, token))
  }

  /** Text up to the next `<`, and the markup that starts there. */
  function TextRound(v: Vocabulary, text: string, cursor: nat): Round
    requires cursor <= |text|
  {
    match Find(text, cursor, "<")
    case None => Round(TextOnly(cursor, |text|), |text|, None)
    case Some(start) =>
      assert text[start] == '<' by {
        MatchesChar(text, start, "<", 0);
      }
      var markup := MarkupRound(v, text, start);
      markup.(lexed := Appended(TextOnly(cursor, start), markup.lexed))
  }

  /** The end of a raw-text element's text: the first closing tag of that name. */
  function RawTextEnd(text: string, cursor: nat, rawName: string): Option<nat>
    requires cursor <= |text|
  {
    if rawName == PLAINTEXT then None else FindIgnoringCase(text, cursor, "</" + rawName)
  }

  function LexRound(v: Vocabulary, text: string, cursor: nat, rawText: Option<string>): Round
    requires cursor < |text|
  {
    if rawText.None? then TextRound(v, text, cursor)
    else
      match RawTextEnd(text, cursor, rawText.value)
      case None =>
        var unclosed := if rawText.value == PLAINTEXT then [] else [Diagnostic(RawTextUnclosed, cursor, |text|)];
        Round(Lexed(Push(PlainText, cursor, |text|), unclosed), |text|, None)
      case Some(end) =>
        var rest := TextRound(v, text, end);
        rest.(lexed := Appended(TextOnly(cursor, end), rest.lexed))
  }

  lemma {:induction false} MarkupAdvances(v: Vocabulary, text: string, start: nat)
    requires start < |text| && text[start] == '<'
    ensures start < MarkupRound(v, text, start).next <= |text|
  {
  }

  lemma {:induction false} TextAdvances(v: Vocabulary, text: string, cursor: nat)
    requires cursor <= |text|
    ensures cursor <= TextRound(v, text, cursor).next <= |text|
    ensures cursor < |text| ==> cursor < TextRound(v, text, cursor).next
  {
    var found := Find(text, cursor, "<");
    if found.Some? {
      MatchesChar(text, found.value, "<", 0);
      MarkupAdvances(v, text, found.value);
    }
  }

  lemma {:induction false} RoundAdvances(v: Vocabulary, text: string, cursor: nat, rawText: Option<string>)
    requires cursor < |text|
    ensures cursor < LexRound(v, text, cursor, rawText).next <= |text|
  {
    TextAdvances(v, text, cursor);
    if rawText.Some? {
      var end := RawTextEnd(text, cursor, rawText.value);
      if end.Some? {
        TextAdvances(v, text, end.value);
      }
    }
  }

  function LexFrom(v: Vocabulary, text: string, cursor: nat, rawText: Option<string>): Lexed
    decreases |text| - cursor
  {
    if cursor >= |text| then Lexed([], [])
    else
      RoundAdvances(v, text, cursor, rawText);
      var round := LexRound(v, text, cursor, rawText);
      Appended(round.lexed, LexFrom(v, text, round.next, round.rawText))
  }

  function Lex(v: Vocabulary, text: string): Lexed {
    LexFrom(v, text, 0, None)
  }

  // ---------------------------------------------------------------------------
  // The lexer, as it runs

  class Lexer {
    const vocabulary: Vocabulary
    const text: string
    var tokens: seq<Token>
    var diagnostics: seq<Diagnostic>

    constructor (vocabulary: Vocabulary, text: string)
      ensures this.vocabulary == vocabulary && this.text == text && tokens == [] && diagnostics == []
    {
      this.vocabulary, this.text, tokens, diagnostics := vocabulary, text, [], [];
    }

    ghost function Output(): Lexed
      reads this
    {
      Lexed(tokens, diagnostics)
    }

    method PushToken(kind: TokenKind, start: nat, end: nat, name: Option<string>, selfClosing: bool)
      modifies this`tokens
      ensures tokens == old(tokens) + if start < end then [Token(kind, start, end, name, selfClosing)] else []
    {
      if start >= end {
        return;
      }
      tokens := tokens + [Token(kind, start, end, name, selfClosing)];
    }

    /** Appends the markup that starts at a `<`. */
    method LexMarkup(start: nat) returns (next: nat, rawText: Option<string>)
      requires start < |text| && text[start] == '<'
      modifies this
      ensures var round := MarkupRound(vocabulary, text, start);
              && Output() == Appended(old(Output()), round.lexed)
              && next == round.next && rawText == round.rawText
    {
      rawText := None;
      if MatchesAt(text, start, "<!--") {
        var close := Find(text, start + 4, "-->");
        next := if close.Some? then close.value + 3 else |text|;
        PushToken(Comment, start, next, None, false);
        if next == |text| && !EndsWith(text[start..], "-->") {
          diagnostics := diagnostics + [Diagnostic(CommentUnclosed, start, next)];
        }
        return;
      }
      var end := ScanMarkupEnd(text, start);
      if end.None? {
        next := |text|;
        PushToken(Declaration, start, next, None, false);
        diagnostics := diagnostics + [Diagnostic(MarkupUnclosed, start, next)];
        return;
      }
      next := end.value;
      rawText := LexClosedMarkup(start, next);
    }

    /** Appends the token of closed markup. */
    method LexClosedMarkup(start: nat, end: nat) returns (rawText: Option<string>)
      requires start + 2 <= end <= |text|
      modifies this`tokens
      ensures tokens == old(tokens) + [MarkupToken(vocabulary, text, start, end)]
      ensures rawText == RawTextAfter(vocabulary, MarkupToken(vocabulary, text, start, end))
    {
      var trimmed := Trim(text[start + 1..end - 1]);
      rawText := None;
      if StartsWith(trimmed, ['?']) {
        PushToken(ProcessingInstruction, start, end, InstructionName(trimmed), false);
      } else if StartsWith(trimmed, ['!']) {
        PushToken(if IsDoctype(trimmed) then Doctype else Declaration, start, end, None, false);
      } else if StartsWith(trimmed, ['/']) {
        PushToken(EndTag, start, end, Some(MarkupName(trimmed[1..])), false);
      } else {
        var name := MarkupName(trimmed);
        if name == [] {
          PushToken(PlainText, start, end, None, false);
          return;
        }
        var normalized := Lower(name);
        var selfClosing := EndsWith(TrimEnd(trimmed), ['/']) || normalized in vocabulary.voidElements;
        PushToken(StartTag, start, end, Some(name), selfClosing);
        if !selfClosing && normalized in vocabulary.rawTextElements {
          rawText := Some(normalized);
        }
      }
    }

    /** Appends text up to the next `<` and the markup there. */
    method LexText(cursor: nat) returns (next: nat, rawText: Option<string>)
      requires cursor <= |text|
      modifies this
      ensures var round := TextRound(vocabulary, text, cursor);
              && Output() == Appended(old(Output()), round.lexed)
              && next == round.next && rawText == round.rawText
    {
      var start := Find(text, cursor, "<");
      if start.None? {
        PushToken(PlainText, cursor, |text|, None, false);
        return |text|, None;
      }
      MatchesChar(text, start.value, "<", 0);
      AppendedAssociates(Output(), TextOnly(cursor, start.value), MarkupRound(vocabulary, text, start.value).lexed);
      PushToken(PlainText, cursor, start.value, None, false);
      next, rawText := LexMarkup(start.value);
    }

    /** Appends the tokens of one round; inside a raw-text element, its text comes first. */
    method LexNext(cursor: nat, rawText: Option<string>) returns (next: nat, rawText': Option<string>)
      requires cursor < |text|
      modifies this
      ensures var round := LexRound(vocabulary, text, cursor, rawText);
              && Output() == Appended(old(Output()), round.lexed)
              && next == round.next && rawText' == round.rawText
    {
      if rawText.Some? {
        if rawText.value == PLAINTEXT {
          PushToken(PlainText, cursor, |text|, None, false);
          return |text|, None;
        }
        var end := FindIgnoringCase(text, cursor, "</" + rawText.value);
        if end.None? {
          PushToken(PlainText, cursor, |text|, None, false);
          diagnostics := diagnostics + [Diagnostic(RawTextUnclosed, cursor, |text|)];
          return |text|, None;
        }
        AppendedAssociates(Output(), TextOnly(cursor, end.value), TextRound(vocabulary, text, end.value).lexed);
        PushToken(PlainText, cursor, end.value, None, false);
        next, rawText' := LexText(end.value);
      } else {
        next, rawText' := LexText(cursor);
      }
    }

    method LexSource()
      requires tokens == [] && diagnostics == []
      modifies this
      ensures Output() == Lex(vocabulary, text)
    {
      var cursor := 0;
      var rawText: Option<string> := None;
      ghost var rest := Lex(vocabulary, text);
      while cursor < |text|
        invariant rest == LexFrom(vocabulary, text, cursor, rawText)
        invariant Appended(Output(), rest) == Lex(vocabulary, text)
        decreases |text| - cursor
      {
        RoundAdvances(vocabulary, text, cursor, rawText);
        ghost var round := LexRound(vocabulary, text, cursor, rawText);
        ghost var after := LexFrom(vocabulary, text, round.next, round.rawText);
        AppendedAssociates(Output(), round.lexed, after);
        cursor, rawText := LexNext(cursor, rawText);
        rest := after;
      }
    }
  }
}

module HtmlVocabulary {
  import opened HtmlLexer
  import opened HtmlOutline

  const HTML5: Vocabulary := Vocabulary(
    {"area", "base", "br", "col", "embed", "hr", "img", "input", "link", "meta", "param", "source", "track", "wbr"},
    {"script", "style", "textarea", "title", "xmp", "iframe", "noembed", "noframes", "plaintext"})

  /** The lexer over the element names of HTML. */
  method LexHtml(text: string)
    returns (tokens: seq<Token>, diagnostics: seq<Diagnostic>, rootElements: nat, hasDoctype: bool)
    ensures Lexed(tokens, diagnostics) == Lex(HTML5, text)
    ensures rootElements == OutlineOf(tokens).roots && hasDoctype == OutlineOf(tokens).hasDoctype
  {
    var lexer := new Lexer(HTML5, text);
    lexer.LexSource();
    tokens, diagnostics := lexer.tokens, lexer.diagnostics;
    var outline := OutlineTokens(tokens);
    rootElements, hasDoctype := outline.roots, outline.hasDoctype;
  }
}
