/** Texts on which validation and pairing read a start tag differently. */
module HtmlReadings {
  import opened Wrappers
  import opened Text
  import opened HtmlLexer
  import opened HtmlVocabulary
  import opened HtmlTags
  import opened HtmlXhtml

  /** A start tag that only the pairing reads as empty, and its end tag. */
  predicate ReadDifferently(text: string, tokens: seq<Token>, name: string) {
    && InText(text, tokens) && |tokens| == 2
    && tokens[0].kind == StartTag && tokens[0].name == Some(name) && tokens[0].selfClosing
    && !ExplicitlyEmpty(RawOf(text, tokens[0]))
    && tokens[1].kind == EndTag && tokens[1].name == Some(name)
  }

  /** Validation is silent, but some element keeps no end tag. */
  ghost predicate SilentUnpaired(text: string, tokens: seq<Token>) {
    && InText(text, tokens) && Faults(TagsOf(text, tokens)) == []
    && !EveryOpenPaired(TagsOf(text, tokens), PairPrefix(tokens, |tokens|).closers)
  }

  lemma {:induction false} ReadDifferentlyUnpaired(text: string, tokens: seq<Token>, name: string)
    requires ReadDifferently(text, tokens, name)
    ensures SilentUnpaired(text, tokens)
  {
    var tags := TagsOf(text, tokens);
    OpenThenClose(tags, name);
    assert LexerLike(text, tokens);
    PairedIffEmptyAlike(text, tokens);
  }

  lemma {:induction false} RoundHere(v: Vocabulary, text: string, start: nat, token: Token, next: nat)
    requires start < next <= |text| && text[start] == '<'
    requires MarkupRound(v, text, start) == Round(Lexed([token], []), next, None)
    ensures LexRound(v, text, start, None) == Round(Lexed([token], []), next, None)
  {
    FoundHere(text, start);
    NothingBefore(MarkupRound(v, text, start).lexed, start);
  }

  lemma {:induction false} FoundHere(text: string, start: nat)
    requires start < |text| && text[start] == '<'
    ensures Find(text, start, "<") == Some(start)
  {
    assert text[start..start + 1] == "<";
  }

  lemma {:induction false} NothingBefore(lexed: Lexed, start: nat)
    ensures Appended(TextOnly(start, start), lexed) == lexed
  {
    assert [] + lexed.tokens == lexed.tokens && [] + lexed.diagnostics == lexed.diagnostics;
  }

  /** Where markup starts, the next token is that markup. */
  lemma {:induction false} LexedHere(v: Vocabulary, text: string, start: nat, token: Token, next: nat)
    requires start < next <= |text| && text[start] == '<'
    requires MarkupRound(v, text, start) == Round(Lexed([token], []), next, None)
    ensures LexFrom(v, text, start, None).tokens == [token] + LexFrom(v, text, next, None).tokens
  {
    RoundHere(v, text, start, token, next);
  }

  lemma {:induction false} LexedTwo(v: Vocabulary, text: string, middle: nat, first: Token, second: Token)
    requires 0 < middle < |text| && text[0] == '<' && text[middle] == '<'
    requires MarkupRound(v, text, 0) == Round(Lexed([first], []), middle, None)
    requires MarkupRound(v, text, middle) == Round(Lexed([second], []), |text|, None)
    ensures Lex(v, text).tokens == [first, second]
  {
    LexedHere(v, text, middle, second, |text|);
    LexedHere(v, text, 0, first, middle);
    assert [second] + [] == [second];
    assert [first] + [second] == [first, second];
  }

  /** Markup without quotes ends at its first `>`. */
  lemma {:induction false} UnquotedMarkupEnd(text: string, i: nat, end: nat)
    requires i < end <= |text| && text[end - 1] == '>'
    requires forall k :: i <= k < end - 1 ==> text[k] !in {'\'', '"', '>'}
    ensures MarkupEndFrom(text, i, None) == Some(end)
    decreases end - i
  {
    if i < end - 1 {
      UnquotedMarkupEnd(text, i + 1, end);
    }
  }

  /** Trimming a text with nothing to trim at its ends. */
  lemma {:induction false} TrimKeeps(s: string)
    requires s != [] && !IsWhitespace(s[0]) && !IsWhitespace(s[|s| - 1])
    ensures Trim(s) == s
  {
  }

  lemma {:induction false} OpeningTag(v: Vocabulary, text: string, end: nat, inner: string, name: string)
    requires 2 <= end <= |text| && text[0] == '<' && text[1] != '!' && MarkupEnd(text, 0) == Some(end)
    requires Trim(text[1..end - 1]) == inner && inner != [] && inner[0] !in {'!', '?', '/'}
    requires MarkupName(inner) == name != [] && (EndsWith(TrimEnd(inner), ['/']) || Lower(name) in v.voidElements)
    ensures MarkupRound(v, text, 0) == Round(Lexed([Token(StartTag, 0, end, Some(name), true)], []), end, None)
  {
    assert !MatchesAt(text, 0, "<!--") by {
      if MatchesAt(text, 0, "<!--") {
        MatchesChar(text, 0, "<!--", 1);
      }
    }
  }

  lemma {:induction false} ClosingTag(v: Vocabulary, text: string, start: nat, end: nat, name: string)
    requires start + 3 <= end <= |text| && text[start] == '<' && MarkupEnd(text, start) == Some(end)
    requires text[start + 1..end - 1] == ['/'] + name && name != [] && MarkupName(name) == name
    requires !IsWhitespace(name[|name| - 1])
    ensures MarkupRound(v, text, start) == Round(Lexed([Token(EndTag, start, end, Some(name), false)], []), end, None)
  {
    var inner := ['/'] + name;
    TrimKeeps(inner);
    assert inner[1..] == name;
    assert text[start + 1] == text[start + 1..end - 1][0] == '/';
    assert !MatchesAt(text, start, "<!--") by {
      if MatchesAt(text, start, "<!--") {
        MatchesChar(text, start, "<!--", 1);
      }
    }
  }

  /** A text of two tags: one that only the pairing reads as empty, and its end tag. */
  ghost predicate OneElement(v: Vocabulary, text: string, middle: nat, inner: string, name: string) {
    && 2 <= middle && middle + 3 <= |text| && text[0] == '<' && text[1] != '!' && text[middle] == '<'
    && MarkupEnd(text, 0) == Some(middle) && MarkupEnd(text, middle) == Some(|text|)
    && Trim(text[1..middle - 1]) == inner && inner != [] && inner[0] !in {'!', '?', '/'}
    && MarkupName(inner) == name && MarkupName(name) == name && name != [] && !IsWhitespace(name[|name| - 1])
    && text[middle + 1..|text| - 1] == ['/'] + name
    && (EndsWith(TrimEnd(inner), ['/']) || Lower(name) in v.voidElements)
    && !ExplicitlyEmpty(text[0..middle])
  }

  function OneElementTokens(middle: nat, end: nat, name: string): (tokens: seq<Token>)
    ensures |tokens| == 2
  {
    [Token(StartTag, 0, middle, Some(name), true), Token(EndTag, middle, end, Some(name), false)]
  }

  lemma {:induction false} OneElementLexed(v: Vocabulary, text: string, middle: nat, inner: string, name: string)
    requires OneElement(v, text, middle, inner, name)
    ensures Lex(v, text).tokens == OneElementTokens(middle, |text|, name)
  {
    var tokens := OneElementTokens(middle, |text|, name);
    OpeningTag(v, text, middle, inner, name);
    ClosingTag(v, text, middle, |text|, name);
    LexedTwo(v, text, middle, tokens[0], tokens[1]);
  }

  lemma {:induction false} OneElementUnpaired(text: string, middle: nat, name: string)
    requires middle <= |text| && !ExplicitlyEmpty(text[0..middle])
    ensures SilentUnpaired(text, OneElementTokens(middle, |text|, name))
  {
    var tokens := OneElementTokens(middle, |text|, name);
    assert RawOf(text, tokens[0]) == text[0..middle];
    ReadDifferentlyUnpaired(text, tokens, name);
  }

  lemma {:induction false} TrimDropsSpace(s: string)
    requires s != [] && !IsWhitespace(s[0]) && !IsWhitespace(s[|s| - 1])
    ensures Trim(s + [' ']) == s
  {
    var content := s + [' '];
    assert TrimStart(content) == content;
    assert content[|s|] == ' ' && content[..|s|] == s;
    assert TrimEnd(content) == TrimEnd(s) == s;
  }

  lemma {:induction false} SpacedSlashName(inner: string, name: string)
    requires inner == "a /" && name == "a"
    ensures MarkupName(inner) == name && MarkupName(name) == name && EndsWith(TrimEnd(inner), ['/'])
  {
    assert inner[1..] == " /" && inner[2..] == ['/'] && name[1..] == [];
    assert MarkupName(inner[1..]) == [];
  }

  lemma {:induction false} SpacedSlashSlices(text: string)
    requires text == "<a / ></a>"
    ensures text[0..6] == "<a / >" && text[1..5] == "a /" + [' '] && text[7..9] == ['/'] + "a"
  {
  }

  lemma {:induction false} SpacedSlashIsOpen(raw: string)
    requires raw == "<a / >"
    ensures !ExplicitlyEmpty(raw)
  {
    assert raw[5] == '>' && raw[4] == ' ';
    assert TrimEnd(raw) == raw;
    assert raw[4..][0] == ' ';
  }

  lemma {:induction false} SpacedSlashEnds(text: string)
    requires text == "<a / ></a>"
    ensures MarkupEnd(text, 0) == Some(6) && MarkupEnd(text, 6) == Some(10)
  {
    UnquotedMarkupEnd(text, 1, 6);
    UnquotedMarkupEnd(text, 7, 10);
  }

  /**
   The two readings can differ: in the text `<a / ></a>` the start tag is
   self-closing for the pairing and open for validation, which is silent, so the
   element keeps no end tag.
   */
  lemma {:induction false} SpacedSlashDiffers(text: string)
    requires text == "<a / ></a>"
    ensures Lex(HTML5, text).tokens == OneElementTokens(6, 10, "a")
    ensures SilentUnpaired(text, Lex(HTML5, text).tokens)
  {
    var inner, name := "a /", "a";
    SpacedSlashEnds(text);
    SpacedSlashSlices(text);
    SpacedSlashIsOpen(text[0..6]);
    TrimDropsSpace(inner);
    SpacedSlashName(inner, name);
    OneElementLexed(HTML5, text, 6, inner, name);
    OneElementUnpaired(text, 6, name);
  }

  lemma {:induction false} VoidElementName(name: string, raw: string)
    requires name == "br" && raw == "<br>"
    ensures MarkupName(name) == name && Lower(name) == name && Trim(name) == name && !ExplicitlyEmpty(raw)
  {
    assert name[1..] == "r" && MarkupName(name[1..]) == "r";
    TrimKeeps(name);
    assert raw[3] == '>' && raw[2] == 'r' && TrimEnd(raw) == raw && raw[2..][0] == 'r';
  }

  lemma {:induction false} BrIsVoid(name: string)
    requires name == "br"
    ensures name in HTML5.voidElements
  {
  }

  lemma {:induction false} VoidElementEnds(text: string)
    requires text == "<br></br>"
    ensures MarkupEnd(text, 0) == Some(4) && MarkupEnd(text, 4) == Some(9)
  {
    UnquotedMarkupEnd(text, 1, 4);
    UnquotedMarkupEnd(text, 5, 9);
  }

  lemma {:induction false} VoidElementSlices(text: string, name: string)
    requires text == "<br></br>" && name == "br"
    ensures text[0..4] == "<br>" && text[1..3] == name && text[5..8] == ['/'] + name
  {
  }

  /** So does a void element without a slash: `<br></br>`. */
  lemma {:induction false} VoidElementDiffers(text: string, name: string)
    requires text == "<br></br>" && name == "br"
    ensures Lex(HTML5, text).tokens == OneElementTokens(4, 9, name)
    ensures SilentUnpaired(text, Lex(HTML5, text).tokens)
  {
    VoidElementEnds(text);
    VoidElementSlices(text, name);
    VoidElementName(name, text[0..4]);
    BrIsVoid(name);
    OneElementLexed(HTML5, text, 4, name, name);
    OneElementUnpaired(text, 4, name);
  }

  lemma {:induction false} OpenThenClose(tags: seq<Tag>, name: string)
    requires |tags| == 2 && tags[0] == Open(Some(name)) && tags[1] == Close(name)
    ensures Faults(tags) == []
  {
    var zero, one, two := ValidatePrefix(tags, 0), ValidatePrefix(tags, 1), ValidatePrefix(tags, 2);
    assert one == ValidateStep(tags, 0, zero);
    assert one == Validation([0], []);
    assert two == ValidateStep(tags, 1, one);
  }
}
