/**
 Where text begins and ends between tags: raw-text elements take everything up to
 their closing tag, comments end at their first mark, and what is left open at the
 end of the text is reported.
 */
module HtmlRawText {
  import opened Wrappers
  import opened Text
  import opened TextTheorems
  import opened Lists
  import opened HtmlLexer
  import opened HtmlTokens

  // ---------------------------------------------------------------------------
  // What a token list should hold

  /** The raw-text element that a token opens: a start tag that is not self-closing, by its lower-cased name. */
  function Opens(v: Vocabulary, token: Token): Option<string> {
    if token.kind.StartTag? && !token.selfClosing && token.name.Some? && Lower(token.name.value) in v.rawTextElements
    then Some(Lower(token.name.value)) else None
  }

  /** The first closing tag of that name, ignoring case. */
  ghost predicate ClosesFirst(text: string, start: nat, name: string, end: nat) {
    && name != "plaintext" && start <= end && MatchesIgnoringCase(text, end, "</" + name)
    && forall j: nat :: start <= j < end ==> !MatchesIgnoringCase(text, j, "</" + name)
  }

  ghost predicate NeverCloses(text: string, start: nat, name: string) {
    name == "plaintext" || forall j: nat :: start <= j ==> !MatchesIgnoringCase(text, j, "</" + name)
  }

  function TextToken(start: nat, end: nat): Token {
    Token(PlainText, start, end, None, false)
  }

  /** One plain-text token up to `end`, none if that is empty, and then a tag or unclosed markup that starts there. */
  predicate TextUpTo(start: nat, end: nat, tokens: seq<Token>) {
    var rest := if start == end || tokens == [] then tokens else tokens[1..];
    && (start < end ==> tokens != [] && tokens[0] == TextToken(start, end))
    && rest != [] && rest[0].start == end && (rest[0].kind.EndTag? || rest[0].kind.Declaration?)
  }

  /** Markup without a name. */
  predicate IsNameless(text: string, token: Token) {
    && IsClosedMarkup(text, token) && !MatchesAt(text, token.start, "<!--")
    && var inner := Inner(text, token.start, token.end);
       inner == [] || (inner[0] !in {'?', '!', '/'} && MarkupName(inner) == [])
  }

  /** Text up to the next `<`, or to the end. */
  predicate IsBetweenTags(text: string, token: Token) {
    && token.end <= |text| && (forall i :: token.start <= i < token.end ==> text[i] != '<')
    && (token.end < |text| ==> text[token.end] == '<')
  }

  /** The tokens after an offset where a raw-text element may be open. */
  ghost predicate Begins(text: string, start: nat, open: Option<string>, tokens: seq<Token>) {
    match open
    case None =>
      tokens != [] && tokens[0].kind.PlainText? ==> IsBetweenTags(text, tokens[0]) || IsNameless(text, tokens[0])
    case Some(name) =>
      && (forall end: nat :: ClosesFirst(text, start, name, end) ==> TextUpTo(start, end, tokens))
      && (NeverCloses(text, start, name) ==>
            tokens == if start < |text| then [TextToken(start, |text|)] else [])
  }

  ghost predicate AllBegin(v: Vocabulary, text: string, start: nat, open: Option<string>, tokens: seq<Token>)
    decreases |tokens|
  {
    && Begins(text, start, open, tokens)
    && (tokens != [] ==> AllBegin(v, text, tokens[0].end, Opens(v, tokens[0]), tokens[1..]))
  }

  // ---------------------------------------------------------------------------
  // What the lexer does

  lemma {:induction false} FoundFirst(s: string, from: nat, needle: string)
    requires from <= |s|
    ensures match FindIgnoringCase(s, from, needle)
            case None => forall j: nat :: from <= j ==> !MatchesIgnoringCase(s, j, needle)
            case Some(r) => forall j: nat :: from <= j < r ==> !MatchesIgnoringCase(s, j, needle)
    decreases |s| - from
  {
    if from < |s| && !MatchesIgnoringCase(s, from, needle) {
      FoundFirst(s, from + 1, needle);
    }
  }

  lemma {:induction false} OneMoreBegins(
    v: Vocabulary, text: string, start: nat, open: Option<string>, token: Token, rest: seq<Token>)
    requires Begins(text, start, open, [token] + rest) && AllBegin(v, text, token.end, Opens(v, token), rest)
    ensures AllBegin(v, text, start, open, [token] + rest)
  {
    assert ([token] + rest)[1..] == rest && ([token] + rest)[0] == token;
  }

  /** The token of closed markup. */
  lemma {:induction false} ClosedGives(v: Vocabulary, text: string, start: nat, end: nat)
    requires start < |text| && text[start] == '<' && !MatchesAt(text, start, "<!--")
    requires MarkupEnd(text, start) == Some(end)
    ensures var token := MarkupToken(v, text, start, end);
            && token.start == start && token.end == end && RawTextAfter(v, token) == Opens(v, token)
            && !token.kind.Comment? && (token.kind.PlainText? ==> IsNameless(text, token))
            && (IsAt(text, start + 1, '/') ==> token.kind.EndTag?)
  {
    if IsAt(text, start + 1, '/') {
      SlashFirst(text, start, end);
    }
  }

  /** The token of markup. */
  lemma {:induction false} MarkupGives(v: Vocabulary, text: string, start: nat) returns (token: Token)
    requires start < |text| && text[start] == '<'
    ensures var round := MarkupRound(v, text, start);
            && round.lexed.tokens == [token] && token.start == start && token.end == round.next
            && round.rawText == Opens(v, token)
    ensures token.kind.PlainText? ==> IsNameless(text, token)
    ensures IsAt(text, start + 1, '/') ==> token.kind.EndTag? || token.kind.Declaration?
  {
    var end := MarkupEnd(text, start);
    if MatchesAt(text, start, "<!--") {
      MatchesChar(text, start, "<!--", 1);
      token := Token(Comment, start, CommentRound(text, start).next, None, false);
    } else if end.None? {
      token := Token(Declaration, start, |text|, None, false);
    } else {
      token := MarkupToken(v, text, start, end.value);
      ClosedGives(v, text, start, end.value);
    }
  }

  lemma {:induction false} SlashFirst(text: string, start: nat, end: nat)
    requires start + 2 <= end <= |text| && IsAt(text, start + 1, '/') && text[end - 1] == '>'
    ensures Inner(text, start, end) != [] && Inner(text, start, end)[0] == '/'
  {
    var content := text[start + 1..end - 1];
    assert end > start + 2;
    assert content[0] == '/' && TrimStart(content) == content;
    TrimEndKeepsFirst(content);
  }

  lemma {:induction false} TrimEndKeepsFirst(s: string)
    requires s != [] && !IsWhitespace(s[0])
    ensures TrimEnd(s) != [] && TrimEnd(s)[0] == s[0]
  {
    if IsWhitespace(s[|s| - 1]) {
      TrimEndKeepsFirst(s[..|s| - 1]);
    }
  }

  lemma {:induction false} TextBegins(v: Vocabulary, text: string, cursor: nat, rest: seq<Token>)
    requires cursor <= |text|
    requires var round := TextRound(v, text, cursor); AllBegin(v, text, round.next, round.rawText, rest)
    ensures AllBegin(v, text, cursor, None, TextRound(v, text, cursor).lexed.tokens + rest)
  {
    var found := Find(text, cursor, "<");
    if found.Some? {
      var start := found.value;
      MatchesChar(text, start, "<", 0);
      var token := MarkupGives(v, text, start);
      OneMoreBegins(v, text, start, None, token, rest);
      BeforeMarkup(v, text, cursor, start, [token] + rest);
    } else {
      BeforeMarkup(v, text, cursor, |text|, rest);
    }
  }

  /** Text without a `<` up to an offset, before what begins there. */
  lemma {:induction false} BeforeMarkup(v: Vocabulary, text: string, cursor: nat, end: nat, rest: seq<Token>)
    requires cursor <= end <= |text| && AllBegin(v, text, end, None, rest)
    requires Find(text, cursor, "<") == if end < |text| then Some(end) else None
    ensures AllBegin(v, text, cursor, None, TextOnly(cursor, end).tokens + rest)
  {
    if cursor < end {
      forall i | cursor <= i < end ensures text[i] != '<' {
        assert !MatchesAt(text, i, "<");
        assert text[i..i + 1] == [text[i]];
      }
      if end < |text| {
        MatchesChar(text, end, "<", 0);
      }
      OneMoreBegins(v, text, cursor, None, TextToken(cursor, end), rest);
    } else {
      assert [] + rest == rest;
    }
  }

  lemma {:induction false} ClosingTagStands(text: string, at: nat, name: string)
    requires MatchesIgnoringCase(text, at, "</" + name)
    ensures IsAt(text, at, '<') && IsAt(text, at + 1, '/')
  {
    var needle := "</" + name;
    var s := text[at..at + |needle|];
    assert Lower(s)[0] == Lower(needle)[0] && Lower(s)[1] == Lower(needle)[1];
    assert LowerChar(s[0]) == LowerChar('<') && LowerChar(s[1]) == LowerChar('/');
  }

  lemma {:induction false} RoundAtMarkup(v: Vocabulary, text: string, at: nat)
    requires IsAt(text, at, '<')
    ensures TextRound(v, text, at) == MarkupRound(v, text, at)
  {
    assert text[at..at + 1] == "<" && MatchesAt(text, at, "<");
    var lexed := MarkupRound(v, text, at).lexed;
    assert [] + lexed.tokens == lexed.tokens && [] + lexed.diagnostics == lexed.diagnostics;
  }

  /** At a closing tag the next token is markup. */
  lemma {:induction false} ClosingTagGives(v: Vocabulary, text: string, at: nat, name: string) returns (token: Token)
    requires MatchesIgnoringCase(text, at, "</" + name)
    ensures IsAt(text, at, '<') && TextRound(v, text, at) == MarkupRound(v, text, at)
    ensures var round := MarkupRound(v, text, at);
            && round.lexed.tokens == [token] && token.start == at && token.end == round.next
            && round.rawText == Opens(v, token)
    ensures token.kind.EndTag? || token.kind.Declaration?
  {
    ClosingTagStands(text, at, name);
    RoundAtMarkup(v, text, at);
    token := MarkupGives(v, text, at);
  }

  /** What a raw-text element holds, when it is closed. */
  lemma {:induction false} ClosedRawBegins(
    v: Vocabulary, text: string, start: nat, name: string, end: nat, token: Token, rest: seq<Token>)
    requires ClosesFirst(text, start, name, end)
    requires token.start == end && (token.kind.EndTag? || token.kind.Declaration?)
    requires AllBegin(v, text, token.end, Opens(v, token), rest)
    ensures AllBegin(v, text, start, Some(name), TextOnly(start, end).tokens + ([token] + rest))
  {
    var tokens := TextOnly(start, end).tokens + ([token] + rest);
    OneMoreBegins(v, text, end, None, token, rest);
    OnlyOneEnd(text, start, name, end);
    if start < end {
      assert tokens[0] == TextToken(start, end) && tokens[1..] == [token] + rest;
      OneMoreBegins(v, text, start, Some(name), TextToken(start, end), [token] + rest);
    } else {
      assert tokens == [token] + rest;
      OneMoreBegins(v, text, start, Some(name), token, rest);
    }
  }

  lemma {:induction false} OnlyOneEnd(text: string, start: nat, name: string, end: nat)
    requires ClosesFirst(text, start, name, end)
    ensures !NeverCloses(text, start, name) && forall other: nat :: ClosesFirst(text, start, name, other) ==> other == end
  {
    forall other: nat | ClosesFirst(text, start, name, other) ensures other == end {
      assert MatchesIgnoringCase(text, other, "</" + name) && MatchesIgnoringCase(text, end, "</" + name);
    }
  }

  lemma {:induction false} OpenRawBegins(v: Vocabulary, text: string, start: nat, name: string)
    requires start <= |text| && NeverCloses(text, start, name)
    ensures AllBegin(v, text, start, Some(name), TextOnly(start, |text|).tokens)
  {
    assert forall end: nat :: !ClosesFirst(text, start, name, end);
    assert AllBegin(v, text, |text|, None, []);
    if start < |text| {
      OneMoreBegins(v, text, start, Some(name), TextToken(start, |text|), []);
      assert [TextToken(start, |text|)] + [] == [TextToken(start, |text|)];
    }
  }

  /** Where the code looks for the closing tag, it is the first one. */
  lemma {:induction false} RawTextEndIs(text: string, start: nat, name: string)
    requires start <= |text|
    ensures match RawTextEnd(text, start, name)
            case None => NeverCloses(text, start, name)
            case Some(end) => ClosesFirst(text, start, name, end)
  {
    if name != PLAINTEXT {
      FoundFirst(text, start, "</" + name);
    }
  }

  lemma {:induction false} RoundBegins(v: Vocabulary, text: string, start: nat, open: Option<string>, rest: seq<Token>)
    requires start < |text|
    requires var round := LexRound(v, text, start, open);
             AllBegin(v, text, round.next, round.rawText, rest) && (round.next == |text| ==> rest == [])
    ensures AllBegin(v, text, start, open, LexRound(v, text, start, open).lexed.tokens + rest)
  {
    if open.None? {
      TextBegins(v, text, start, rest);
    } else {
      var found := RawTextEnd(text, start, open.value);
      RawTextEndIs(text, start, open.value);
      if found.Some? {
        var token := ClosingTagGives(v, text, found.value, open.value);
        ClosedRawBegins(v, text, start, open.value, found.value, token, rest);
        Regroup(TextOnly(start, found.value).tokens, [token], rest);
      } else {
        OpenRawBegins(v, text, start, open.value);
        assert TextOnly(start, |text|).tokens + [] == TextOnly(start, |text|).tokens;
      }
    }
  }

  lemma {:induction false} LexedBegin(v: Vocabulary, text: string, start: nat, open: Option<string>)
    requires start <= |text|
    ensures AllBegin(v, text, start, open, LexFrom(v, text, start, open).tokens)
    decreases |text| - start
  {
    if start < |text| {
      RoundAdvances(v, text, start, open);
      var round := LexRound(v, text, start, open);
      LexedBegin(v, text, round.next, round.rawText);
      RoundBegins(v, text, start, open, LexFrom(v, text, round.next, round.rawText).tokens);
    } else if open.Some? {
      assert |"</" + open.value| >= 2;
      OpenRawBegins(v, text, start, open.value);
    }
  }

  /** The raw-text element that is open before the i-th token, and where its text starts. */
  function OpenBefore(v: Vocabulary, tokens: seq<Token>, i: nat): Option<string>
    requires i <= |tokens|
  {
    if i == 0 then None else Opens(v, tokens[i - 1])
  }

  function StartOf(tokens: seq<Token>, start: nat, i: nat): nat
    requires i <= |tokens|
  {
    if i == 0 then start else tokens[i - 1].end
  }

  lemma {:induction false} AllBeginAt(
    v: Vocabulary, text: string, start: nat, open: Option<string>, tokens: seq<Token>, i: nat)
    requires AllBegin(v, text, start, open, tokens) && i <= |tokens|
    ensures Begins(text, StartOf(tokens, start, i), if i == 0 then open else OpenBefore(v, tokens, i), tokens[i..])
    decreases |tokens|
  {
    if i == 0 {
      assert tokens[0..] == tokens;
    } else {
      AllBeginAt(v, text, tokens[0].end, Opens(v, tokens[0]), tokens[1..], i - 1);
      assert tokens[1..][i - 1..] == tokens[i..];
    }
  }

  /**
   For every text, at every place of its token list: after a start tag that opens
   a raw-text element everything up to the first closing tag of that name, or to
   the end of the text, is one plain-text token; any other plain text has no `<`
   in it, or is markup without a name.
   */
  lemma {:induction false} RawTextIsTaken(v: Vocabulary, text: string, i: nat)
    requires i <= |Lex(v, text).tokens|
    ensures var tokens := Lex(v, text).tokens;
            Begins(text, StartOf(tokens, 0, i), OpenBefore(v, tokens, i), tokens[i..])
  {
    LexedBegin(v, text, 0, None);
    AllBeginAt(v, text, 0, None, Lex(v, text).tokens, i);
  }

  // ---------------------------------------------------------------------------
  // What is reported

  /** What is left open at the end of the text, by the last tokens; `open` is open before the first one. */
  ghost predicate LeftOpen(v: Vocabulary, text: string, open: Option<string>, tokens: seq<Token>, defect: Defect) {
    && tokens != []
    && var last := tokens[|tokens| - 1];
       match defect
       case CommentUnclosed => last.kind.Comment? && last.start <= |text| && !EndsWith(text[last.start..], "-->")
       case MarkupUnclosed => last.kind.Declaration? && MarkupEnd(text, last.start).None?
       case RawTextUnclosed =>
         && last.kind.PlainText?
         && var before := if |tokens| == 1 then open else Opens(v, tokens[|tokens| - 2]);
            before.Some? && before.value != "plaintext" && NeverCloses(text, last.start, before.value)
  }

  /** Exactly what is left open is reported, up to the end of the text. */
  ghost predicate Reported(
    v: Vocabulary, text: string, open: Option<string>, tokens: seq<Token>, diagnostics: seq<Diagnostic>)
  {
    && (forall defect :: LeftOpen(v, text, open, tokens, defect) ==>
          diagnostics == [Diagnostic(defect, tokens[|tokens| - 1].start, |text|)])
    && (diagnostics != [] ==> LeftOpen(v, text, open, tokens, diagnostics[0].defect))
  }

  lemma {:induction false} OneMoreReported(
    v: Vocabulary, text: string, open: Option<string>, token: Token, rest: seq<Token>, diagnostics: seq<Diagnostic>)
    requires rest != [] && Reported(v, text, Opens(v, token), rest, diagnostics)
    ensures Reported(v, text, open, [token] + rest, diagnostics)
  {
    var tokens := [token] + rest;
    assert tokens[|tokens| - 1] == rest[|rest| - 1];
    assert tokens[|tokens| - 2] == if |rest| == 1 then token else rest[|rest| - 2];
    assert forall defect :: LeftOpen(v, text, open, tokens, defect) == LeftOpen(v, text, Opens(v, token), rest, defect);
  }

  lemma {:induction false} CommentReported(v: Vocabulary, text: string, start: nat, open: Option<string>, token: Token)
    requires MatchesAt(text, start, "<!--") && CommentRound(text, start).lexed.tokens == [token]
    ensures token.kind == Comment && token.start == start
    ensures var round := CommentRound(text, start);
            if round.next < |text| then round.lexed.diagnostics == []
            else Reported(v, text, open, [token], round.lexed.diagnostics)
  {
    var round := CommentRound(text, start);
    assert token == Token(Comment, start, round.next, None, false);
    var closed := EndsWith(text[start..], "-->");
    assert LeftOpen(v, text, open, [token], CommentUnclosed) <==> !closed;
  }

  lemma {:induction false} ClosedReported(v: Vocabulary, text: string, open: Option<string>, token: Token)
    requires MarkupEnd(text, token.start).Some? && token.kind != Comment && (token.kind.PlainText? ==> open.None?)
    ensures Reported(v, text, open, [token], [])
  {
  }

  lemma {:induction false} UnclosedReported(v: Vocabulary, text: string, start: nat, open: Option<string>)
    requires MarkupEnd(text, start).None?
    ensures Reported(v, text, open, [Token(Declaration, start, |text|, None, false)],
                     [Diagnostic(MarkupUnclosed, start, |text|)])
  {
    var token := Token(Declaration, start, |text|, None, false);
    assert LeftOpen(v, text, open, [token], MarkupUnclosed);
  }

  /** The one token of markup, and what is reported of it. */
  lemma {:induction false} MarkupReported(v: Vocabulary, text: string, start: nat, open: Option<string>, token: Token)
    requires start < |text| && text[start] == '<' && MarkupRound(v, text, start).lexed.tokens == [token]
    requires token.start == start && (token.kind.PlainText? ==> open.None?)
    ensures var round := MarkupRound(v, text, start);
            if round.next < |text| then round.lexed.diagnostics == []
            else Reported(v, text, open, [token], round.lexed.diagnostics)
  {
    if MatchesAt(text, start, "<!--") {
      CommentReported(v, text, start, open, token);
    } else if MarkupEnd(text, start).None? {
      assert token == [token][0];
      UnclosedReported(v, text, start, open);
    } else {
      assert token == [token][0];
      ClosedReported(v, text, open, token);
    }
  }

  lemma {:induction false} TextRoundReported(
    v: Vocabulary, text: string, cursor: nat, rest: seq<Token>, diagnostics: seq<Diagnostic>)
    requires cursor < |text|
    requires var round := TextRound(v, text, cursor);
             && Reported(v, text, round.rawText, rest, diagnostics)
             && (round.next == |text| ==> rest == [] && diagnostics == []) && (round.next < |text| ==> rest != [])
    ensures var round := TextRound(v, text, cursor);
            Reported(v, text, None, round.lexed.tokens + rest, round.lexed.diagnostics + diagnostics)
  {
    var round, found := TextRound(v, text, cursor), Find(text, cursor, "<");
    if found.Some? {
      var start := found.value;
      MatchesChar(text, start, "<", 0);
      var token := MarkupGives(v, text, start);
      MarkupReported(v, text, start, None, token);
      var markup := MarkupRound(v, text, start);
      assert [] + markup.lexed.diagnostics == markup.lexed.diagnostics == round.lexed.diagnostics;
      MarkupThenRest(v, text, None, token, markup.next, rest, round.lexed.diagnostics, diagnostics);
      BeforeReported(v, text, cursor, start, [token] + rest, round.lexed.diagnostics + diagnostics);
      Regroup(TextOnly(cursor, start).tokens, [token], rest);
    } else {
      assert round.lexed.tokens + [] == [TextToken(cursor, |text|)] && round.lexed.diagnostics + [] == [];
    }
  }

  /** A token of markup, and after it either nothing more or nothing reported of it. */
  lemma {:induction false} MarkupThenRest(
    v: Vocabulary, text: string, open: Option<string>, token: Token, next: nat, rest: seq<Token>,
    own: seq<Diagnostic>, diagnostics: seq<Diagnostic>)
    requires if next < |text| then own == [] else Reported(v, text, open, [token], own)
    requires next < |text| ==> rest != [] && Reported(v, text, Opens(v, token), rest, diagnostics)
    requires next >= |text| ==> rest == [] && diagnostics == []
    ensures Reported(v, text, open, [token] + rest, own + diagnostics)
  {
    if next < |text| {
      OneMoreReported(v, text, open, token, rest, diagnostics);
      assert own + diagnostics == diagnostics;
    } else {
      assert [token] + rest == [token] && own + diagnostics == own;
    }
  }

  /** Plain text in front, if there is any. */
  lemma {:induction false} BeforeReported(
    v: Vocabulary, text: string, start: nat, end: nat, rest: seq<Token>, diagnostics: seq<Diagnostic>)
    requires rest != [] && Reported(v, text, None, rest, diagnostics)
    ensures Reported(v, text, None, TextOnly(start, end).tokens + rest, diagnostics)
  {
    if start < end {
      OneMoreReported(v, text, None, TextToken(start, end), rest, diagnostics);
    } else {
      assert [] + rest == rest;
    }
  }

  /** Text of an element in front of its closing tag, if there is any. */
  lemma {:induction false} RawBeforeReported(
    v: Vocabulary, text: string, start: nat, name: string, end: nat, tokens: seq<Token>, diagnostics: seq<Diagnostic>)
    requires tokens != [] && Reported(v, text, None, tokens, diagnostics) && Reported(v, text, Some(name), tokens, diagnostics)
    ensures Reported(v, text, Some(name), TextOnly(start, end).tokens + tokens, diagnostics)
  {
    if start < end {
      OneMoreReported(v, text, Some(name), TextToken(start, end), tokens, diagnostics);
    } else {
      assert [] + tokens == tokens;
    }
  }

  lemma {:induction false} RawRoundReported(
    v: Vocabulary, text: string, start: nat, name: string, end: nat, rest: seq<Token>, diagnostics: seq<Diagnostic>)
    requires ClosesFirst(text, start, name, end)
    requires var round := TextRound(v, text, end);
             && Reported(v, text, round.rawText, rest, diagnostics)
             && (round.next == |text| ==> rest == [] && diagnostics == []) && (round.next < |text| ==> rest != [])
             && round.next <= |text|
    ensures var round := TextRound(v, text, end);
            Reported(v, text, Some(name), TextOnly(start, end).tokens + round.lexed.tokens + rest,
                     round.lexed.diagnostics + diagnostics)
  {
    var token := ClosingTagGives(v, text, end, name);
    var round := MarkupRound(v, text, end);
    MarkupReported(v, text, end, Some(name), token);
    MarkupReported(v, text, end, None, token);
    MarkupThenRest(v, text, Some(name), token, round.next, rest, round.lexed.diagnostics, diagnostics);
    MarkupThenRest(v, text, None, token, round.next, rest, round.lexed.diagnostics, diagnostics);
    RawBeforeReported(v, text, start, name, end, [token] + rest, round.lexed.diagnostics + diagnostics);
    Regroup(TextOnly(start, end).tokens, [token], rest);
  }

  lemma {:induction false} LexedReported(v: Vocabulary, text: string, start: nat, open: Option<string>)
    requires start <= |text|
    ensures var lexed := LexFrom(v, text, start, open);
            Reported(v, text, open, lexed.tokens, lexed.diagnostics) && (start < |text| ==> lexed.tokens != [])
    decreases |text| - start
  {
    if start < |text| {
      RoundAdvances(v, text, start, open);
      LexFromTiles(v, text, start, open);
      var round := LexRound(v, text, start, open);
      var rest := LexFrom(v, text, round.next, round.rawText);
      LexedReported(v, text, round.next, round.rawText);
      if open.None? {
        TextRoundReported(v, text, start, rest.tokens, rest.diagnostics);
      } else {
        RawTextEndIs(text, start, open.value);
        var found := RawTextEnd(text, start, open.value);
        if found.Some? {
          RawRoundReported(v, text, start, open.value, found.value, rest.tokens, rest.diagnostics);
        } else {
          OpenRawReported(v, text, start, open.value);
          assert round.lexed.tokens + [] == round.lexed.tokens;
          assert round.lexed.diagnostics + [] == round.lexed.diagnostics;
        }
      }
    }
  }

  lemma {:induction false} OpenRawReported(v: Vocabulary, text: string, start: nat, name: string)
    requires start < |text| && NeverCloses(text, start, name)
    ensures Reported(v, text, Some(name), [TextToken(start, |text|)],
                     if name == "plaintext" then [] else [Diagnostic(RawTextUnclosed, start, |text|)])
  {
    assert LeftOpen(v, text, Some(name), [TextToken(start, |text|)], RawTextUnclosed) <==> name != "plaintext";
  }

  /**
   For every text: a comment, markup or raw text is reported exactly if it is the
   last token and is left open, and nothing else is reported.
   */
  lemma {:induction false} LeftOpenIsReported(v: Vocabulary, text: string)
    ensures var lexed := Lex(v, text); Reported(v, text, None, lexed.tokens, lexed.diagnostics)
  {
    LexedReported(v, text, 0, None);
  }

  // ---------------------------------------------------------------------------
  // Names

  /** A character that goes on with a markup name. */
  predicate IsNameChar(c: char) {
    !IsWhitespace(c) && c != '/' && c != '>' && c != '?'
  }

  predicate IsName(name: string) {
    forall i :: 0 <= i < |name| ==> IsNameChar(name[i])
  }

  /** A name is read up to the first character that cannot belong to it. */
  lemma {:induction false} MarkupNameReads(name: string, rest: string)
    requires IsName(name) && (rest != [] ==> !IsNameChar(rest[0]))
    ensures MarkupName(name + rest) == name
  {
    if name == [] {
      assert name + rest == rest;
    } else {
      assert (name + rest)[1..] == name[1..] + rest;
      MarkupNameReads(name[1..], rest);
    }
  }

  /** The name of an instruction comes after its question marks and white space. */
  lemma {:induction false} InstructionNameReads(marks: string, before: string, name: string, rest: string)
    requires (forall i :: 0 <= i < |marks| ==> marks[i] == '?') && IsWhite(before)
    requires IsName(name) && name != [] && (rest != [] ==> !IsNameChar(rest[0]))
    ensures InstructionName(marks + (before + (name + rest))) == Some(name)
  {
    var inner := before + (name + rest);
    if marks == [] {
      assert marks + inner == inner;
      assert inner[0] != '?' by {
        assert before != [] ==> IsWhitespace(before[0]);
      }
      TrimStartDrops(before, name + rest);
      MarkupNameReads(name, rest);
    } else {
      assert (marks + inner)[1..] == marks[1..] + inner;
      InstructionNameReads(marks[1..], before, name, rest);
    }
  }

  // ---------------------------------------------------------------------------
  // Where markup ends

  lemma {:induction false} MarkupEndFromIs(text: string, start: nat, cursor: nat)
    requires start <= cursor <= |text|
    requires forall p :: start <= p < cursor ==> !(text[p] == '>' && OpenQuote(text, start, p) == None)
    ensures match MarkupEndFrom(text, cursor, OpenQuote(text, start, cursor))
            case None => forall at :: !FirstUnquoted(text, start, at, '>')
            case Some(end) => FirstUnquoted(text, start, end - 1, '>')
    decreases |text| - cursor
  {
    if cursor < |text| {
      var next := cursor + 1;
      if OpenQuote(text, start, cursor).Some? || text[cursor] != '>' {
        MarkupEndFromIs(text, start, next);
      } else {
        assert FirstUnquoted(text, start, cursor, '>');
      }
    }
  }

  /** Markup ends with its first `>` outside quotes, and nowhere without one. */
  lemma {:induction false} MarkupEndIs(text: string, start: nat)
    requires start < |text|
    ensures var inner := start + 1;
            match MarkupEnd(text, start)
            case None => forall at :: !FirstUnquoted(text, inner, at, '>')
            case Some(end) => FirstUnquoted(text, inner, end - 1, '>')
  {
    var inner := start + 1;
    MarkupEndFromIs(text, inner, inner);
  }
}
