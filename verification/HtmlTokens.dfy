/** The lexer loses nothing: its tokens tile the text, each shaped as its kind says. */
module HtmlTokens {
  import opened Wrappers
  import opened Text
  import opened HtmlLexer

  /** Non-empty tokens that follow one another from `start` to `end`. */
  predicate Tiles(tokens: seq<Token>, start: nat, end: nat) {
    if tokens == [] then start == end
    else tokens[0].start == start < tokens[0].end && Tiles(tokens[1..], tokens[0].end, end)
  }

  lemma {:induction false} TilesAppend(a: seq<Token>, b: seq<Token>, start: nat, middle: nat, end: nat)
    requires Tiles(a, start, middle) && Tiles(b, middle, end)
    ensures Tiles(a + b, start, end)
  {
    if a == [] {
      assert a + b == b;
    } else {
      assert (a + b)[1..] == a[1..] + b;
      TilesAppend(a[1..], b, a[0].end, middle, end);
    }
  }

  predicate IsClosedMarkup(text: string, token: Token) {
    && token.start + 2 <= token.end <= |text|
    && text[token.start] == '<'
    && MarkupEnd(text, token.start) == Some(token.end)
  }

  /** A start tag has a name; it is self-closing if it ends with a slash or names a void element. */
  predicate ShapedStart(v: Vocabulary, text: string, token: Token)
    requires IsClosedMarkup(text, token)
  {
    var inner := Inner(text, token.start, token.end);
    && token.name == Some(MarkupName(inner)) && token.name.value != []
    && (token.selfClosing <==> EndsWith(TrimEnd(inner), ['/']) || Lower(token.name.value) in v.voidElements)
  }

  /** A comment ends at the first mark after its own, or else at the end of the text. */
  ghost predicate IsComment(text: string, token: Token) {
    && MatchesAt(text, token.start, "<!--")
    && if forall j: nat :: token.start + 4 <= j ==> !MatchesAt(text, j, "-->") then token.end == |text|
       else
         && token.start + 7 <= token.end && MatchesAt(text, token.end - 3, "-->")
         && forall j: nat :: token.start + 4 <= j < token.end - 3 ==> !MatchesAt(text, j, "-->")
  }

  /** What a token of each kind looks like in the text. */
  ghost predicate Shaped(v: Vocabulary, text: string, token: Token) {
    && token.end <= |text|
    && match token.kind
       case PlainText => token.name.None? && !token.selfClosing
       case Comment => IsComment(text, token)
       case StartTag => IsClosedMarkup(text, token) && ShapedStart(v, text, token)
       case EndTag =>
         && IsClosedMarkup(text, token)
         && var inner := Inner(text, token.start, token.end);
            inner != [] && inner[0] == '/' && token.name == Some(MarkupName(inner[1..]))
       case ProcessingInstruction =>
         && IsClosedMarkup(text, token) && StartsWith(Inner(text, token.start, token.end), ['?'])
         && token.name == InstructionName(Inner(text, token.start, token.end))
       case Doctype =>
         && IsClosedMarkup(text, token)
         && StartsWith(Inner(text, token.start, token.end), ['!']) && IsDoctype(Inner(text, token.start, token.end))
       case Declaration =>
         if MarkupEnd(text, token.start).None? then token.end == |text|
         else
           && IsClosedMarkup(text, token)
           && StartsWith(Inner(text, token.start, token.end), ['!']) && !IsDoctype(Inner(text, token.start, token.end))
  }

  ghost predicate AllShaped(v: Vocabulary, text: string, tokens: seq<Token>) {
    forall i :: 0 <= i < |tokens| ==> Shaped(v, text, tokens[i])
  }

  lemma {:induction false} CommentRoundTiles(v: Vocabulary, text: string, start: nat)
    requires MatchesAt(text, start, "<!--")
    ensures var round := CommentRound(text, start);
            Tiles(round.lexed.tokens, start, round.next) && AllShaped(v, text, round.lexed.tokens)
  {
    var round := CommentRound(text, start);
    var token := Token(Comment, start, round.next, None, false);
    assert round.lexed.tokens == [token];
    var close := Find(text, start + 4, "-->");
    if close.Some? {
      assert token.end - 3 == close.value;
    }
    assert Shaped(v, text, token);
  }

  lemma {:induction false} ClosedTokenShaped(v: Vocabulary, text: string, start: nat, end: nat)
    requires start < |text| && text[start] == '<' && MarkupEnd(text, start) == Some(end)
    ensures Shaped(v, text, MarkupToken(v, text, start, end))
    ensures MarkupToken(v, text, start, end).start == start && MarkupToken(v, text, start, end).end == end
  {
    var inner := Inner(text, start, end);
    if inner != [] {
      assert StartsWith(inner, ['?']) <==> inner[0] == '?';
      assert StartsWith(inner, ['!']) <==> inner[0] == '!';
    }
  }

  lemma {:induction false} SingleToken(v: Vocabulary, text: string, token: Token, start: nat, end: nat)
    requires token.start == start < token.end == end
    requires Shaped(v, text, token)
    ensures Tiles([token], start, end) && AllShaped(v, text, [token])
  {
    assert Tiles([token][1..], end, end);
  }

  lemma {:induction false} ClosedRoundTiles(v: Vocabulary, text: string, start: nat, end: nat)
    requires start < |text| && text[start] == '<' && !MatchesAt(text, start, "<!--")
    requires MarkupEnd(text, start) == Some(end)
    ensures var round := MarkupRound(v, text, start);
            Tiles(round.lexed.tokens, start, round.next) && AllShaped(v, text, round.lexed.tokens)
  {
    var token := MarkupToken(v, text, start, end);
    ClosedTokenShaped(v, text, start, end);
    SingleToken(v, text, token, start, end);
    var round := MarkupRound(v, text, start);
    assert round == Round(Lexed([token], []), end, RawTextAfter(v, token));
  }

  lemma {:induction false} UnclosedRoundTiles(v: Vocabulary, text: string, start: nat)
    requires start < |text| && text[start] == '<' && !MatchesAt(text, start, "<!--")
    requires MarkupEnd(text, start).None?
    ensures var round := MarkupRound(v, text, start);
            Tiles(round.lexed.tokens, start, round.next) && AllShaped(v, text, round.lexed.tokens)
  {
    var token := Token(Declaration, start, |text|, None, false);
    assert Shaped(v, text, token);
    SingleToken(v, text, token, start, |text|);
    assert MarkupRound(v, text, start).lexed.tokens == [token];
  }

  lemma {:induction false} MarkupRoundTiles(v: Vocabulary, text: string, start: nat)
    requires start < |text| && text[start] == '<'
    ensures var round := MarkupRound(v, text, start);
            Tiles(round.lexed.tokens, start, round.next) && AllShaped(v, text, round.lexed.tokens)
  {
    if MatchesAt(text, start, "<!--") {
      CommentRoundTiles(v, text, start);
      assert MarkupRound(v, text, start) == CommentRound(text, start);
    } else {
      var end := MarkupEnd(text, start);
      if end.Some? {
        ClosedRoundTiles(v, text, start, end.value);
      } else {
        UnclosedRoundTiles(v, text, start);
      }
    }
  }

  lemma {:induction false} TextRoundTiles(v: Vocabulary, text: string, cursor: nat)
    requires cursor <= |text|
    ensures var round := TextRound(v, text, cursor);
            Tiles(round.lexed.tokens, cursor, round.next) && AllShaped(v, text, round.lexed.tokens)
  {
    var found := Find(text, cursor, "<");
    if found.Some? {
      MatchesChar(text, found.value, "<", 0);
      MarkupRoundTiles(v, text, found.value);
      var markup := MarkupRound(v, text, found.value);
      TilesAppend(TextOnly(cursor, found.value).tokens, markup.lexed.tokens, cursor, found.value, markup.next);
    }
  }

  lemma {:induction false} TextThenRoundTiles(v: Vocabulary, text: string, cursor: nat, end: nat, rest: Round)
    requires cursor <= end <= |text| && rest == TextRound(v, text, end)
    ensures var lexed := Appended(TextOnly(cursor, end), rest.lexed);
            Tiles(lexed.tokens, cursor, rest.next) && AllShaped(v, text, lexed.tokens)
  {
    TextRoundTiles(v, text, end);
    var before := TextOnly(cursor, end).tokens;
    assert AllShaped(v, text, before);
    if cursor < end {
      SingleToken(v, text, Token(PlainText, cursor, end, None, false), cursor, end);
    }
    TilesAppend(before, rest.lexed.tokens, cursor, end, rest.next);
  }

  lemma {:induction false} LexRoundTiles(v: Vocabulary, text: string, cursor: nat, rawText: Option<string>)
    requires cursor < |text|
    ensures var round := LexRound(v, text, cursor, rawText);
            Tiles(round.lexed.tokens, cursor, round.next) && AllShaped(v, text, round.lexed.tokens)
  {
    if rawText.None? {
      TextRoundTiles(v, text, cursor);
    } else {
      var end := RawTextEnd(text, cursor, rawText.value);
      if end.Some? {
        TextThenRoundTiles(v, text, cursor, end.value, TextRound(v, text, end.value));
      } else {
        SingleToken(v, text, Token(PlainText, cursor, |text|, None, false), cursor, |text|);
      }
    }
  }

  lemma {:induction false} LexFromTiles(v: Vocabulary, text: string, cursor: nat, rawText: Option<string>)
    requires cursor <= |text|
    ensures var tokens := LexFrom(v, text, cursor, rawText).tokens;
            Tiles(tokens, cursor, |text|) && AllShaped(v, text, tokens)
    decreases |text| - cursor
  {
    if cursor < |text| {
      RoundAdvances(v, text, cursor, rawText);
      LexRoundTiles(v, text, cursor, rawText);
      var round := LexRound(v, text, cursor, rawText);
      LexFromTiles(v, text, round.next, round.rawText);
      TilesAppend(round.lexed.tokens, LexFrom(v, text, round.next, round.rawText).tokens, cursor, round.next, |text|);
    }
  }

  function Concatenated(text: string, tokens: seq<Token>): string
    requires forall i :: 0 <= i < |tokens| ==> tokens[i].start <= tokens[i].end <= |text|
  {
    if tokens == [] then [] else RawOf(text, tokens[0]) + Concatenated(text, tokens[1..])
  }

  lemma {:induction false} TilesConcatenate(text: string, tokens: seq<Token>, start: nat)
    requires Tiles(tokens, start, |text|) && start <= |text|
    requires forall i :: 0 <= i < |tokens| ==> tokens[i].start <= tokens[i].end <= |text|
    ensures Concatenated(text, tokens) == text[start..]
  {
    if tokens != [] {
      TilesConcatenate(text, tokens[1..], tokens[0].end);
      assert text[start..] == text[start..tokens[0].end] + text[tokens[0].end..];
    }
  }

  lemma {:induction false} TilesInOrder(tokens: seq<Token>, start: nat, end: nat)
    requires Tiles(tokens, start, end)
    ensures start <= end
    ensures forall i :: 0 <= i < |tokens| ==> start <= tokens[i].start < tokens[i].end <= end
    ensures forall i, j :: 0 <= i < j < |tokens| ==> tokens[i].end <= tokens[j].start
  {
    if tokens != [] {
      var rest := tokens[1..];
      TilesInOrder(rest, tokens[0].end, end);
      assert forall i :: 0 < i < |tokens| ==> tokens[i] == rest[i - 1];
    }
  }

  /** For every text, the tokens are non-empty, contiguous, shaped by their kind, and concatenate to it. */
  lemma {:induction false} LexIsLossless(v: Vocabulary, text: string)
    ensures var tokens := Lex(v, text).tokens;
            && Tiles(tokens, 0, |text|)
            && AllShaped(v, text, tokens)
            && (forall i :: 0 <= i < |tokens| ==> tokens[i].start <= tokens[i].end <= |text|)
            && Concatenated(text, tokens) == text
  {
    LexFromTiles(v, text, 0, None);
    var tokens := Lex(v, text).tokens;
    TilesInOrder(tokens, 0, |text|);
    TilesConcatenate(text, tokens, 0);
  }
}
