/** When the spans of paired tags nest, and a text on which they cross. */
module HtmlSpans {
  import opened Wrappers
  import opened Text
  import opened HtmlLexer
  import opened HtmlVocabulary
  import opened HtmlTags
  import opened HtmlReadings

  function Closers(tokens: seq<Token>): map<nat, nat> {
    PairPrefix(tokens, |tokens|).closers
  }

  /** Of two paired tags, the later one lies after the earlier one's end tag, or is closed before it. */
  ghost predicate SpansNest(closers: map<nat, nat>) {
    forall i, j :: i in closers && j in closers && i < j ==> closers[i] < j || closers[j] < closers[i]
  }

  /** The end tag takes its start tag from the stack; those it skips are never closed. */
  ghost predicate SkipsUnclosedOnly(tokens: seq<Token>, n: nat)
    requires n < |tokens|
  {
    var stack := PairPrefix(tokens, n).stack;
    IsNamedEnd(tokens[n]) && LastSameName(tokens, stack, tokens[n]).Some? ==>
      forall l :: LastSameName(tokens, stack, tokens[n]).value < l < |stack| ==> stack[l] !in Closers(tokens)
  }

  // ---------------------------------------------------------------------------
  // The course of the pairing

  lemma {:induction false} ClosedIsOffStack(tokens: seq<Token>, n: nat, i: nat)
    requires n <= |tokens| && i in PairPrefix(tokens, n).closers
    ensures i !in PairPrefix(tokens, n).stack && PairPrefix(tokens, n).closers[i] < n
  {
    PairPrefixOk(tokens, n);
    assert ClosedBy(tokens, i, PairPrefix(tokens, n).closers[i], n);
  }

  lemma {:induction false} StackInOrder(tokens: seq<Token>, n: nat, k: nat, l: nat)
    requires n <= |tokens| && k < l < |PairPrefix(tokens, n).stack|
    ensures PairPrefix(tokens, n).stack[k] < PairPrefix(tokens, n).stack[l] < n
    ensures PairPrefix(tokens, n).stack[l] !in PairPrefix(tokens, n).closers
  {
    PairPrefixOk(tokens, n);
    assert PairPrefix(tokens, n).stack[l] in PairPrefix(tokens, n).stack;
  }

  lemma {:induction false} CloserStep(tokens: seq<Token>, n: nat, next: nat, i: nat)
    requires n < |tokens| && next == n + 1 && i in PairPrefix(tokens, n).closers
    ensures i in PairPrefix(tokens, next).closers
    ensures PairPrefix(tokens, next).closers[i] == PairPrefix(tokens, n).closers[i]
  {
    ClosedIsOffStack(tokens, n, i);
    assert PairPrefix(tokens, next) == PairStep(tokens, n, PairPrefix(tokens, n));
  }

  /** A start tag once closed keeps its end tag. */
  lemma {:induction false} CloserStays(tokens: seq<Token>, n: nat, m: nat, i: nat)
    requires n <= m <= |tokens| && i in PairPrefix(tokens, n).closers
    ensures i in PairPrefix(tokens, m).closers && PairPrefix(tokens, m).closers[i] == PairPrefix(tokens, n).closers[i]
    decreases m - n
  {
    if n < m {
      var last := m - 1;
      CloserStays(tokens, n, last, i);
      CloserStep(tokens, last, m, i);
    }
  }

  /** The end tag of a closed start tag found it on the stack. */
  lemma {:induction false} ClosedFromStack(tokens: seq<Token>, n: nat, i: nat) returns (c: nat, k: nat)
    requires n <= |tokens| && i in PairPrefix(tokens, n).closers
    ensures c < n && PairPrefix(tokens, n).closers[i] == c && IsNamedEnd(tokens[c])
    ensures LastSameName(tokens, PairPrefix(tokens, c).stack, tokens[c]) == Some(k)
    ensures PairPrefix(tokens, c).stack[k] == i
  {
    var last := n - 1;
    var before := PairPrefix(tokens, last);
    if i in before.closers {
      CloserStays(tokens, last, n, i);
      c, k := ClosedFromStack(tokens, last, i);
    } else {
      c, k := last, LastSameName(tokens, before.stack, tokens[last]).value;
    }
  }

  /** What is closed by the end was closed before `n` exactly if its end tag stands there. */
  lemma {:induction false} ClosedBefore(tokens: seq<Token>, n: nat, i: nat)
    requires n <= |tokens| && i in Closers(tokens)
    ensures i in PairPrefix(tokens, n).closers <==> Closers(tokens)[i] < n
  {
    var c, k := ClosedFromStack(tokens, |tokens|, i);
    if i in PairPrefix(tokens, n).closers {
      CloserStays(tokens, n, |tokens|, i);
      var d, l := ClosedFromStack(tokens, n, i);
    }
    if c < n {
      var next := c + 1;
      assert PairPrefix(tokens, next) == PairStep(tokens, c, PairPrefix(tokens, c));
      CloserStays(tokens, next, n, i);
    }
  }

  /** An end tag closes what it finds. */
  lemma {:induction false} ClosedHere(tokens: seq<Token>, n: nat, k: nat)
    requires n < |tokens| && IsNamedEnd(tokens[n])
    requires LastSameName(tokens, PairPrefix(tokens, n).stack, tokens[n]) == Some(k)
    ensures var i := PairPrefix(tokens, n).stack[k];
            i in Closers(tokens) && Closers(tokens)[i] == n
  {
    var i, next := PairPrefix(tokens, n).stack[k], n + 1;
    assert PairPrefix(tokens, next) == PairStep(tokens, n, PairPrefix(tokens, n));
    CloserStays(tokens, next, |tokens|, i);
  }

  lemma {:induction false} ClosersDiffer(tokens: seq<Token>, i: nat, j: nat)
    requires i in Closers(tokens) && j in Closers(tokens) && i != j
    ensures Closers(tokens)[i] != Closers(tokens)[j]
  {
    PairPrefixOk(tokens, |tokens|);
  }

  lemma {:induction false} SkippedIsCrossed(tokens: seq<Token>, n: nat, k: nat, l: nat)
    requires n < |tokens| && IsNamedEnd(tokens[n])
    requires LastSameName(tokens, PairPrefix(tokens, n).stack, tokens[n]) == Some(k)
    requires k < l < |PairPrefix(tokens, n).stack| && PairPrefix(tokens, n).stack[l] in Closers(tokens)
    ensures !SpansNest(Closers(tokens))
  {
    var i, j := PairPrefix(tokens, n).stack[k], PairPrefix(tokens, n).stack[l];
    StackInOrder(tokens, n, k, l);
    ClosedHere(tokens, n, k);
    ClosedBefore(tokens, n, j);
    ClosersDiffer(tokens, i, j);
  }

  /** A start tag stays on the stack until its end tag comes. */
  lemma {:induction false} OpenUntilClosed(tokens: seq<Token>, n: nat, j: nat)
    requires n <= |tokens| && j in Closers(tokens) && j < n <= Closers(tokens)[j]
    ensures j in PairPrefix(tokens, n).stack
  {
    PairPrefixOk(tokens, |tokens|);
    assert ClosedBy(tokens, j, Closers(tokens)[j], |tokens|);
    ClosedBefore(tokens, n, j);
    PairPrefixOk(tokens, n);
  }

  lemma {:induction false} LaterIsHigher(tokens: seq<Token>, n: nat, k: nat, l: nat)
    requires n <= |tokens| && k < |PairPrefix(tokens, n).stack| && l < |PairPrefix(tokens, n).stack|
    requires PairPrefix(tokens, n).stack[k] < PairPrefix(tokens, n).stack[l]
    ensures k < l
  {
    if l < k {
      StackInOrder(tokens, n, l, k);
    }
  }

  lemma {:induction false} CrossedIsSkipped(tokens: seq<Token>, i: nat, j: nat)
    requires i in Closers(tokens) && j in Closers(tokens) && i < j < Closers(tokens)[i] < Closers(tokens)[j]
    ensures Closers(tokens)[i] < |tokens| && !SkipsUnclosedOnly(tokens, Closers(tokens)[i])
  {
    var n, k := ClosedFromStack(tokens, |tokens|, i);
    var stack := PairPrefix(tokens, n).stack;
    OpenUntilClosed(tokens, n, j);
    var l :| 0 <= l < |stack| && stack[l] == j;
    LaterIsHigher(tokens, n, k, l);
  }

  /** On any stream, the paired spans nest exactly if no end tag skips a start tag that is closed later. */
  lemma {:induction false} SpansNestIff(tokens: seq<Token>)
    ensures SpansNest(Closers(tokens)) <==> forall n :: 0 <= n < |tokens| ==> SkipsUnclosedOnly(tokens, n)
  {
    forall n | 0 <= n < |tokens| && !SkipsUnclosedOnly(tokens, n) ensures !SpansNest(Closers(tokens)) {
      var stack := PairPrefix(tokens, n).stack;
      var k := LastSameName(tokens, stack, tokens[n]).value;
      var l :| k < l < |stack| && stack[l] in Closers(tokens);
      SkippedIsCrossed(tokens, n, k, l);
    }
    PairPrefixOk(tokens, |tokens|);
    if !SpansNest(Closers(tokens)) {
      var i, j :| i in Closers(tokens) && j in Closers(tokens) && i < j
                  && !(Closers(tokens)[i] < j || Closers(tokens)[j] < Closers(tokens)[i]);
      assert ClosedBy(tokens, i, Closers(tokens)[i], |tokens|) && ClosedBy(tokens, j, Closers(tokens)[j], |tokens|);
      assert Closers(tokens)[i] != j;
      CrossedIsSkipped(tokens, i, j);
    }
  }

  // ---------------------------------------------------------------------------
  // Spans that cross

  lemma {:induction false} OpenTag(v: Vocabulary, text: string, start: nat, end: nat, name: string)
    requires start + 3 <= end <= |text| && text[start] == '<' && MarkupEnd(text, start) == Some(end)
    requires text[start + 1..end - 1] == name && MarkupName(name) == name && Trim(name) == name
    requires name[0] !in {'!', '?', '/'} && name[|name| - 1] != '/' && !IsWhitespace(name[|name| - 1])
    requires Lower(name) !in v.voidElements && Lower(name) !in v.rawTextElements
    ensures MarkupRound(v, text, start) == Round(Lexed([Token(StartTag, start, end, Some(name), false)], []), end, None)
  {
    assert text[start + 1] == text[start + 1..end - 1][0] == name[0];
    assert !MatchesAt(text, start, "<!--") by {
      if MatchesAt(text, start, "<!--") {
        MatchesChar(text, start, "<!--", 1);
      }
    }
    assert TrimEnd(name) == name && name[|name| - 1..][0] == name[|name| - 1];
    assert !EndsWith(TrimEnd(name), ['/']);
  }

  lemma {:induction false} LetterName(name: string)
    requires name == "a" || name == "b"
    ensures MarkupName(name) == name && Trim(name) == name
    ensures Lower(name) !in HTML5.voidElements && Lower(name) !in HTML5.rawTextElements
  {
    assert name[1..] == [];
    TrimKeeps(name);
    assert |Lower(name)| == 1 && Lower(name)[0] == name[0];
  }

  /** Two elements, of which the first is closed first. */
  function Crossing(a: string, b: string): (tokens: seq<Token>)
    ensures |tokens| == 4
  {
    [Token(StartTag, 0, 3, Some(a), false), Token(StartTag, 3, 6, Some(b), false),
     Token(EndTag, 6, 10, Some(a), false), Token(EndTag, 10, 14, Some(b), false)]
  }

  lemma {:induction false} CrossingEnds(text: string)
    requires text == "<a><b></a></b>"
    ensures MarkupEnd(text, 0) == Some(3) && MarkupEnd(text, 3) == Some(6)
    ensures MarkupEnd(text, 6) == Some(10) && MarkupEnd(text, 10) == Some(14)
  {
    UnquotedMarkupEnd(text, 1, 3);
    UnquotedMarkupEnd(text, 4, 6);
    UnquotedMarkupEnd(text, 7, 10);
    UnquotedMarkupEnd(text, 11, 14);
  }

  lemma {:induction false} CrossingSlices(text: string, a: string, b: string)
    requires text == "<a><b></a></b>" && a == "a" && b == "b"
    ensures text[1..2] == a && text[4..5] == b && text[7..9] == ['/'] + a && text[11..13] == ['/'] + b
    ensures text[0] == text[3] == text[6] == text[10] == '<'
  {
  }

  /** A tag that starts where another ends. */
  ghost predicate TagAt(v: Vocabulary, text: string, start: nat, token: Token, end: nat) {
    && start < end <= |text| && text[start] == '<'
    && MarkupRound(v, text, start) == Round(Lexed([token], []), end, None)
  }

  lemma {:induction false} CrossingStarts(text: string, a: string, b: string)
    requires text == "<a><b></a></b>" && a == "a" && b == "b"
    ensures TagAt(HTML5, text, 0, Token(StartTag, 0, 3, Some(a), false), 3)
    ensures TagAt(HTML5, text, 3, Token(StartTag, 3, 6, Some(b), false), 6)
  {
    CrossingEnds(text);
    CrossingSlices(text, a, b);
    LetterName(a);
    LetterName(b);
    OpenTag(HTML5, text, 0, 3, a);
    OpenTag(HTML5, text, 3, 6, b);
  }

  lemma {:induction false} CrossingCloses(text: string, a: string, b: string)
    requires text == "<a><b></a></b>" && a == "a" && b == "b"
    ensures TagAt(HTML5, text, 6, Token(EndTag, 6, 10, Some(a), false), 10)
    ensures TagAt(HTML5, text, 10, Token(EndTag, 10, 14, Some(b), false), 14)
  {
    CrossingEnds(text);
    CrossingSlices(text, a, b);
    LetterName(a);
    LetterName(b);
    ClosingTag(HTML5, text, 6, 10, a);
    ClosingTag(HTML5, text, 10, 14, b);
  }

  lemma {:induction false} LexedNext(
    v: Vocabulary, text: string, start: nat, token: Token, end: nat, rest: seq<Token>, tokens: seq<Token>)
    requires TagAt(v, text, start, token, end)
    requires LexFrom(v, text, end, None).tokens == rest && tokens == [token] + rest
    ensures LexFrom(v, text, start, None).tokens == tokens
  {
    LexedHere(v, text, start, token, end);
  }

  lemma {:induction false} LexedLastTwo(v: Vocabulary, text: string, start: nat, first: Token, i: nat, second: Token)
    requires TagAt(v, text, start, first, i) && TagAt(v, text, i, second, |text|)
    ensures LexFrom(v, text, start, None).tokens == [first, second]
  {
    LexedNext(v, text, i, second, |text|, [], [second]);
    LexedNext(v, text, start, first, i, [second], [first, second]);
  }

  lemma {:induction false} LexedFour(
    v: Vocabulary, text: string, first: Token, i: nat, second: Token, j: nat, third: Token, k: nat, fourth: Token)
    requires TagAt(v, text, 0, first, i) && TagAt(v, text, i, second, j)
    requires TagAt(v, text, j, third, k) && TagAt(v, text, k, fourth, |text|)
    ensures Lex(v, text).tokens == [first, second, third, fourth]
  {
    LexedLastTwo(v, text, j, third, k, fourth);
    LexedNext(v, text, i, second, j, [third, fourth], [second, third, fourth]);
    LexedNext(v, text, 0, first, i, [second, third, fourth], [first, second, third, fourth]);
  }

  lemma {:induction false} CrossingLexed(text: string, a: string, b: string)
    requires text == "<a><b></a></b>" && a == "a" && b == "b"
    ensures Lex(HTML5, text).tokens == Crossing(a, b)
  {
    CrossingStarts(text, a, b);
    CrossingCloses(text, a, b);
    LexedFour(HTML5, text, Token(StartTag, 0, 3, Some(a), false), 3, Token(StartTag, 3, 6, Some(b), false), 6,
              Token(EndTag, 6, 10, Some(a), false), 10, Token(EndTag, 10, 14, Some(b), false));
  }

  lemma {:induction false} OneLower(tokens: seq<Token>, a: string, b: string)
    requires |a| == |b| == 1 && LowerChar(a[0]) != LowerChar(b[0]) && tokens == Crossing(a, b)
    ensures LastSameName(tokens, [0, 1], tokens[2]) == Some(0) && LastSameName(tokens, [1], tokens[3]) == Some(0)
  {
    assert Lower(a)[0] != Lower(b)[0];
    assert !SameName(tokens[1], tokens[2]) && [0, 1][..1] == [0];
    assert LastSameName(tokens, [0], tokens[2]) == Some(0);
  }

  lemma {:induction false} CrossingPaired(tokens: seq<Token>, a: string, b: string)
    requires |a| == |b| == 1 && LowerChar(a[0]) != LowerChar(b[0]) && tokens == Crossing(a, b)
    ensures Closers(tokens) == map[0 := 2, 1 := 3]
  {
    OneLower(tokens, a, b);
    var p0, p1, p2 := Pairing([], map[]), Pairing([0], map[]), Pairing([0, 1], map[]);
    var p3, p4 := Pairing([1], map[0 := 2]), Pairing([], map[0 := 2, 1 := 3]);
    assert PairStep(tokens, 0, p0) == p1;
    assert PairStep(tokens, 1, p1) == p2;
    assert PairStep(tokens, 2, p2) == p3;
    assert PairStep(tokens, 3, p3) == p4;
    assert PairPrefix(tokens, 1) == p1;
    assert PairPrefix(tokens, 2) == p2;
    assert PairPrefix(tokens, 3) == p3;
    assert PairPrefix(tokens, 4) == p4;
  }

  lemma {:induction false} CrossedSpans(closers: map<nat, nat>)
    requires closers == map[0 := 2, 1 := 3]
    ensures !SpansNest(closers)
  {
    assert 0 in closers && 1 in closers && closers[0] == 2 && closers[1] == 3;
  }

  /** They do not always nest: in `<a><b></a></b>` the spans cross. */
  lemma {:induction false} SpansCanCross(text: string, a: string, b: string)
    requires text == "<a><b></a></b>" && a == "a" && b == "b"
    ensures Lex(HTML5, text).tokens == Crossing(a, b)
    ensures Closers(Lex(HTML5, text).tokens) == map[0 := 2, 1 := 3]
    ensures !SpansNest(Closers(Lex(HTML5, text).tokens))
  {
    CrossingLexed(text, a, b);
    CrossingPaired(Crossing(a, b), a, b);
    CrossedSpans(Closers(Crossing(a, b)));
  }
}
