/**
 The element stack of XHTML validation. It is silent exactly on streams whose
 tags balance; on those, the pairing of end tags with start tags finds the
 balanced pairs exactly when both read the same start tags as empty.
 */
module HtmlXhtml {
  import opened Wrappers
  import opened Text
  import opened HtmlLexer
  import opened HtmlTokens
  import opened HtmlTags

  /** A token as validation reads it. */
  datatype Tag = Open(openName: Option<string>) | Close(closeName: string) | Other

  datatype Fault = Mismatch(open: nat, end: nat) | Unmatched(end: nat) | Unclosed(open: nat)

  predicate ExplicitlyEmpty(raw: string) {
    EndsWith(TrimEnd(raw), "/>")
  }

  function NameOrEmpty(token: Token): string {
    if token.name.Some? then token.name.value else []
  }

  function TagOf(text: string, token: Token): Tag
    requires token.start <= token.end <= |text|
  {
    match token.kind
    case StartTag => if ExplicitlyEmpty(RawOf(text, token)) then Other else Open(token.name)
    case EndTag => Close(NameOrEmpty(token))
    case _ => Other
  }

  predicate InText(text: string, tokens: seq<Token>) {
    forall i :: 0 <= i < |tokens| ==> tokens[i].start <= tokens[i].end <= |text|
  }

  function TagsOf(text: string, tokens: seq<Token>): (tags: seq<Tag>)
    requires InText(text, tokens)
    ensures |tags| == |tokens| && forall i :: 0 <= i < |tags| ==> tags[i] == TagOf(text, tokens[i])
  {
    seq(|tokens|, i requires 0 <= i < |tokens| => TagOf(text, tokens[i]))
  }

  /** The elements still open, and the faults so far. */
  datatype Validation = Validation(stack: seq<nat>, faults: seq<Fault>)

  predicate Matching(tags: seq<Tag>, open: nat, end: nat)
    requires open < |tags| && end < |tags|
  {
    tags[open].Open? && tags[end].Close? && tags[open].openName == Some(tags[end].closeName)
  }

  function ValidateStep(tags: seq<Tag>, n: nat, v: Validation): Validation
    requires n < |tags| && forall k :: 0 <= k < |v.stack| ==> v.stack[k] < |tags|
  {
    match tags[n]
    case Open(_) => v.(stack := v.stack + [n])
    case Other => v
    case Close(_) =>
      if v.stack == [] then v.(faults := v.faults + [Unmatched(n)])
      else
        var open := v.stack[|v.stack| - 1];
        var faults := if Matching(tags, open, n) then v.faults else v.faults + [Mismatch(open, n)];
        Validation(v.stack[..|v.stack| - 1], faults)
  }

  function ValidatePrefix(tags: seq<Tag>, n: nat): (v: Validation)
    requires n <= |tags|
    ensures forall k :: 0 <= k < |v.stack| ==> v.stack[k] < n
  {
    if n == 0 then Validation([], []) else ValidateStep(tags, n - 1, ValidatePrefix(tags, n - 1))
  }

  function UnclosedFaults(stack: seq<nat>): (faults: seq<Fault>)
    ensures |faults| == |stack|
  {
    seq(|stack|, i requires 0 <= i < |stack| => Unclosed(stack[i]))
  }

  function Faults(tags: seq<Tag>): seq<Fault> {
    var v := ValidatePrefix(tags, |tags|);
    v.faults + UnclosedFaults(v.stack)
  }

  /** One token: a start tag opens an element unless it is explicitly empty; an end tag always closes the innermost. */
  method ValidateToken(text: string, tokens: seq<Token>, n: nat, stack: seq<nat>, faults: seq<Fault>)
    returns (stack': seq<nat>, faults': seq<Fault>)
    requires InText(text, tokens) && n < |tokens|
    requires ValidatePrefix(TagsOf(text, tokens), n) == Validation(stack, faults)
    ensures Validation(stack', faults') == ValidateStep(TagsOf(text, tokens), n, Validation(stack, faults))
  {
    ghost var tags := TagsOf(text, tokens);
    var token := tokens[n];
    assert tags[n] == TagOf(text, token);
    stack', faults' := stack, faults;
    if token.kind == StartTag {
      if !ExplicitlyEmpty(RawOf(text, token)) {
        stack' := stack + [n];
      }
    } else if token.kind == EndTag {
      if stack == [] {
        faults' := faults + [Unmatched(n)];
      } else {
        var top := |stack| - 1;
        var open := stack[top];
        stack' := stack[..top];
        OpenOnStack(tags, n, top);
        assert tags[open] == TagOf(text, tokens[open]);
        if tokens[open].name != Some(NameOrEmpty(token)) {
          faults' := faults + [Mismatch(open, n)];
        }
      }
    }
  }

  /** What is still open at the end is reported, outermost first. */
  method ReportUnclosed(stack: seq<nat>, reported: seq<Fault>) returns (faults: seq<Fault>)
    ensures faults == reported + UnclosedFaults(stack)
  {
    faults := reported;
    for k := 0 to |stack|
      invariant faults == reported + UnclosedFaults(stack)[..k]
    {
      faults := faults + [Unclosed(stack[k])];
    }
    assert UnclosedFaults(stack)[..|stack|] == UnclosedFaults(stack);
  }

  /** The element faults of a token stream, in the order they are reported. */
  method ValidateXhtml(text: string, tokens: seq<Token>) returns (faults: seq<Fault>)
    requires InText(text, tokens)
    ensures faults == Faults(TagsOf(text, tokens))
  {
    ghost var tags := TagsOf(text, tokens);
    var stack: seq<nat> := [];
    faults := [];
    for n := 0 to |tokens|
      invariant ValidatePrefix(tags, n) == Validation(stack, faults)
    {
      ghost var next := n + 1;
      assert ValidatePrefix(tags, next) == ValidateStep(tags, n, ValidatePrefix(tags, n));
      stack, faults := ValidateToken(text, tokens, n, stack, faults);
    }
    faults := ReportUnclosed(stack, faults);
  }

  lemma {:induction false} OpenOnStack(tags: seq<Tag>, n: nat, k: nat)
    requires n <= |tags| && k < |ValidatePrefix(tags, n).stack|
    ensures tags[ValidatePrefix(tags, n).stack[k]].Open?
  {
    var m := n - 1;
    var before := ValidatePrefix(tags, m);
    assert ValidatePrefix(tags, n) == ValidateStep(tags, m, before);
    if k < |before.stack| {
      OpenOnStack(tags, m, k);
    }
  }

  // ---------------------------------------------------------------------------
  // Balance

  /** How many tags of the first `n` are open. */
  function Depth(tags: seq<Tag>, n: nat): int
    requires n <= |tags|
  {
    if n == 0 then 0
    else Depth(tags, n - 1) + match tags[n - 1] case Open(_) => 1 case Close(_) => -1 case Other => 0
  }

  ghost predicate DeeperWithin(tags: seq<Tag>, open: nat, end: nat)
    requires open <= end <= |tags|
  {
    forall m: nat :: open < m <= end ==> Depth(tags, m) > Depth(tags, open)
  }

  /** The end tag that balances a start tag: the first place where the depth is back. */
  ghost predicate Balances(tags: seq<Tag>, open: nat, end: nat) {
    && open < end < |tags|
    && Matching(tags, open, end)
    && DeeperWithin(tags, open, end)
    && Depth(tags, end + 1) == Depth(tags, open)
  }

  ghost predicate HasEnd(tags: seq<Tag>, open: nat) {
    exists end :: Balances(tags, open, end)
  }

  ghost predicate HasEndBefore(tags: seq<Tag>, open: nat, n: nat) {
    exists end: nat :: end < n && Balances(tags, open, end)
  }

  ghost predicate HasOpen(tags: seq<Tag>, end: nat) {
    exists open :: Balances(tags, open, end)
  }

  /** Every start tag has its balanced end tag, and every end tag its start tag. */
  ghost predicate Balanced(tags: seq<Tag>) {
    && (forall i: nat :: i < |tags| && tags[i].Open? ==> HasEnd(tags, i))
    && (forall j: nat :: j < |tags| && tags[j].Close? ==> HasOpen(tags, j))
  }

  /** Where an open element stands on the stack, and that it has been open since. */
  ghost predicate OpenSince(tags: seq<Tag>, n: nat, stack: seq<nat>)
    requires n <= |tags|
  {
    && Depth(tags, n) == |stack|
    && forall k :: 0 <= k < |stack| ==>
         && stack[k] < n && tags[stack[k]].Open?
         && Depth(tags, stack[k]) == k && DeeperWithin(tags, stack[k], n)
  }

  /** Every start tag before `n` that is not on the stack has its end tag before `n`; so has every end tag. */
  ghost predicate PairedBefore(tags: seq<Tag>, n: nat, stack: seq<nat>)
    requires n <= |tags|
  {
    && (forall i: nat :: i < n && tags[i].Open? && i !in stack ==> HasEndBefore(tags, i, n))
    && (forall j: nat :: j < n && tags[j].Close? ==> HasOpen(tags, j))
  }

  lemma {:induction false} OpenSinceStep(tags: seq<Tag>, n: nat, v: Validation)
    requires n < |tags| && OpenSince(tags, n, v.stack)
    requires tags[n].Close? ==> v.stack != []
    ensures OpenSince(tags, n + 1, ValidateStep(tags, n, v).stack)
  {
    var m := n + 1;
    var next := ValidateStep(tags, n, v);
    assert Depth(tags, m) == Depth(tags, n) + match tags[n] case Open(_) => 1 case Close(_) => -1 case Other => 0;
    forall k | 0 <= k < |next.stack|
      ensures next.stack[k] < m && tags[next.stack[k]].Open?
      ensures Depth(tags, next.stack[k]) == k && DeeperWithin(tags, next.stack[k], m)
    {
      if k < |v.stack| {
        assert next.stack[k] == v.stack[k];
        DeeperStep(tags, v.stack[k], n);
      }
    }
  }

  lemma {:induction false} DeeperStep(tags: seq<Tag>, open: nat, n: nat)
    requires open < n < |tags| && DeeperWithin(tags, open, n)
    requires Depth(tags, n + 1) > Depth(tags, open)
    ensures DeeperWithin(tags, open, n + 1)
  {
  }

  /** The end tag of the innermost open element balances it. */
  lemma {:induction false} TopBalances(tags: seq<Tag>, n: nat, stack: seq<nat>)
    requires n < |tags| && OpenSince(tags, n, stack) && stack != []
    requires Matching(tags, stack[|stack| - 1], n)
    ensures Balances(tags, stack[|stack| - 1], n)
  {
    var top := |stack| - 1;
    var m := n + 1;
    assert Depth(tags, m) == Depth(tags, n) - 1;
    assert Depth(tags, stack[top]) == top;
  }

  lemma {:induction false} PairedStep(tags: seq<Tag>, n: nat, v: Validation)
    requires n < |tags| && OpenSince(tags, n, v.stack) && PairedBefore(tags, n, v.stack)
    requires tags[n].Close? ==> v.stack != [] && Matching(tags, v.stack[|v.stack| - 1], n)
    ensures PairedBefore(tags, n + 1, ValidateStep(tags, n, v).stack)
  {
    var next := ValidateStep(tags, n, v);
    if tags[n].Close? {
      var top := v.stack[|v.stack| - 1];
      TopBalances(tags, n, v.stack);
      assert v.stack == next.stack + [top];
    }
    forall i: nat | i < n + 1 && tags[i].Open? && i !in next.stack
      ensures HasEndBefore(tags, i, n + 1)
    {
      if tags[n].Close? && i == v.stack[|v.stack| - 1] {
        assert Balances(tags, i, n);
      } else {
        assert HasEndBefore(tags, i, n);
      }
    }
  }

  /** While nothing has been reported, the stack holds exactly the elements not yet balanced. */
  lemma {:induction false} SilentPrefix(tags: seq<Tag>, n: nat)
    requires n <= |tags| && ValidatePrefix(tags, n).faults == []
    ensures OpenSince(tags, n, ValidatePrefix(tags, n).stack)
    ensures PairedBefore(tags, n, ValidatePrefix(tags, n).stack)
  {
    if n > 0 {
      var m := n - 1;
      var before := ValidatePrefix(tags, m);
      assert ValidatePrefix(tags, n) == ValidateStep(tags, m, before);
      SilentPrefix(tags, m);
      OpenSinceStep(tags, m, before);
      PairedStep(tags, m, before);
    }
  }

  lemma {:induction false} Within(tags: seq<Tag>, open: nat, end: nat, m: nat)
    requires open <= end <= |tags| && DeeperWithin(tags, open, end) && m <= |tags|
    ensures open < m <= end ==> Depth(tags, m) > Depth(tags, open)
  {
  }

  lemma {:induction false} EndNotBefore(tags: seq<Tag>, open: nat, n: nat, end: nat)
    requires open <= n <= |tags| && DeeperWithin(tags, open, n)
    ensures Balances(tags, open, end) ==> n <= end
  {
    if end < n {
      Within(tags, open, n, end + 1);
    }
  }

  lemma {:induction false} BalancesIsUnique(tags: seq<Tag>, open: nat, a: nat, b: nat)
    requires Balances(tags, open, a) && Balances(tags, open, b)
    ensures a == b
  {
    Within(tags, open, a, b + 1);
    Within(tags, open, b, a + 1);
  }

  /** In a balanced stream, the innermost open element is the one the next end tag balances. */
  lemma {:induction false} BalancedTop(tags: seq<Tag>, n: nat, stack: seq<nat>, open: nat)
    requires n < |tags| && OpenSince(tags, n, stack) && PairedBefore(tags, n, stack) && Balances(tags, open, n)
    ensures stack != [] && stack[|stack| - 1] == open
  {
    forall j: nat | Balances(tags, open, j) ensures j == n {
      BalancesIsUnique(tags, open, j, n);
    }
    assert !HasEndBefore(tags, open, n);
    var k :| 0 <= k < |stack| && stack[k] == open;
    assert Depth(tags, open) == k;
    var m := n + 1;
    assert Depth(tags, m) == Depth(tags, n) - 1;
  }

  lemma {:induction false} BalancedPrefix(tags: seq<Tag>, n: nat)
    requires n <= |tags| && Balanced(tags)
    ensures ValidatePrefix(tags, n).faults == []
  {
    if n > 0 {
      var m := n - 1;
      var before := ValidatePrefix(tags, m);
      assert ValidatePrefix(tags, n) == ValidateStep(tags, m, before);
      BalancedPrefix(tags, m);
      if tags[m].Close? {
        BalancedClose(tags, m, before);
      }
    }
  }

  lemma {:induction false} BalancedClose(tags: seq<Tag>, m: nat, before: Validation)
    requires m < |tags| && Balanced(tags) && tags[m].Close? && before == ValidatePrefix(tags, m) && before.faults == []
    ensures ValidateStep(tags, m, before).faults == []
  {
    assert HasOpen(tags, m);
    var open :| Balances(tags, open, m);
    SilentPrefix(tags, m);
    BalancedTop(tags, m, before.stack, open);
  }

  /** An element open to the end of the stream has no end tag. */
  lemma {:induction false} OpenToTheEnd(tags: seq<Tag>, stack: seq<nat>)
    requires OpenSince(tags, |tags|, stack) && stack != []
    ensures !HasEnd(tags, stack[0])
  {
    forall end: nat ensures !Balances(tags, stack[0], end) {
      EndNotBefore(tags, stack[0], |tags|, end);
    }
  }

  /** For every stream, validation reports no element fault exactly when the tags balance. */
  lemma {:induction false} SilentIffBalanced(tags: seq<Tag>)
    ensures Faults(tags) == [] <==> Balanced(tags)
  {
    var v := ValidatePrefix(tags, |tags|);
    if v.faults == [] {
      SilentPrefix(tags, |tags|);
      if v.stack != [] {
        OpenToTheEnd(tags, v.stack);
      } else {
        NothingOpen(tags);
      }
    }
    if Balanced(tags) {
      BalancedPrefix(tags, |tags|);
    }
  }

  lemma {:induction false} NothingOpen(tags: seq<Tag>)
    requires PairedBefore(tags, |tags|, [])
    ensures Balanced(tags)
  {
    forall i: nat | i < |tags| && tags[i].Open? ensures HasEnd(tags, i) {
      assert HasEndBefore(tags, i, |tags|);
    }
  }

  /** Balanced spans nest: the later one to open ends first, unless it opens after the other ended. */
  lemma {:induction false} BalancedSpansNest(tags: seq<Tag>, i: nat, end: nat, j: nat, inner: nat)
    requires Balances(tags, i, end) && Balances(tags, j, inner) && i < j < end
    ensures inner < end
  {
    Within(tags, i, end, j);
    Within(tags, j, inner, end + 1);
  }

  // ---------------------------------------------------------------------------
  // The two readings agree

  /** Pairing and validation read the same start tags as empty. */
  ghost predicate EmptyAlike(text: string, tokens: seq<Token>)
    requires InText(text, tokens)
  {
    forall i :: 0 <= i < |tokens| && tokens[i].kind == StartTag ==>
      (tokens[i].selfClosing <==> ExplicitlyEmpty(RawOf(text, tokens[i])))
  }

  /** What every token of the lexer has: end tags have names, and a literal `/>` closes its own tag. */
  ghost predicate LexerLike(text: string, tokens: seq<Token>)
    requires InText(text, tokens)
  {
    && (forall i :: 0 <= i < |tokens| && tokens[i].kind == EndTag ==> tokens[i].name.Some?)
    && (forall i :: 0 <= i < |tokens| && tokens[i].kind == StartTag && ExplicitlyEmpty(RawOf(text, tokens[i])) ==>
          tokens[i].selfClosing)
  }

  ghost predicate AllPairsBalance(tags: seq<Tag>, closers: map<nat, nat>) {
    forall i {:trigger i in closers} :: i in closers ==> Balances(tags, i, closers[i])
  }

  lemma {:induction false} TopHasSameName(tokens: seq<Token>, stack: seq<nat>, n: nat)
    requires n < |tokens| && stack != [] && forall k :: 0 <= k < |stack| ==> stack[k] < |tokens|
    requires tokens[stack[|stack| - 1]].name.Some? && tokens[stack[|stack| - 1]].name == tokens[n].name
    ensures LastSameName(tokens, stack, tokens[n]) == Some(|stack| - 1)
  {
  }

  lemma {:induction false} SilentStep(text: string, tokens: seq<Token>, tags: seq<Tag>, n: nat, v: Validation, p: Pairing)
    requires InText(text, tokens) && tags == TagsOf(text, tokens) && n < |tokens|
    requires LexerLike(text, tokens) && EmptyAlike(text, tokens)
    requires OpenSince(tags, n, v.stack) && ValidateStep(tags, n, v).faults == []
    requires p.stack == v.stack && AllPairsBalance(tags, p.closers)
    ensures PairStep(tokens, n, p).stack == ValidateStep(tags, n, v).stack
    ensures AllPairsBalance(tags, PairStep(tokens, n, p).closers)
  {
    var token, tag := tokens[n], tags[n];
    assert tag == TagOf(text, token);
    if tag.Close? {
      SilentClose(text, tokens, tags, n, v, p);
    } else {
      assert IsOpening(token) <==> tag.Open?;
    }
  }

  lemma {:induction false} SilentClose(
    text: string, tokens: seq<Token>, tags: seq<Tag>, n: nat, v: Validation, p: Pairing)
    requires InText(text, tokens) && tags == TagsOf(text, tokens) && n < |tokens|
    requires LexerLike(text, tokens)
    requires OpenSince(tags, n, v.stack) && ValidateStep(tags, n, v).faults == [] && tags[n].Close?
    requires p.stack == v.stack && AllPairsBalance(tags, p.closers)
    ensures PairStep(tokens, n, p).stack == ValidateStep(tags, n, v).stack
    ensures AllPairsBalance(tags, PairStep(tokens, n, p).closers)
  {
    var top := |v.stack| - 1;
    SilentTop(text, tokens, tags, n, v);
    TopBalances(tags, n, v.stack);
    TopCloses(tokens, n, p, top);
  }

  /** The end tag is of the name of the element on top. */
  lemma {:induction false} SilentTop(text: string, tokens: seq<Token>, tags: seq<Tag>, n: nat, v: Validation)
    requires InText(text, tokens) && tags == TagsOf(text, tokens) && n < |tokens| && LexerLike(text, tokens)
    requires OpenSince(tags, n, v.stack) && ValidateStep(tags, n, v).faults == [] && tags[n].Close?
    ensures v.stack != [] && IsNamedEnd(tokens[n])
    ensures LastSameName(tokens, v.stack, tokens[n]) == Some(|v.stack| - 1)
    ensures Matching(tags, v.stack[|v.stack| - 1], n)
  {
    var open := v.stack[|v.stack| - 1];
    assert tags[n] == TagOf(text, tokens[n]) && tags[open] == TagOf(text, tokens[open]);
    assert Matching(tags, open, n);
    TopHasSameName(tokens, v.stack, n);
  }

  lemma {:induction false} TopCloses(tokens: seq<Token>, n: nat, p: Pairing, top: nat)
    requires n < |tokens| && (forall k :: 0 <= k < |p.stack| ==> p.stack[k] < |tokens|)
    requires |p.stack| == top + 1 && IsNamedEnd(tokens[n]) && LastSameName(tokens, p.stack, tokens[n]) == Some(top)
    ensures PairStep(tokens, n, p) == Pairing(p.stack[..top], p.closers[p.stack[top] := n])
  {
    assert p.stack[..top] + p.stack[top + 1..] == p.stack[..top];
  }

  lemma {:induction false} SilentPairing(text: string, tokens: seq<Token>, tags: seq<Tag>, n: nat)
    requires InText(text, tokens) && tags == TagsOf(text, tokens) && n <= |tokens|
    requires LexerLike(text, tokens) && EmptyAlike(text, tokens) && ValidatePrefix(tags, n).faults == []
    ensures PairPrefix(tokens, n).stack == ValidatePrefix(tags, n).stack
    ensures AllPairsBalance(tags, PairPrefix(tokens, n).closers)
  {
    if n > 0 {
      var m := n - 1;
      var v, p := ValidatePrefix(tags, m), PairPrefix(tokens, m);
      assert ValidatePrefix(tags, n) == ValidateStep(tags, m, v);
      assert PairPrefix(tokens, n) == PairStep(tokens, m, p);
      SilentPairing(text, tokens, tags, m);
      SilentPrefix(tags, m);
      SilentStep(text, tokens, tags, m, v, p);
    }
  }

  ghost predicate EveryOpenPaired(tags: seq<Tag>, closers: map<nat, nat>) {
    forall i: nat :: i < |tags| && tags[i].Open? ==> i in closers && Balances(tags, i, closers[i])
  }

  /**
   On a stream on which validation is silent, every start tag left open by its
   own text is paired with its balanced end tag exactly when no start tag is
   taken as self-closing without a literal `/>`.
   */
  lemma {:induction false} PairedIffEmptyAlike(text: string, tokens: seq<Token>)
    requires InText(text, tokens) && LexerLike(text, tokens)
    requires Faults(TagsOf(text, tokens)) == []
    ensures EveryOpenPaired(TagsOf(text, tokens), PairPrefix(tokens, |tokens|).closers) <==> EmptyAlike(text, tokens)
  {
    var tags, p := TagsOf(text, tokens), PairPrefix(tokens, |tokens|);
    EndTagsCloseOnce(tokens);
    if EmptyAlike(text, tokens) {
      SilentPairing(text, tokens, tags, |tokens|);
      forall i: nat | i < |tags| && tags[i].Open? ensures i in p.closers && Balances(tags, i, p.closers[i])
      {
        assert tags[i] == TagOf(text, tokens[i]);
        assert IsOpening(tokens[i]);
      }
    }
    if EveryOpenPaired(tags, p.closers) {
      forall i | 0 <= i < |tokens| && tokens[i].kind == StartTag
        ensures tokens[i].selfClosing <==> ExplicitlyEmpty(RawOf(text, tokens[i]))
      {
        assert tags[i] == TagOf(text, tokens[i]);
        if !ExplicitlyEmpty(RawOf(text, tokens[i])) {
          assert ClosedBy(tokens, i, p.closers[i], |tokens|);
        }
      }
    }
  }

  /** On such a stream the paired spans nest properly, and no end tag is used twice. */
  lemma {:induction false} PairedSpansNest(text: string, tokens: seq<Token>, i: nat, j: nat)
    requires InText(text, tokens) && LexerLike(text, tokens) && EmptyAlike(text, tokens)
    requires Faults(TagsOf(text, tokens)) == []
    requires i in PairPrefix(tokens, |tokens|).closers && j in PairPrefix(tokens, |tokens|).closers && i < j
    ensures var closers := PairPrefix(tokens, |tokens|).closers;
            closers[i] < j || closers[j] < closers[i]
  {
    var tags, p := TagsOf(text, tokens), PairPrefix(tokens, |tokens|);
    SilentPairing(text, tokens, tags, |tokens|);
    EndTagsCloseOnce(tokens);
    assert ClosedBy(tokens, i, p.closers[i], |tokens|) && ClosedBy(tokens, j, p.closers[j], |tokens|);
    if j < p.closers[i] {
      BalancedSpansNest(tags, i, p.closers[i], j, p.closers[j]);
    }
  }

  lemma {:induction false} TrimStartKeepsLast(s: string)
    requires s != [] && !IsWhitespace(s[|s| - 1])
    ensures TrimStart(s) != [] && TrimStart(s)[|TrimStart(s)| - 1] == s[|s| - 1]
  {
    if IsWhitespace(s[0]) {
      TrimStartKeepsLast(s[1..]);
    }
  }

  lemma {:induction false} TrimKeepsSlash(content: string)
    requires content != [] && content[|content| - 1] == '/'
    ensures EndsWith(TrimEnd(Trim(content)), ['/'])
  {
    TrimStartKeepsLast(content);
    var inner := TrimStart(content);
    assert TrimEnd(inner) == inner;
    assert inner[|inner| - 1..] == ['/'];
  }

  lemma {:induction false} SlashBeforeEnd(raw: string)
    requires |raw| >= 2 && raw[0] == '<' && raw[|raw| - 1] == '>' && ExplicitlyEmpty(raw)
    ensures |raw| >= 3 && raw[|raw| - 2] == '/'
  {
    assert TrimEnd(raw) == raw;
    var slash := |raw| - 2;
    var tail := raw[slash..];
    assert tail == "/>" && tail[0] == '/';
    assert raw[slash] == tail[0];
  }

  lemma {:induction false} ClosedMarkupRaw(text: string, token: Token)
    requires IsClosedMarkup(text, token)
    ensures var raw := RawOf(text, token);
            && |raw| >= 2 && raw[0] == '<' && raw[|raw| - 1] == '>'
            && text[token.start + 1..token.end - 1] == raw[1..|raw| - 1]
  {
    var raw := RawOf(text, token);
    var last, first, end := |raw| - 1, token.start + 1, token.end - 1;
    assert MarkupEndFrom(text, first, None) == Some(token.end);
    assert text[end] == '>' && end == token.start + last;
    assert raw[last] == text[token.start + last];
    SliceOfSlice(text, token.start, token.end);
  }

  lemma {:induction false} SliceOfSlice(text: string, start: nat, end: nat)
    requires start + 2 <= end <= |text|
    ensures var raw := text[start..end];
            text[start + 1..end - 1] == raw[1..|raw| - 1]
  {
    var raw := text[start..end];
    var inner, outer := raw[1..|raw| - 1], text[start + 1..end - 1];
    forall k | 0 <= k < |inner| ensures inner[k] == outer[k] {
      assert inner[k] == raw[k + 1] == text[start + k + 1];
    }
  }

  lemma {:induction false} StartTagShape(v: Vocabulary, text: string, token: Token)
    requires IsClosedMarkup(text, token) && ShapedStart(v, text, token)
    ensures EndsWith(TrimEnd(Trim(text[token.start + 1..token.end - 1])), ['/']) ==> token.selfClosing
  {
    var inner := Inner(text, token.start, token.end);
    assert inner == Trim(text[token.start + 1..token.end - 1]);
    assert EndsWith(TrimEnd(inner), ['/']) ==> token.selfClosing;
  }

  lemma {:induction false} ContentEndsWithSlash(text: string, token: Token, content: string)
    requires IsClosedMarkup(text, token) && ExplicitlyEmpty(RawOf(text, token))
    requires content == text[token.start + 1..token.end - 1]
    ensures content != [] && content[|content| - 1] == '/'
  {
    var raw := RawOf(text, token);
    ClosedMarkupRaw(text, token);
    SlashBeforeEnd(raw);
    var last := |content| - 1;
    assert content[last] == raw[1..|raw| - 1][last];
  }

  /** A start tag of the lexer that ends with a literal `/>` is self-closing. */
  lemma {:induction false} LexedEmptyIsSelfClosing(v: Vocabulary, text: string, token: Token)
    requires Shaped(v, text, token) && token.kind == StartTag && ExplicitlyEmpty(RawOf(text, token))
    ensures token.selfClosing
  {
    var content := text[token.start + 1..token.end - 1];
    ContentEndsWithSlash(text, token, content);
    TrimKeepsSlash(content);
    StartTagShape(v, text, token);
  }

  /** The lexer's own streams meet what the agreement asks of a stream. */
  lemma {:induction false} LexedIsLexerLike(v: Vocabulary, text: string)
    ensures InText(text, Lex(v, text).tokens) && LexerLike(text, Lex(v, text).tokens)
  {
    LexIsLossless(v, text);
    var tokens := Lex(v, text).tokens;
    forall i | 0 <= i < |tokens| && tokens[i].kind == StartTag && ExplicitlyEmpty(RawOf(text, tokens[i]))
      ensures tokens[i].selfClosing
    {
      assert Shaped(v, text, tokens[i]);
      LexedEmptyIsSelfClosing(v, text, tokens[i]);
    }
    forall i | 0 <= i < |tokens| && tokens[i].kind == EndTag ensures tokens[i].name.Some? {
      assert Shaped(v, text, tokens[i]);
    }
  }

  /** The statement for whole texts. */
  lemma {:induction false} LexedPairsIffEmptyAlike(v: Vocabulary, text: string)
    requires InText(text, Lex(v, text).tokens)
    requires Faults(TagsOf(text, Lex(v, text).tokens)) == []
    ensures var tokens := Lex(v, text).tokens;
            EveryOpenPaired(TagsOf(text, tokens), PairPrefix(tokens, |tokens|).closers) <==> EmptyAlike(text, tokens)
  {
    LexedIsLexerLike(v, text);
    PairedIffEmptyAlike(text, Lex(v, text).tokens);
  }
}
