/**
 What the lexer keeps besides tokens: the open elements, the number of root
 elements, and whether there is a doctype. All of it follows from the tokens.
 */
module HtmlOutline {
  import opened Wrappers
  import opened Text
  import opened HtmlLexer

  datatype Outline = Outline(open: seq<string>, roots: nat, hasDoctype: bool)

  const EMPTY: Outline := Outline([], 0, false)

  /** The last position of a name. */
  function LastAt(names: seq<string>, name: string): (at: Option<nat>)
    ensures at.Some? ==> at.value < |names|
  {
    if names == [] then None
    else if names[|names| - 1] == name then Some(|names| - 1)
    else LastAt(names[..|names| - 1], name)
  }

  /** The elements still open once the innermost one of a name is closed. */
  function Truncated(open: seq<string>, name: string): seq<string> {
    match LastAt(open, name)
    case None => open
    case Some(at) => open[..at]
  }

  function NameOf(token: Token): string {
    if token.name.Some? then Lower(token.name.value) else []
  }

  function OutlineStep(outline: Outline, token: Token): Outline {
    match token.kind
    case StartTag =>
      Outline(if token.selfClosing then outline.open else outline.open + [NameOf(token)],
              outline.roots + if outline.open == [] then 1 else 0, outline.hasDoctype)
    case EndTag => outline.(open := Truncated(outline.open, NameOf(token)))
    case Doctype => outline.(hasDoctype := true)
    case _ => outline
  }

  function OutlineOf(tokens: seq<Token>): Outline {
    if tokens == [] then EMPTY else OutlineStep(OutlineOf(tokens[..|tokens| - 1]), tokens[|tokens| - 1])
  }

  predicate HasKind(tokens: seq<Token>, kind: TokenKind) {
    exists i :: 0 <= i < |tokens| && tokens[i].kind == kind
  }

  /** There is a doctype exactly if some token is one, and a root element exactly if some token is a start tag. */
  lemma {:induction false} OutlineTells(tokens: seq<Token>)
    ensures OutlineOf(tokens).hasDoctype <==> HasKind(tokens, Doctype)
    ensures OutlineOf(tokens).roots > 0 <==> HasKind(tokens, StartTag)
    ensures OutlineOf(tokens).open != [] ==> OutlineOf(tokens).roots > 0
  {
    if tokens != [] {
      var front, last := tokens[..|tokens| - 1], tokens[|tokens| - 1];
      OutlineTells(front);
      HasKindStep(front, last, Doctype);
      HasKindStep(front, last, StartTag);
      assert tokens == front + [last];
    }
  }

  lemma {:induction false} HasKindStep(front: seq<Token>, last: Token, kind: TokenKind)
    ensures HasKind(front + [last], kind) <==> HasKind(front, kind) || last.kind == kind
  {
    if HasKind(front, kind) {
      var i :| 0 <= i < |front| && front[i].kind == kind;
      assert (front + [last])[i].kind == kind;
    }
    if last.kind == kind {
      assert (front + [last])[|front|].kind == kind;
    }
  }

  // ---------------------------------------------------------------------------
  // The outline, as it is kept

  method CloseElement(open: seq<string>, name: string) returns (rest: seq<string>)
    ensures rest == Truncated(open, name)
  {
    var position: nat := |open|;
    assert open[..position] == open;
    while position > 0
      invariant position <= |open|
      invariant LastAt(open[..position], name) == LastAt(open, name)
    {
      position := position - 1;
      assert open[..position + 1][..position] == open[..position];
      if open[position] == name {
        return open[..position];
      }
    }
    rest := open;
  }

  /** The outline of a token, after those before it. */
  method ExtendOutline(outline: Outline, token: Token) returns (next: Outline)
    ensures next == OutlineStep(outline, token)
  {
    var name := NameOf(token);
    next := outline;
    match token.kind {
      case StartTag =>
        var roots := if outline.open == [] then outline.roots + 1 else outline.roots;
        var open := if token.selfClosing then outline.open else outline.open + [name];
        next := Outline(open, roots, outline.hasDoctype);
      case EndTag =>
        var rest := CloseElement(outline.open, name);
        next := outline.(open := rest);
      case Doctype => next := outline.(hasDoctype := true);
      case _ =>
    }
  }

  method OutlineTokens(tokens: seq<Token>) returns (outline: Outline)
    ensures outline == OutlineOf(tokens)
  {
    outline := EMPTY;
    for i := 0 to |tokens|
      invariant outline == OutlineOf(tokens[..i])
    {
      assert tokens[..i + 1][..i] == tokens[..i];
      outline := ExtendOutline(outline, tokens[i]);
    }
    assert tokens[..|tokens|] == tokens;
  }
}
