/** What macro expansion copies and what it replaces: its pieces cover the text from end to end. */
module LatexPieces {
  import opened Wrappers
  import opened Text
  import opened Lists
  import opened LatexCommands
  import opened LatexMacros

  /** Text without a backslash; at most one command, or a backslash that starts none, ends it. */
  ghost predicate Copied(macros: Macros, text: string, start: nat, end: nat) {
    exists p: nat :: CopiedTo(macros, text, start, p, end)
  }

  /** Up to `p` there is no backslash; from there on, a command of no macro. */
  predicate CopiedTo(macros: Macros, text: string, start: nat, p: nat, end: nat) {
    && start <= p <= end <= |text| && (forall i :: start <= i < p ==> text[i] != '\\')
    && if p == end then end == |text| || text[end] == '\\'
       else
         && text[p] == '\\'
         && match CommandAt(text, p)
            case None => end == p + 1
            case Some(command) => command.name !in macros && end == command.end
  }

  /** A piece that stands between two offsets: copied text, or a call of a macro. */
  ghost predicate Stands(macros: Macros, text: string, start: nat, end: nat, piece: Piece) {
    match piece
    case Verbatim(copied) => Copied(macros, text, start, end) && copied == text[start..end]
    case Call(name, arguments) => name in macros && CommandAt(text, start) == Some(Command(name, end, arguments))
  }

  /** Pieces that follow one another from an offset to the end of the text. */
  ghost predicate Cover(macros: Macros, text: string, start: nat, pieces: seq<Piece>)
    decreases |pieces|
  {
    if pieces == [] then start == |text|
    else exists end: nat :: Stands(macros, text, start, end, pieces[0]) && Cover(macros, text, end, pieces[1..])
  }

  lemma {:induction false} CoverFirst(macros: Macros, text: string, start: nat, piece: Piece, end: nat, rest: seq<Piece>)
    requires Stands(macros, text, start, end, piece) && Cover(macros, text, end, rest)
    ensures Cover(macros, text, start, [piece] + rest)
  {
    assert ([piece] + rest)[1..] == rest && ([piece] + rest)[0] == piece;
  }

  lemma {:induction false} CopyCovers(macros: Macros, text: string, start: nat, p: nat, end: nat, rest: seq<Piece>)
    requires CopiedTo(macros, text, start, p, end) && Cover(macros, text, end, rest)
    ensures Cover(macros, text, start, [Verbatim(text[start..end])] + rest)
  {
    CoverFirst(macros, text, start, Verbatim(text[start..end]), end, rest);
  }

  lemma {:induction false} CallCovers(macros: Macros, text: string, start: nat, command: Command, rest: seq<Piece>)
    requires CommandAt(text, start) == Some(command) && command.name in macros && Cover(macros, text, command.end, rest)
    ensures Cover(macros, text, start, [Call(command.name, command.arguments)] + rest)
  {
    CoverFirst(macros, text, start, Call(command.name, command.arguments), command.end, rest);
  }

  /** What one cut gives. */
  lemma {:induction false} CutGives(macros: Macros, text: string, cursor: nat, start: nat)
    requires cursor <= start && IsAt(text, start, '\\') && (forall i :: cursor <= i < start ==> text[i] != '\\')
    ensures var cut, command := CutAt(macros, text, cursor, start), CommandAt(text, start);
            if command.Some? && command.value.name in macros
            then cut.next == command.value.end
                 && cut.pieces == [Verbatim(text[cursor..start])] + [Call(command.value.name, command.value.arguments)]
            else cut.pieces == [Verbatim(text[cursor..cut.next])] && CopiedTo(macros, text, cursor, start, cut.next)
  {
    assert text[cursor..start] + ['\\'] == text[cursor..start + 1];
  }

  lemma {:induction false} CutCovers(macros: Macros, text: string, cursor: nat, start: nat, rest: seq<Piece>)
    requires cursor <= start && IsAt(text, start, '\\') && (forall i :: cursor <= i < start ==> text[i] != '\\')
    requires Cover(macros, text, CutAt(macros, text, cursor, start).next, rest)
    ensures Cover(macros, text, cursor, CutAt(macros, text, cursor, start).pieces + rest)
  {
    var cut, command := CutAt(macros, text, cursor, start), CommandAt(text, start);
    CutGives(macros, text, cursor, start);
    if command.Some? && command.value.name in macros {
      var call := Call(command.value.name, command.value.arguments);
      CallCovers(macros, text, start, command.value, rest);
      CopyCovers(macros, text, cursor, start, start, [call] + rest);
      Regroup([Verbatim(text[cursor..start])], [call], rest);
    } else {
      CopyCovers(macros, text, cursor, start, cut.next, rest);
    }
  }

  /**
   The pieces of a text cover it in order: what is copied stands there as it is
   and holds no call of a macro, and every call is the command read there.
   */
  lemma {:induction false} PiecesCover(macros: Macros, text: string, cursor: nat)
    requires cursor <= |text|
    ensures Cover(macros, text, cursor, Pieces(macros, text, cursor))
    decreases |text| - cursor
  {
    var start := NextBackslash(text, cursor);
    if start.None? {
      assert Cover(macros, text, |text|, []);
      CopyCovers(macros, text, cursor, |text|, |text|, []);
      assert text[cursor..|text|] == text[cursor..];
      assert [Verbatim(text[cursor..])] + [] == [Verbatim(text[cursor..])];
    } else {
      var next := CutAt(macros, text, cursor, start.value).next;
      PiecesCover(macros, text, next);
      CutCovers(macros, text, cursor, start.value, Pieces(macros, text, next));
    }
  }
}
