/** What trimming and splitting are: each is undone by writing its parts back. */
module TextTheorems {
  import opened Wrappers
  import opened Text
  import opened Lists

  // ---------------------------------------------------------------------------
  // Trimming

  predicate IsWhite(s: string) {
    forall i :: 0 <= i < |s| ==> IsWhitespace(s[i])
  }

  /** No white space at either end. */
  predicate IsTrimmed(s: string) {
    s != [] ==> !IsWhitespace(s[0]) && !IsWhitespace(s[|s| - 1])
  }

  lemma {:induction false} TrimStartDrops(before: string, s: string)
    requires IsWhite(before) && (s != [] ==> !IsWhitespace(s[0]))
    ensures TrimStart(before + s) == s
  {
    if before == [] {
      assert before + s == s;
    } else {
      assert (before + s)[1..] == before[1..] + s;
      TrimStartDrops(before[1..], s);
    }
  }

  lemma {:induction false} TrimStartCuts(s: string) returns (before: string)
    ensures IsWhite(before) && s == before + TrimStart(s)
    ensures TrimStart(s) != [] ==> !IsWhitespace(TrimStart(s)[0])
  {
    if s != [] && IsWhitespace(s[0]) {
      var rest := TrimStartCuts(s[1..]);
      before := [s[0]] + rest;
      assert s == [s[0]] + s[1..];
    } else {
      before := [];
    }
  }

  lemma {:induction false} TrimEndDrops(s: string, after: string)
    requires IsWhite(after) && (s != [] ==> !IsWhitespace(s[|s| - 1]))
    ensures TrimEnd(s + after) == s
  {
    if after == [] {
      assert s + after == s;
    } else {
      assert (s + after)[..|s + after| - 1] == s + after[..|after| - 1];
      TrimEndDrops(s, after[..|after| - 1]);
    }
  }

  lemma {:induction false} TrimEndCuts(s: string) returns (after: string)
    ensures IsWhite(after) && s == TrimEnd(s) + after
    ensures TrimEnd(s) != [] ==> !IsWhitespace(TrimEnd(s)[|TrimEnd(s)| - 1])
  {
    if s != [] && IsWhitespace(s[|s| - 1]) {
      var rest := TrimEndCuts(s[..|s| - 1]);
      after := rest + [s[|s| - 1]];
      assert s == s[..|s| - 1] + [s[|s| - 1]];
    } else {
      after := [];
    }
  }

  /** White space around a text without any at its ends is cut off, and nothing else. */
  lemma {:induction false} TrimDrops(before: string, s: string, after: string)
    requires IsWhite(before) && IsTrimmed(s) && IsWhite(after)
    ensures Trim(before + s + after) == s
  {
    if s == [] {
      assert before + s + after == (before + after) + [];
      TrimStartDrops(before + after, []);
    } else {
      assert before + s + after == before + (s + after);
      TrimStartDrops(before, s + after);
      TrimEndDrops(s, after);
    }
  }

  /** Every text is its trimmed part with white space around it. */
  lemma {:induction false} TrimCuts(s: string) returns (before: string, after: string)
    ensures IsWhite(before) && IsTrimmed(Trim(s)) && IsWhite(after)
    ensures s == before + Trim(s) + after
  {
    before := TrimStartCuts(s);
    after := TrimEndCuts(TrimStart(s));
    var core := Trim(s);
    assert before + (core + after) == before + core + after;
  }

  // ---------------------------------------------------------------------------
  // Splitting

  function JoinWith(pieces: seq<string>, s: string): string
    requires pieces != []
  {
    if |pieces| == 1 then pieces[0] else pieces[0] + (s + JoinWith(pieces[1..], s))
  }

  lemma {:induction false} SplitFirst(piece: string, rest: string, separator: char)
    requires separator !in piece
    ensures Split(piece, separator) == [piece]
    ensures Split(piece + ([separator] + rest), separator) == [piece] + Split(rest, separator)
  {
    var s := piece + ([separator] + rest);
    if piece == [] {
      assert s[0] == separator && s[1..] == rest;
    } else {
      assert s[0] == piece[0] && s[1..] == piece[1..] + ([separator] + rest);
      SplitFirst(piece[1..], rest, separator);
      assert piece == [piece[0]] + piece[1..];
    }
  }

  /** Pieces without the separator come back from what they are joined to. */
  lemma {:induction false} SplitJoined(pieces: seq<string>, separator: char)
    requires pieces != [] && forall i :: 0 <= i < |pieces| ==> separator !in pieces[i]
    ensures Split(JoinWith(pieces, [separator]), separator) == pieces
  {
    if |pieces| == 1 {
      SplitFirst(pieces[0], [], separator);
    } else {
      SplitJoined(pieces[1..], separator);
      SplitFirst(pieces[0], JoinWith(pieces[1..], [separator]), separator);
      assert pieces == [pieces[0]] + pieces[1..];
    }
  }

  /** Every text is its pieces, joined. */
  lemma {:induction false} SplitPieces(s: string, separator: char)
    ensures JoinWith(Split(s, separator), [separator]) == s
    ensures forall i :: 0 <= i < |Split(s, separator)| ==> separator !in Split(s, separator)[i]
  {
    if s != [] {
      var rest, pieces := Split(s[1..], separator), Split(s, separator);
      SplitPieces(s[1..], separator);
      assert s == [s[0]] + s[1..];
      if s[0] == separator {
        assert pieces[1..] == rest;
      } else {
        assert pieces[1..] == rest[1..];
        if |rest| > 1 {
          Regroup([s[0]], rest[0], [separator] + JoinWith(rest[1..], [separator]));
        }
      }
    }
  }

  // ---------------------------------------------------------------------------
  // Quotes

  /** The quote that is open before an offset: each quote goes on to the next one of its kind. */
  function OpenQuote(s: string, start: nat, i: nat): Option<char>
    requires start <= i <= |s|
  {
    if i == start then None
    else
      var before, c := OpenQuote(s, start, i - 1), s[i - 1];
      if before.Some? then (if before.value == c then None else before)
      else if c == '\'' || c == '"' then Some(c)
      else None
  }

  /** The first place outside quotes that holds a character. */
  predicate FirstUnquoted(s: string, start: nat, at: nat, c: char)
    requires start <= |s|
  {
    && start <= at < |s| && s[at] == c && OpenQuote(s, start, at) == None
    && forall p :: start <= p < at ==> !(s[p] == c && OpenQuote(s, start, p) == None)
  }
}
