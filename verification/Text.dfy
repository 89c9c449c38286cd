/**
 Strings as the parsers see them. A string is a sequence of characters, so an
 offset counts characters where the implementation counts UTF-8 bytes.
 */
module Text {
  import opened Wrappers

  /** The White_Space property, which decides what trimming removes. */
  predicate IsWhitespace(c: char) {
    var u := c as int;
    || 9 <= u <= 13
    || 0x2000 <= u <= 0x200A
    || u in {0x20, 0x85, 0xA0, 0x1680, 0x2028, 0x2029, 0x202F, 0x205F, 0x3000}
  }

  predicate IsAsciiWhitespace(c: char) {
    c in {' ', '\t', '\n', '\r', 12 as char}
  }

  predicate IsAsciiAlphabetic(c: char) {
    'a' <= c <= 'z' || 'A' <= c <= 'Z'
  }

  predicate IsAsciiDigit(c: char) {
    '0' <= c <= '9'
  }

  predicate IsAscii(c: char) {
    c as int < 128
  }

  function TrimStart(s: string): (t: string)
    ensures |t| <= |s|
  {
    if s != [] && IsWhitespace(s[0]) then TrimStart(s[1..]) else s
  }

  function TrimEnd(s: string): (t: string)
    ensures |t| <= |s|
  {
    if s != [] && IsWhitespace(s[|s| - 1]) then TrimEnd(s[..|s| - 1]) else s
  }

  function Trim(s: string): string {
    TrimEnd(TrimStart(s))
  }

  function LowerChar(c: char): char {
    if 'A' <= c <= 'Z' then (c as int + 32) as char else c
  }

  /** ASCII lower-casing; every other character is kept. */
  function Lower(s: string): (t: string)
    ensures |t| == |s|
  {
    seq(|s|, i requires 0 <= i < |s| => LowerChar(s[i]))
  }

  predicate EqualsIgnoreCase(s: string, t: string) {
    Lower(s) == Lower(t)
  }

  /** The pieces of `s` between separators; always at least one piece. */
  function Split(s: string, separator: char): (pieces: seq<string>)
    ensures |pieces| >= 1
  {
    if s == [] then [[]]
    else
      var rest := Split(s[1..], separator);
      if s[0] == separator then [[]] + rest else [[s[0]] + rest[0]] + rest[1..]
  }

  predicate StartsWith(s: string, prefix: string) {
    prefix <= s
  }

  predicate EndsWith(s: string, suffix: string) {
    |suffix| <= |s| && s[|s| - |suffix|..] == suffix
  }

  /** Whether the character at `i` exists and is `c`. */
  predicate IsAt(text: string, i: nat, c: char) {
    i < |text| && text[i] == c
  }

  /** Whether `needle` stands in `s` at offset `at`. */
  predicate MatchesAt(s: string, at: nat, needle: string) {
    at + |needle| <= |s| && s[at..at + |needle|] == needle
  }

  lemma {:induction false} MatchesSplit(s: string, at: nat, a: string, b: string)
    requires MatchesAt(s, at, a + b)
    ensures MatchesAt(s, at, a) && MatchesAt(s, at + |a|, b)
  {
    var matched := s[at..at + |a + b|];
    assert s[at..at + |a|] == matched[..|a|];
    assert s[at + |a|..at + |a| + |b|] == matched[|a|..];
  }

  lemma {:induction false} MatchesChar(s: string, at: nat, needle: string, i: nat)
    requires MatchesAt(s, at, needle) && i < |needle|
    ensures s[at + i] == needle[i]
  {
    assert s[at..at + |needle|][i] == s[at + i];
  }

  /** The first offset, not before `from`, at which `needle` stands in `s`. */
  function Find(s: string, from: nat, needle: string): (r: Option<nat>)
    requires from <= |s|
    ensures r.Some? ==> from <= r.value && MatchesAt(s, r.value, needle)
    ensures r.Some? ==> forall i {:trigger MatchesAt(s, i, needle)} :: from <= i < r.value ==> !MatchesAt(s, i, needle)
    ensures r.None? ==> forall i {:trigger MatchesAt(s, i, needle)} :: from <= i ==> !MatchesAt(s, i, needle)
    decreases |s| - from
  {
    if MatchesAt(s, from, needle) then Some(from)
    else if from == |s| then None
    else Find(s, from + 1, needle)
  }

  /** Replaces every occurrence, left to right and without overlap. */
  function Replace(s: string, needle: string, replacement: string): string
    requires needle != []
    decreases |s|
  {
    if s == [] then []
    else if needle <= s then replacement + Replace(s[|needle|..], needle, replacement)
    else [s[0]] + Replace(s[1..], needle, replacement)
  }

  function Digit(d: nat): char
    requires d < 10
  {
    (d + '0' as int) as char
  }

  function Decimal(n: nat): string {
    if n < 10 then [Digit(n)] else Decimal(n / 10) + [Digit(n % 10)]
  }

  /** The order of sorted maps and sets of strings: lexicographic by code point. */
  predicate LexLess(s: string, t: string) {
    t != [] && (s == [] || s[0] < t[0] || (s[0] == t[0] && LexLess(s[1..], t[1..])))
  }

  lemma {:induction false} LexTotal(s: string, t: string)
    ensures LexLess(s, t) || s == t || LexLess(t, s)
  {
    if s != [] && t != [] && s[0] == t[0] {
      LexTotal(s[1..], t[1..]);
      assert s == [s[0]] + s[1..] && t == [t[0]] + t[1..];
    }
  }

  lemma {:induction false} LexTransitive(s: string, t: string, u: string)
    requires LexLess(s, t) && LexLess(t, u)
    ensures LexLess(s, u)
  {
    if s != [] && s[0] == t[0] && t[0] == u[0] {
      LexTransitive(s[1..], t[1..], u[1..]);
    }
  }

  lemma {:induction false} LexIrreflexive(s: string)
    ensures !LexLess(s, s)
  {
    if s != [] {
      LexIrreflexive(s[1..]);
    }
  }
}
