/**
 Arguments are put into a macro body one after the other. When that is the same
 as putting them in all at once, and a body where it is not.
 */
module LatexArguments {
  import opened Text
  import opened Lists
  import opened TextTheorems
  import opened LatexMacros

  // ---------------------------------------------------------------------------
  // All at once

  function Marker(k: nat): string {
    ['#'] + Decimal(k)
  }

  /** A parameter has a single digit, so `#10` is `#1` and a zero. */
  predicate IsParameter(body: string) {
    |body| >= 2 && body[0] == '#' && '1' <= body[1] <= '9'
  }

  function ParameterOf(body: string): (k: nat)
    requires IsParameter(body)
    ensures 1 <= k <= 9 && body[..2] == Marker(k)
  {
    body[1] as int - '0' as int
  }

  /** Every parameter of the body, and nothing else, is replaced by its argument. */
  function Simultaneous(body: string, arguments: seq<string>): string {
    if body == [] then []
    else if IsParameter(body) then
      var k := ParameterOf(body);
      (if k <= |arguments| then arguments[k - 1] else body[..2]) + Simultaneous(body[2..], arguments)
    else [body[0]] + Simultaneous(body[1..], arguments)
  }

  function Prepend(s: string, gaps: seq<string>): seq<string>
    requires gaps != []
  {
    [s + gaps[0]] + gaps[1..]
  }

  /** What stands between the body's own parameters `d` once the first arguments are put in. */
  function Gaps(body: string, arguments: seq<string>, d: nat): (gaps: seq<string>)
    ensures gaps != []
  {
    if body == [] then [[]]
    else if IsParameter(body) then
      var k, rest := ParameterOf(body), Gaps(body[2..], arguments, d);
      if k <= |arguments| then Prepend(arguments[k - 1], rest)
      else if k == d then [[]] + rest
      else Prepend(body[..2], rest)
    else Prepend([body[0]], Gaps(body[1..], arguments, d))
  }

  lemma {:induction false} PrependJoins(p: string, gaps: seq<string>, s: string)
    requires gaps != []
    ensures JoinWith(Prepend(p, gaps), s) == p + JoinWith(gaps, s)
  {
    assert Prepend(p, gaps)[1..] == gaps[1..];
    if |gaps| > 1 {
      assert p + gaps[0] + (s + JoinWith(gaps[1..], s)) == p + (gaps[0] + (s + JoinWith(gaps[1..], s)));
    }
  }

  lemma {:induction false} OwnJoins(gaps: seq<string>, s: string)
    requires gaps != []
    ensures JoinWith([[]] + gaps, s) == s + JoinWith(gaps, s)
  {
    assert ([[]] + gaps)[1..] == gaps;
    assert [] + (s + JoinWith(gaps, s)) == s + JoinWith(gaps, s);
  }

  /** With the parameter itself between the gaps it is still to be replaced. */
  lemma {:induction false} GapsBefore(body: string, arguments: seq<string>, d: nat)
    requires d > |arguments|
    ensures JoinWith(Gaps(body, arguments, d), Marker(d)) == Simultaneous(body, arguments)
  {
    if body != [] {
      if IsParameter(body) {
        var k, rest := ParameterOf(body), Gaps(body[2..], arguments, d);
        GapsBefore(body[2..], arguments, d);
        PrependJoins(if k <= |arguments| then arguments[k - 1] else body[..2], rest, Marker(d));
        OwnJoins(rest, Marker(d));
      } else {
        GapsBefore(body[1..], arguments, d);
        PrependJoins([body[0]], Gaps(body[1..], arguments, d), Marker(d));
      }
    }
  }

  /** With one more argument between the gaps that is put in too. */
  lemma {:induction false} GapsAfter(body: string, arguments: seq<string>, d: nat, a: string, more: seq<string>)
    requires d == |arguments| + 1 && more == arguments + [a]
    ensures JoinWith(Gaps(body, arguments, d), a) == Simultaneous(body, more)
  {
    if body != [] {
      if IsParameter(body) {
        var k, rest := ParameterOf(body), Gaps(body[2..], arguments, d);
        GapsAfter(body[2..], arguments, d, a, more);
        PrependJoins(if k <= |arguments| then arguments[k - 1] else body[..2], rest, a);
        OwnJoins(rest, a);
      } else {
        GapsAfter(body[1..], arguments, d, a, more);
        PrependJoins([body[0]], Gaps(body[1..], arguments, d), a);
      }
    }
  }

  // ---------------------------------------------------------------------------
  // Replacing between the gaps

  /** The first character of a needle does not come again in it. */
  predicate Solo(needle: string) {
    needle != [] && forall k :: 1 <= k < |needle| ==> needle[k] != needle[0]
  }

  lemma {:induction false} DecimalDigits(n: nat)
    ensures Decimal(n) != [] && forall k :: 0 <= k < |Decimal(n)| ==> IsAsciiDigit(Decimal(n)[k])
  {
    if n >= 10 {
      DecimalDigits(n / 10);
    }
  }

  lemma {:induction false} MarkerIsSolo(k: nat)
    ensures Solo(Marker(k)) && |Marker(k)| >= 2
  {
    DecimalDigits(k);
  }

  ghost predicate Lacks(s: string, needle: string) {
    forall i: nat :: !MatchesAt(s, i, needle)
  }

  lemma {:induction false} ReplaceLength(s: string, needle: string, a: string)
    requires needle != []
    ensures |a| >= |needle| ==> |Replace(s, needle, a)| >= |s|
    ensures |a| <= |needle| ==> |Replace(s, needle, a)| <= |s|
    decreases |s|
  {
    if s != [] {
      if needle <= s {
        ReplaceLength(s[|needle|..], needle, a);
      } else {
        ReplaceLength(s[1..], needle, a);
      }
    }
  }

  lemma {:induction false} LacksTail(s: string, needle: string)
    requires s != [] && needle != [] && !(needle <= s)
    ensures Lacks(s, needle) <==> Lacks(s[1..], needle)
  {
    assert |needle| <= |s| ==> s[0..0 + |needle|] == s[..|needle|];
    forall i: nat, next: nat | next == i + 1 ensures MatchesAt(s, next, needle) <==> MatchesAt(s[1..], i, needle) {
      if next + |needle| <= |s| {
        assert s[next..next + |needle|] == s[1..][i..i + |needle|];
      }
    }
    if Lacks(s[1..], needle) {
      forall i: nat ensures !MatchesAt(s, i, needle) {
        if i > 0 {
          var before := i - 1;
          assert !MatchesAt(s[1..], before, needle);
        }
      }
    }
    if Lacks(s, needle) {
      forall i: nat ensures !MatchesAt(s[1..], i, needle) {
        var next := i + 1;
        assert !MatchesAt(s, next, needle);
      }
    }
  }

  /** Replacing changes nothing exactly if there is nothing to replace, or it is replaced by itself. */
  lemma {:induction false} ReplaceKeepsIff(s: string, needle: string, a: string)
    requires needle != []
    ensures Replace(s, needle, a) == s <==> a == needle || Lacks(s, needle)
    decreases |s|
  {
    if s == [] {
      assert Lacks(s, needle);
    } else if needle <= s {
      var rest := s[|needle|..];
      assert s == needle + rest && MatchesAt(s, 0, needle);
      ReplaceKeepsIff(rest, needle, a);
      ReplaceLength(rest, needle, a);
      if |a| == |needle| {
        assert (a + Replace(rest, needle, a))[..|a|] == a && s[..|needle|] == needle;
      }
    } else {
      ReplaceKeepsIff(s[1..], needle, a);
      LacksTail(s, needle);
      assert s == [s[0]] + s[1..];
      assert Replace(s, needle, a)[1..] == Replace(s[1..], needle, a);
    }
  }

  /** A match that starts before an occurrence ends before it. */
  lemma {:induction false} MatchEndsBefore(u: string, needle: string, rest: string)
    requires Solo(needle) && u != [] && needle <= u + (needle + rest)
    ensures |needle| <= |u| && needle <= u
    ensures (u + (needle + rest))[|needle|..] == u[|needle|..] + (needle + rest)
  {
    assert (u + (needle + rest))[|u|] == needle[0];
  }

  lemma {:induction false} ReplaceAround(u: string, needle: string, rest: string, a: string)
    requires Solo(needle)
    ensures Replace(u + (needle + rest), needle, a) == Replace(u, needle, a) + (a + Replace(rest, needle, a))
    decreases |u|
  {
    var s, n, end := u + (needle + rest), |needle|, a + Replace(rest, needle, a);
    if u == [] {
      assert s == needle + rest && s[n..] == rest;
      assert [] + end == end;
    } else if needle <= s {
      MatchEndsBefore(u, needle, rest);
      ReplaceAround(u[n..], needle, rest, a);
      Regroup(a, Replace(u[n..], needle, a), end);
    } else {
      assert !(needle <= u) && s[1..] == u[1..] + (needle + rest) && s[0] == u[0];
      ReplaceAround(u[1..], needle, rest, a);
      Regroup([u[0]], Replace(u[1..], needle, a), end);
    }
  }

  function ReplacedEach(gaps: seq<string>, needle: string, a: string): (replaced: seq<string>)
    requires needle != []
    ensures |replaced| == |gaps| && forall i :: 0 <= i < |gaps| ==> replaced[i] == Replace(gaps[i], needle, a)
  {
    seq(|gaps|, i requires 0 <= i < |gaps| => Replace(gaps[i], needle, a))
  }

  lemma {:induction false} ReplaceJoined(gaps: seq<string>, needle: string, a: string)
    requires gaps != [] && Solo(needle)
    ensures Replace(JoinWith(gaps, needle), needle, a) == JoinWith(ReplacedEach(gaps, needle, a), a)
  {
    if |gaps| > 1 {
      ReplaceAround(gaps[0], needle, JoinWith(gaps[1..], needle), a);
      ReplaceJoined(gaps[1..], needle, a);
      assert ReplacedEach(gaps, needle, a)[1..] == ReplacedEach(gaps[1..], needle, a);
    }
  }

  lemma {:induction false} JoinedLength(gaps: seq<string>, needle: string, a: string)
    requires gaps != [] && needle != []
    ensures |a| >= |needle| ==> |JoinWith(ReplacedEach(gaps, needle, a), a)| >= |JoinWith(gaps, a)|
    ensures |a| <= |needle| ==> |JoinWith(ReplacedEach(gaps, needle, a), a)| <= |JoinWith(gaps, a)|
  {
    ReplaceLength(gaps[0], needle, a);
    if |gaps| > 1 {
      JoinedLength(gaps[1..], needle, a);
      assert ReplacedEach(gaps, needle, a)[1..] == ReplacedEach(gaps[1..], needle, a);
    }
  }

  /** Replacing in the gaps changes the whole as soon as it changes one gap: lengths go one way only. */
  lemma {:induction false} JoinedAgreeIff(gaps: seq<string>, needle: string, a: string)
    requires gaps != [] && needle != []
    ensures JoinWith(ReplacedEach(gaps, needle, a), a) == JoinWith(gaps, a) <==>
            forall i :: 0 <= i < |gaps| ==> Replace(gaps[i], needle, a) == gaps[i]
  {
    var replaced := ReplacedEach(gaps, needle, a);
    if |gaps| > 1 {
      var more := gaps[1..];
      JoinedAgreeIff(more, needle, a);
      ReplaceLength(gaps[0], needle, a);
      JoinedLength(more, needle, a);
      assert replaced[1..] == ReplacedEach(more, needle, a);
      SameHalves(replaced[0], a, JoinWith(replaced[1..], a), gaps[0], JoinWith(more, a));
      assert forall i :: 1 <= i < |gaps| ==> gaps[i] == more[i - 1];
      assert forall i :: 0 <= i < |more| ==> more[i] == gaps[i + 1];
    }
  }

  lemma {:induction false} SameHalves(u: string, a: string, s: string, v: string, t: string)
    requires (|u| >= |v| && |s| >= |t|) || (|u| <= |v| && |s| <= |t|)
    ensures u + (a + s) == v + (a + t) <==> u == v && s == t
  {
    if u + (a + s) == v + (a + t) {
      assert |u + (a + s)| == |v + (a + t)|;
      assert (u + (a + s))[..|u|] == u && (v + (a + t))[..|v|] == v;
      assert (u + (a + s))[|u| + |a|..] == s && (v + (a + t))[|v| + |a|..] == t;
    }
  }

  // ---------------------------------------------------------------------------
  // One after the other

  lemma {:induction false} SubstituteLast(body: string, front: seq<string>, a: string, i: nat)
    requires i <= |front|
    ensures SubstituteFrom(body, front + [a], i) == Replace(SubstituteFrom(body, front, i), Marker(|front| + 1), a)
    decreases |front| - i
  {
    if i < |front| {
      SubstituteLast(Replace(body, Marker(i + 1), front[i]), front, a, i + 1);
    } else {
      assert (front + [a])[i] == a;
      var next := i + 1;
      assert SubstituteFrom(Replace(body, Marker(next), a), front + [a], next) == Replace(body, Marker(next), a);
    }
  }

  /** After the arguments before it, an argument meets its parameter in no other place than the body's own. */
  ghost predicate MeetsOwnOnly(body: string, front: seq<string>, a: string) {
    var d := |front| + 1;
    a == Marker(d) || forall i :: 0 <= i < |Gaps(body, front, d)| ==> Lacks(Gaps(body, front, d)[i], Marker(d))
  }

  lemma {:induction false} StepIff(body: string, front: seq<string>, a: string)
    ensures Replace(Simultaneous(body, front), Marker(|front| + 1), a) == Simultaneous(body, front + [a]) <==>
            MeetsOwnOnly(body, front, a)
  {
    var d := |front| + 1;
    var gaps, needle := Gaps(body, front, d), Marker(d);
    MarkerIsSolo(d);
    GapsBefore(body, front, d);
    GapsAfter(body, front, d, a, front + [a]);
    ReplaceJoined(gaps, needle, a);
    JoinedAgreeIff(gaps, needle, a);
    forall i | 0 <= i < |gaps|
      ensures Replace(gaps[i], needle, a) == gaps[i] <==> a == needle || Lacks(gaps[i], needle)
    {
      ReplaceKeepsIff(gaps[i], needle, a);
    }
  }

  lemma {:induction false} NothingPutIn(body: string)
    ensures Simultaneous(body, []) == body
  {
    if body != [] {
      var n := if IsParameter(body) then 2 else 1;
      NothingPutIn(body[n..]);
      assert body == body[..n] + body[n..];
    }
  }

  /** After every argument the body is as if those so far had been put in at once. */
  ghost predicate AsAtOnce(body: string, arguments: seq<string>) {
    forall n :: 0 <= n <= |arguments| ==> Substitute(body, arguments[..n]) == Simultaneous(body, arguments[..n])
  }

  ghost predicate AllMeetOwnOnly(body: string, arguments: seq<string>) {
    forall n :: 0 <= n < |arguments| ==> MeetsOwnOnly(body, arguments[..n], arguments[n])
  }

  lemma {:induction false} FrontOf(body: string, front: seq<string>, a: string)
    ensures AsAtOnce(body, front + [a]) <==>
            AsAtOnce(body, front) && Substitute(body, front + [a]) == Simultaneous(body, front + [a])
    ensures AllMeetOwnOnly(body, front + [a]) <==> AllMeetOwnOnly(body, front) && MeetsOwnOnly(body, front, a)
  {
    var arguments := front + [a];
    assert forall n :: 0 <= n <= |front| ==> arguments[..n] == front[..n];
    assert arguments[..|arguments|] == arguments && arguments[..|front|] == front;
    assert front[..|front|] == front;
  }

  /**
   Putting arguments in one after the other is putting them in at once, at every
   step, exactly if each of them meets its parameter in the body's own places
   only: not inside an argument put in before, and not where one meets the text
   around it. What holds at every step holds for all arguments.
   */
  lemma {:induction false} AsAtOnceIff(body: string, arguments: seq<string>)
    ensures AsAtOnce(body, arguments) <==> AllMeetOwnOnly(body, arguments)
    ensures AllMeetOwnOnly(body, arguments) ==> Substitute(body, arguments) == Simultaneous(body, arguments)
    decreases |arguments|
  {
    NothingPutIn(body);
    if arguments == [] {
      assert arguments[..0] == [];
    } else {
      var front, a := arguments[..|arguments| - 1], arguments[|arguments| - 1];
      assert arguments == front + [a];
      AsAtOnceIff(body, front);
      FrontOf(body, front, a);
      SubstituteLast(body, front, a, 0);
      StepIff(body, front, a);
      assert front[..|front|] == front;
    }
  }

  // ---------------------------------------------------------------------------
  // Where it is so, and where it is not

  /** Every `#` of the body belongs to a parameter that has an argument. */
  predicate Tidy(body: string, n: nat) {
    if body == [] then true
    else if IsParameter(body) then ParameterOf(body) <= n && Tidy(body[2..], n)
    else body[0] != '#' && Tidy(body[1..], n)
  }

  /** A `#` stands only before a digit other than `d`. */
  predicate NotYet(s: string, d: nat) {
    forall i :: 0 <= i < |s| && s[i] == '#' ==> i + 1 < |s| && d < 10 && s[i + 1] != Digit(d)
  }

  lemma {:induction false} NotYetJoins(s: string, t: string, d: nat)
    requires NotYet(s, d) && NotYet(t, d)
    ensures NotYet(s + t, d)
  {
  }

  lemma {:induction false} NotYetLacks(s: string, d: nat)
    requires NotYet(s, d)
    ensures Lacks(s, Marker(d))
  {
    MarkerIsSolo(d);
    forall i: nat ensures !MatchesAt(s, i, Marker(d)) {
      if MatchesAt(s, i, Marker(d)) {
        MatchesChar(s, i, Marker(d), 0);
        MatchesChar(s, i, Marker(d), 1);
      }
    }
  }

  lemma {:induction false} TidyGaps(body: string, n: nat, front: seq<string>, d: nat)
    requires Tidy(body, n) && d == |front| + 1 && forall i :: 0 <= i < |front| ==> '#' !in front[i]
    ensures forall i :: 0 <= i < |Gaps(body, front, d)| ==> NotYet(Gaps(body, front, d)[i], d)
  {
    if body != [] {
      if IsParameter(body) {
        var k, rest := ParameterOf(body), Gaps(body[2..], front, d);
        TidyGaps(body[2..], n, front, d);
        if k != d {
          NotYetJoins(if k <= |front| then front[k - 1] else body[..2], rest[0], d);
        }
      } else {
        TidyGaps(body[1..], n, front, d);
        NotYetJoins([body[0]], Gaps(body[1..], front, d)[0], d);
      }
    }
  }

  /** In particular if no argument has a `#`, and the body has none but for parameters with an argument. */
  lemma {:induction false} TidyIsAtOnce(body: string, arguments: seq<string>)
    requires Tidy(body, |arguments|) && forall i :: 0 <= i < |arguments| ==> '#' !in arguments[i]
    ensures Substitute(body, arguments) == Simultaneous(body, arguments)
  {
    forall n | 0 <= n < |arguments| ensures MeetsOwnOnly(body, arguments[..n], arguments[n]) {
      var front, d := arguments[..n], n + 1;
      TidyGaps(body, |arguments|, front, d);
      forall i | 0 <= i < |Gaps(body, front, d)| ensures Lacks(Gaps(body, front, d)[i], Marker(d)) {
        NotYetLacks(Gaps(body, front, d)[i], d);
      }
    }
    AsAtOnceIff(body, arguments);
  }

  /** A body that is one parameter, given an argument that is the next one. */
  lemma {:induction false} ArgumentIsRewritten(body: string, first: string, second: string)
    requires body == Marker(1) && first == Marker(2) && second != first
    ensures Simultaneous(body, [first, second]) == first && Substitute(body, [first, second]) == second
  {
    var arguments := [first, second];
    MarkerReplaced(1, first);
    MarkerReplaced(2, second);
    assert SubstituteFrom(body, arguments, 0) == SubstituteFrom(first, arguments, 1);
    assert SubstituteFrom(first, arguments, 1) == SubstituteFrom(second, arguments, 2);
    assert body[1] == '1' && ParameterOf(body) == 1;
    assert body[2..] == [] && first + [] == first;
  }

  lemma {:induction false} MarkerReplaced(k: nat, a: string)
    ensures Replace(Marker(k), Marker(k), a) == a
  {
    MarkerIsSolo(k);
    assert Marker(k)[|Marker(k)|..] == [] && a + [] == a;
  }
}
