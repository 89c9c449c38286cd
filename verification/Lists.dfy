/** Lists: numbers, repetition, and sorted lists of names in place of sorted sets. */
module Lists {
  import opened Text

  function Max(a: nat, b: nat): nat {
    if a < b then b else a
  }

  predicate Distinct<T(==)>(s: seq<T>) {
    forall i, j :: 0 <= i < j < |s| ==> s[i] != s[j]
  }

  lemma {:induction false} Regroup<T>(a: seq<T>, b: seq<T>, c: seq<T>)
    ensures a + (b + c) == a + b + c
  {
  }

  // ---------------------------------------------------------------------------
  // Places in a list

  /** Places of a list, after one more element is put before it. */
  function Moved(places: seq<nat>): (moved: seq<nat>)
    ensures |moved| == |places| && forall k :: 0 <= k < |places| ==> moved[k] == places[k] + 1
  {
    seq(|places|, k requires 0 <= k < |places| => places[k] + 1)
  }

  lemma {:induction false} MovedMember(places: seq<nat>, i: nat)
    requires i > 0
    ensures i in Moved(places) <==> i - 1 in places
  {
    if i - 1 in places {
      var k :| 0 <= k < |places| && places[k] == i - 1;
      assert Moved(places)[k] == i;
    }
  }

  predicate Rising(places: seq<nat>) {
    forall j, k :: 0 <= j < k < |places| ==> places[j] < places[k]
  }

  predicate StandAt<T(==)>(whole: seq<T>, part: seq<T>, places: seq<nat>) {
    |places| == |part| && forall k :: 0 <= k < |places| ==> places[k] < |whole| && part[k] == whole[places[k]]
  }

  /** The part is what passes a test, in order, and it stands at these places of the whole. */
  ghost predicate Picks<T>(whole: seq<T>, test: T -> bool, part: seq<T>, places: seq<nat>) {
    && Rising(places) && StandAt(whole, part, places)
    && forall i :: 0 <= i < |whole| ==> (i in places <==> test(whole[i]))
  }

  lemma {:induction false} StandAtNext<T>(whole: seq<T>, part: seq<T>, later: seq<nat>)
    requires whole != [] && Rising(later) && StandAt(whole[1..], part, later)
    ensures Rising(Moved(later)) && StandAt(whole, part, Moved(later))
    ensures Rising([0] + Moved(later)) && StandAt(whole, [whole[0]] + part, [0] + Moved(later))
  {
  }

  lemma {:induction false} PicksNext<T>(whole: seq<T>, test: T -> bool, part: seq<T>, later: seq<nat>)
    requires whole != [] && Picks(whole[1..], test, part, later)
    ensures if test(whole[0])
            then Picks(whole, test, [whole[0]] + part, [0] + Moved(later))
            else Picks(whole, test, part, Moved(later))
  {
    StandAtNext(whole, part, later);
    var places := if test(whole[0]) then [0] + Moved(later) else Moved(later);
    forall i | 0 <= i < |whole| ensures i in places <==> test(whole[i]) {
      if i > 0 {
        assert whole[1..][i - 1] == whole[i];
        MovedMember(later, i);
      } else if test(whole[0]) {
        assert places[0] == 0;
      }
    }
  }

  // ---------------------------------------------------------------------------
  // Sorted sets of names

  /** A sorted set of names with one more name. */
  function InsertName(names: seq<string>, name: string): seq<string> {
    if names == [] || LexLess(name, names[0]) then [name] + names
    else if names[0] == name then names
    else [names[0]] + InsertName(names[1..], name)
  }

  predicate Increasing(names: seq<string>) {
    forall i, j :: 0 <= i < j < |names| ==> LexLess(names[i], names[j])
  }

  predicate AllAfter(bound: string, names: seq<string>) {
    forall i :: 0 <= i < |names| ==> LexLess(bound, names[i])
  }

  lemma {:induction false} InsertMember(names: seq<string>, name: string, other: string)
    ensures other in InsertName(names, name) <==> other in names || other == name
  {
    if names != [] && !LexLess(name, names[0]) && names[0] != name {
      InsertMember(names[1..], name, other);
      assert names == [names[0]] + names[1..];
    }
  }

  lemma {:induction false} InsertAfter(bound: string, names: seq<string>, name: string)
    requires AllAfter(bound, names) && LexLess(bound, name)
    ensures AllAfter(bound, InsertName(names, name))
  {
    if names != [] && !LexLess(name, names[0]) && names[0] != name {
      InsertAfter(bound, names[1..], name);
    }
  }

  lemma {:induction false} InsertIncreasing(names: seq<string>, name: string)
    requires Increasing(names)
    ensures Increasing(InsertName(names, name))
  {
    if names != [] {
      if LexLess(name, names[0]) {
        forall i | 0 < i < |names| ensures LexLess(name, names[i]) {
          LexTransitive(name, names[0], names[i]);
        }
      } else if names[0] != name {
        LexTotal(name, names[0]);
        InsertIncreasing(names[1..], name);
        InsertAfter(names[0], names[1..], name);
      }
    }
  }

  // ---------------------------------------------------------------------------
  // Leaving elements out

  ghost function Filter<T>(s: seq<T>, p: T -> bool): seq<T> {
    if s == [] then []
    else
      var last := s[|s| - 1];
      Filter(s[..|s| - 1], p) + if p(last) then [last] else []
  }

  lemma {:induction false} FilterStep<T>(s: seq<T>, p: T -> bool, i: nat)
    requires i < |s|
    ensures Filter(s[..i + 1], p) == Filter(s[..i], p) + if p(s[i]) then [s[i]] else []
  {
    assert s[..i + 1][..i] == s[..i];
  }

  /** `a` is `b` with some elements left out. */
  predicate Subsequence<T(==)>(a: seq<T>, b: seq<T>) {
    if a == [] then true
    else if b == [] then false
    else
      || (a[|a| - 1] == b[|b| - 1] && Subsequence(a[..|a| - 1], b[..|b| - 1]))
      || Subsequence(a, b[..|b| - 1])
  }

  lemma {:induction false} SubsequenceExtends<T>(a: seq<T>, b: seq<T>, x: T)
    requires Subsequence(a, b)
    ensures Subsequence(a + [x], b + [x]) && Subsequence(a, b + [x])
  {
    assert (a + [x])[..|a|] == a && (b + [x])[..|b|] == b;
  }

  lemma {:induction false} SubsequenceIsShorter<T>(a: seq<T>, b: seq<T>)
    requires Subsequence(a, b)
    ensures |a| <= |b|
  {
    if a != [] {
      var front := b[..|b| - 1];
      if Subsequence(a, front) {
        SubsequenceIsShorter(a, front);
      } else {
        SubsequenceIsShorter(a[..|a| - 1], front);
      }
    }
  }

  /** What passes the stricter test is what passes the other with some elements left out. */
  lemma {:induction false} FilterShrinks<T(!new)>(s: seq<T>, p: T -> bool, q: T -> bool)
    requires forall x :: p(x) ==> q(x)
    ensures Subsequence(Filter(s, p), Filter(s, q))
  {
    if s != [] {
      FilterShrinks(s[..|s| - 1], p, q);
      var a, b, last := Filter(s[..|s| - 1], p), Filter(s[..|s| - 1], q), s[|s| - 1];
      SubsequenceExtends(a, b, last);
      assert a + [] == a && b + [] == b;
    }
  }
}
