/** How often every family is active, most active first. */
module BasinCounts {
  import opened Wrappers
  import opened Text

  datatype FamilyCount = FamilyCount(family: string, count: nat)

  /** A count table, in the order of the family names. */
  function Bump(counts: seq<FamilyCount>, family: string): seq<FamilyCount> {
    if counts == [] then [FamilyCount(family, 1)]
    else if counts[0].family == family then [FamilyCount(family, counts[0].count + 1)] + counts[1..]
    else if LexLess(family, counts[0].family) then [FamilyCount(family, 1)] + counts
    else [counts[0]] + Bump(counts[1..], family)
  }

  function Tabulate(families: seq<string>): seq<FamilyCount> {
    if families == [] then []
    else Bump(Tabulate(families[..|families| - 1]), families[|families| - 1])
  }

  /** More instances first, then the smaller name. */
  predicate Before(a: FamilyCount, b: FamilyCount) {
    a.count > b.count || (a.count == b.count && LexLess(a.family, b.family))
  }

  function InsertCount(sorted: seq<FamilyCount>, entry: FamilyCount): seq<FamilyCount> {
    if sorted == [] || Before(entry, sorted[0]) then [entry] + sorted
    else [sorted[0]] + InsertCount(sorted[1..], entry)
  }

  function SortCounts(counts: seq<FamilyCount>): seq<FamilyCount> {
    if counts == [] then [] else InsertCount(SortCounts(counts[1..]), counts[0])
  }

  function Occurrences(families: seq<string>, family: string): nat {
    multiset(families)[family]
  }

  /** Names in strictly increasing order. */
  predicate ByName(counts: seq<FamilyCount>) {
    forall i, j :: 0 <= i < j < |counts| ==> LexLess(counts[i].family, counts[j].family)
  }

  /** The count a table gives a family, zero if it is not listed. */
  function CountIn(counts: seq<FamilyCount>, family: string): nat {
    if counts == [] then 0
    else if counts[0].family == family then counts[0].count
    else CountIn(counts[1..], family)
  }

  predicate AllPositive(counts: seq<FamilyCount>) {
    forall i :: 0 <= i < |counts| ==> counts[i].count > 0
  }

  lemma {:induction false} BumpCounts(counts: seq<FamilyCount>, family: string, other: string)
    requires ByName(counts) && AllPositive(counts)
    ensures CountIn(Bump(counts, family), other) == CountIn(counts, other) + if other == family then 1 else 0
  {
    if counts != [] {
      if LexLess(family, counts[0].family) {
        AbsentBelow(counts, family);
        assert ([FamilyCount(family, 1)] + counts)[1..] == counts;
      } else if counts[0].family != family {
        BumpCounts(counts[1..], family, other);
      }
    }
  }

  lemma {:induction false} AbsentBelow(counts: seq<FamilyCount>, family: string)
    requires ByName(counts) && counts != [] && LexLess(family, counts[0].family)
    ensures CountIn(counts, family) == 0
  {
    LexIrreflexive(family);
    if |counts| > 1 {
      LexTransitive(family, counts[0].family, counts[1].family);
      AbsentBelow(counts[1..], family);
    }
  }

  // ---------------------------------------------------------------------------
  // The table by name

  predicate AllAbove(bound: string, counts: seq<FamilyCount>) {
    forall i :: 0 <= i < |counts| ==> LexLess(bound, counts[i].family)
  }

  lemma {:induction false} BumpAbove(bound: string, counts: seq<FamilyCount>, family: string)
    requires AllAbove(bound, counts) && LexLess(bound, family)
    ensures AllAbove(bound, Bump(counts, family))
  {
    if counts != [] && counts[0].family != family && !LexLess(family, counts[0].family) {
      BumpAbove(bound, counts[1..], family);
    }
  }

  lemma {:induction false} BumpKeepsOrder(counts: seq<FamilyCount>, family: string)
    requires ByName(counts) && AllPositive(counts)
    ensures ByName(Bump(counts, family)) && AllPositive(Bump(counts, family))
  {
    if counts != [] {
      var first, rest := counts[0], counts[1..];
      if first.family == family {
        assert Bump(counts, family)[1..] == rest;
      } else if LexLess(family, first.family) {
        forall i | 0 <= i < |counts| ensures LexLess(family, counts[i].family) {
          if i > 0 {
            LexTransitive(family, first.family, counts[i].family);
          }
        }
      } else {
        LexTotal(family, first.family);
        BumpKeepsOrder(rest, family);
        BumpAbove(first.family, rest, family);
      }
    }
  }

  lemma {:induction false} BumpTotal(counts: seq<FamilyCount>, family: string)
    ensures Total(Bump(counts, family)) == Total(counts) + 1
  {
    if counts != [] && counts[0].family != family {
      if LexLess(family, counts[0].family) {
        assert ([FamilyCount(family, 1)] + counts)[1..] == counts;
      } else {
        BumpTotal(counts[1..], family);
      }
    }
  }

  function Total(counts: seq<FamilyCount>): nat {
    if counts == [] then 0 else counts[0].count + Total(counts[1..])
  }

  lemma {:induction false} TabulateOrder(families: seq<string>)
    ensures ByName(Tabulate(families)) && AllPositive(Tabulate(families)) && Total(Tabulate(families)) == |families|
  {
    if families != [] {
      var front, last := families[..|families| - 1], families[|families| - 1];
      TabulateOrder(front);
      BumpKeepsOrder(Tabulate(front), last);
      BumpTotal(Tabulate(front), last);
    }
  }

  lemma {:induction false} TabulateCounts(families: seq<string>, family: string)
    ensures CountIn(Tabulate(families), family) == Occurrences(families, family)
  {
    if families != [] {
      var front, last := families[..|families| - 1], families[|families| - 1];
      TabulateCounts(front, family);
      TabulateOrder(front);
      BumpCounts(Tabulate(front), last, family);
      assert families == front + [last];
    }
  }

  // ---------------------------------------------------------------------------
  // The table by rank

  predicate DistinctNames(counts: seq<FamilyCount>) {
    forall i, j :: 0 <= i < j < |counts| ==> counts[i].family != counts[j].family
  }

  predicate Ranked(counts: seq<FamilyCount>) {
    forall i, j :: 0 <= i < j < |counts| ==> Before(counts[i], counts[j])
  }

  lemma {:induction false} BeforeTransitive(a: FamilyCount, b: FamilyCount, c: FamilyCount)
    requires Before(a, b) && Before(b, c)
    ensures Before(a, c)
  {
    if a.count == b.count == c.count {
      LexTransitive(a.family, b.family, c.family);
    }
  }

  lemma {:induction false} InsertMembers(sorted: seq<FamilyCount>, entry: FamilyCount)
    ensures multiset(InsertCount(sorted, entry)) == multiset(sorted) + multiset{entry}
  {
    if sorted != [] && !Before(entry, sorted[0]) {
      InsertMembers(sorted[1..], entry);
      assert sorted == [sorted[0]] + sorted[1..];
    }
  }

  predicate BeforeAll(entry: FamilyCount, counts: seq<FamilyCount>) {
    forall i :: 0 <= i < |counts| ==> Before(entry, counts[i])
  }

  lemma {:induction false} InsertBelow(bound: FamilyCount, sorted: seq<FamilyCount>, entry: FamilyCount)
    requires BeforeAll(bound, sorted) && Before(bound, entry)
    ensures BeforeAll(bound, InsertCount(sorted, entry))
  {
    if sorted != [] && !Before(entry, sorted[0]) {
      InsertBelow(bound, sorted[1..], entry);
    }
  }

  lemma {:induction false} InsertRanked(sorted: seq<FamilyCount>, entry: FamilyCount)
    requires Ranked(sorted) && forall i :: 0 <= i < |sorted| ==> sorted[i].family != entry.family
    ensures Ranked(InsertCount(sorted, entry))
  {
    if sorted != [] {
      var first := sorted[0];
      if Before(entry, first) {
        forall i | 0 < i < |sorted| ensures Before(entry, sorted[i]) {
          BeforeTransitive(entry, first, sorted[i]);
        }
      } else {
        LexTotal(entry.family, first.family);
        InsertRanked(sorted[1..], entry);
        InsertBelow(first, sorted[1..], entry);
      }
    }
  }

  lemma {:induction false} SortMembers(counts: seq<FamilyCount>)
    ensures multiset(SortCounts(counts)) == multiset(counts)
    ensures |SortCounts(counts)| == |counts|
  {
    if counts != [] {
      SortMembers(counts[1..]);
      InsertMembers(SortCounts(counts[1..]), counts[0]);
      assert counts == [counts[0]] + counts[1..];
    }
    assert |multiset(SortCounts(counts))| == |SortCounts(counts)|;
  }

  lemma {:induction false} InsertTotal(sorted: seq<FamilyCount>, entry: FamilyCount)
    ensures Total(InsertCount(sorted, entry)) == Total(sorted) + entry.count
  {
    if sorted != [] && !Before(entry, sorted[0]) {
      InsertTotal(sorted[1..], entry);
    } else {
      assert ([entry] + sorted)[1..] == sorted;
    }
  }

  lemma {:induction false} SortTotal(counts: seq<FamilyCount>)
    ensures Total(SortCounts(counts)) == Total(counts)
  {
    if counts != [] {
      SortTotal(counts[1..]);
      InsertTotal(SortCounts(counts[1..]), counts[0]);
    }
  }

  lemma {:induction false} SortRanked(counts: seq<FamilyCount>)
    requires DistinctNames(counts)
    ensures Ranked(SortCounts(counts))
  {
    if counts != [] {
      var sorted := SortCounts(counts[1..]);
      SortRanked(counts[1..]);
      SortMembers(counts[1..]);
      forall i | 0 <= i < |sorted| ensures sorted[i].family != counts[0].family {
        assert sorted[i] in multiset(counts[1..]);
        var j :| 0 <= j < |counts[1..]| && counts[1..][j] == sorted[i];
        assert counts[j + 1] == sorted[i];
      }
      InsertRanked(sorted, counts[0]);
    }
  }

  /** What a list of counts says of a family, when it lists every family with its own count. */
  ghost predicate Tells(counts: seq<FamilyCount>, families: seq<string>) {
    forall family, n :: FamilyCount(family, n) in counts <==> n == Occurrences(families, family) > 0
  }

  lemma {:induction false} ListedCount(counts: seq<FamilyCount>, family: string, n: nat)
    requires ByName(counts) && AllPositive(counts)
    ensures FamilyCount(family, n) in counts <==> n == CountIn(counts, family) > 0
  {
    if counts != [] {
      var first := counts[0];
      assert counts == [first] + counts[1..];
      ListedCount(counts[1..], family, n);
      if first.family == family && |counts| > 1 {
        AbsentBelow(counts[1..], family);
      }
    }
  }

  function FamilyCounts(families: seq<string>): seq<FamilyCount> {
    SortCounts(Tabulate(families))
  }

  /**
   The counts of a snapshot: every active family once, with the number of its
   instances; more instances first and then by name; adding up to all of them.
   */
  lemma {:induction false} FamilyCountsTell(families: seq<string>)
    ensures Tells(FamilyCounts(families), families)
    ensures Ranked(FamilyCounts(families))
    ensures Total(FamilyCounts(families)) == |families|
  {
    var table := Tabulate(families);
    TabulateOrder(families);
    SortTotal(table);
    SortMembers(table);
    forall i, j | 0 <= i < j < |table| ensures table[i].family != table[j].family {
      LexIrreflexive(table[i].family);
    }
    SortRanked(table);
    forall family, n
      ensures FamilyCount(family, n) in FamilyCounts(families) <==> n == Occurrences(families, family) > 0
    {
      TabulateCounts(families, family);
      ListedCount(table, family, n);
      assert FamilyCount(family, n) in FamilyCounts(families) <==> FamilyCount(family, n) in multiset(table);
    }
  }

  // ---------------------------------------------------------------------------
  // The dominant family

  function HowMany(counts: seq<FamilyCount>, count: nat): nat {
    if counts == [] then 0 else (if counts[0].count == count then 1 else 0) + HowMany(counts[1..], count)
  }

  function DominantFamily(counts: seq<FamilyCount>): Option<string> {
    if counts == [] then None
    else if HowMany(counts, counts[0].count) > 1 then None
    else Some(counts[0].family)
  }

  lemma {:induction false} NoneHas(counts: seq<FamilyCount>, count: nat)
    ensures HowMany(counts, count) == 0 <==> forall i :: 0 <= i < |counts| ==> counts[i].count != count
  {
    if counts != [] {
      NoneHas(counts[1..], count);
      assert counts == [counts[0]] + counts[1..];
      assert (forall i :: 0 <= i < |counts| ==> counts[i].count != count) ==>
             forall i :: 0 <= i < |counts[1..]| ==> counts[1..][i].count != count;
    }
  }

  /** There is a dominant family exactly when one family has more instances than every other. */
  lemma {:induction false} DominantIffMost(families: seq<string>, family: string)
    ensures DominantFamily(FamilyCounts(families)) == Some(family) <==>
            && family in families
            && forall other :: other != family ==> Occurrences(families, other) < Occurrences(families, family)
  {
    var counts := FamilyCounts(families);
    FamilyCountsTell(families);
    if counts != [] {
      NoneHas(counts[1..], counts[0].count);
    }
    if DominantFamily(counts) == Some(family) {
      DominantHasMost(families, counts);
    }
    if family in families && forall other :: other != family ==> Occurrences(families, other) < Occurrences(families, family) {
      MostIsDominant(families, counts, family);
    }
  }

  lemma {:induction false} DominantHasMost(families: seq<string>, counts: seq<FamilyCount>)
    requires Tells(counts, families) && Ranked(counts) && counts != []
    requires forall i :: 1 <= i < |counts| ==> counts[i].count != counts[0].count
    ensures counts[0].family in families
    ensures forall other :: other != counts[0].family ==>
              Occurrences(families, other) < Occurrences(families, counts[0].family)
  {
    var top := counts[0];
    assert FamilyCount(top.family, top.count) in counts;
    forall other | other != top.family ensures Occurrences(families, other) < top.count {
      var n := Occurrences(families, other);
      if n > 0 {
        assert FamilyCount(other, n) in counts;
        var i :| 0 <= i < |counts| && counts[i] == FamilyCount(other, n);
        assert i > 0 && Before(top, counts[i]);
      }
    }
  }

  lemma {:induction false} MostIsDominant(families: seq<string>, counts: seq<FamilyCount>, family: string)
    requires Tells(counts, families) && Ranked(counts) && family in families
    requires forall other :: other != family ==> Occurrences(families, other) < Occurrences(families, family)
    ensures counts != [] && counts[0].family == family
    ensures forall i :: 1 <= i < |counts| ==> counts[i].count != counts[0].count
  {
    var n := Occurrences(families, family);
    assert FamilyCount(family, n) in counts;
    var i :| 0 <= i < |counts| && counts[i] == FamilyCount(family, n);
    forall j | 0 <= j < |counts| && j != i ensures counts[j].count < n {
      var other := counts[j];
      assert FamilyCount(other.family, other.count) in counts;
      assert other.family == family ==> other == counts[i];
      if other == counts[i] {
        BeforeIrreflexive(other);
      }
    }
  }

  lemma {:induction false} BeforeIrreflexive(a: FamilyCount)
    ensures !Before(a, a)
  {
    LexIrreflexive(a.family);
  }
}
