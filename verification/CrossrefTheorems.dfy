/**
 What the records of a crossref pass mean. A chain is a walk along links that
 name exactly one entry; Resolved is characterised by chains alone, and what an
 entry inherits by what its targets publish.
 */
module CrossrefTheorems {
  import opened Lists
  import opened Crossref

  /** Some link of `a` names exactly the entry `b`. */
  ghost predicate Edge(entries: seq<Entry>, a: nat, b: nat) {
    a < |entries| &&
    var links := Links(entries[a].fields);
    exists k :: 0 <= k < |links| && links[k].target.Some? && Candidates(entries, links[k].target.value) == [b]
  }

  ghost predicate IsChain(entries: seq<Entry>, chain: seq<nat>) {
    && |chain| >= 1
    && (forall i :: 0 <= i < |chain| ==> chain[i] < |entries|)
    && (forall i :: 0 <= i < |chain| - 1 ==> Edge(entries, chain[i], chain[i + 1]))
  }

  /** Every link value of the entry expanded, and every key names exactly one entry. */
  ghost predicate Clean(entries: seq<Entry>, a: nat) {
    a < |entries| &&
    var links := Links(entries[a].fields);
    forall k :: 0 <= k < |links| ==>
      links[k].target.Some? && |Candidates(entries, links[k].target.value)| == 1
  }

  ghost predicate ChainOk(entries: seq<Entry>, maxDepth: nat, depth: nat, visiting: set<nat>, chain: seq<nat>)
    requires |chain| >= 1
  {
    && Clean(entries, chain[|chain| - 1])
    && Distinct(chain)
    && (forall i :: 0 <= i < |chain| ==> chain[i] !in visiting)
    && depth + |chain| - 1 <= maxDepth
  }

  /** Every chain from `x` ends clean, repeats nothing, avoids `visiting` and is short enough. */
  ghost predicate ChainsOk(entries: seq<Entry>, maxDepth: nat, x: nat, depth: nat, visiting: set<nat>) {
    forall chain {:trigger IsChain(entries, chain)} ::
      IsChain(entries, chain) && chain[0] == x ==> ChainOk(entries, maxDepth, depth, visiting, chain)
  }

  /** A failure-free search has searched every entry its links name, one hop deeper. */
  lemma {:induction false} FailureFreeEdge(entries: seq<Entry>, maxDepth: nat, x: nat, depth: nat, visiting: set<nat>, y: nat)
    requires Edge(entries, x, y) && y < |entries|
    requires Effective(entries, maxDepth, x, depth, visiting).failure.None?
    ensures depth < maxDepth
    ensures Effective(entries, maxDepth, y, depth + 1, visiting + {x}).failure.None?
  {
    var links := Links(entries[x].fields);
    FoldSummary(entries, maxDepth, x, depth, visiting + {x}, links);
    var k :| 0 <= k < |links| && links[k].target.Some? && Candidates(entries, links[k].target.value) == [y];
    assert Follow(entries, maxDepth, depth, visiting + {x}, links[k]).status == Resolved;
    FailureIsNotResolved(entries, maxDepth, depth, visiting + {x}, links[k]);
  }

  lemma {:induction false} ChainTail(entries: seq<Entry>, chain: seq<nat>)
    requires IsChain(entries, chain) && |chain| > 1
    ensures IsChain(entries, chain[1..]) && Edge(entries, chain[0], chain[1])
  {
    var rest := chain[1..];
    forall i | 0 <= i < |rest| - 1 ensures Edge(entries, rest[i], rest[i + 1]) {
      assert Edge(entries, chain[i + 1], chain[i + 2]);
    }
  }

  lemma {:induction false} FailureFreeChains(
    entries: seq<Entry>, maxDepth: nat, x: nat, depth: nat, visiting: set<nat>, chain: seq<nat>)
    requires x < |entries| && depth <= maxDepth
    requires Effective(entries, maxDepth, x, depth, visiting).failure.None?
    requires IsChain(entries, chain) && chain[0] == x
    ensures ChainOk(entries, maxDepth, depth, visiting, chain)
    decreases |chain|
  {
    if |chain| == 1 {
      FoldSummary(entries, maxDepth, x, depth, visiting + {x}, Links(entries[x].fields));
    } else {
      ChainTail(entries, chain);
      FailureFreeEdge(entries, maxDepth, x, depth, visiting, chain[1]);
      FailureFreeChains(entries, maxDepth, chain[1], depth + 1, visiting + {x}, chain[1..]);
      assert chain == [x] + chain[1..];
      ChainOkFront(entries, maxDepth, x, depth, visiting, chain[1..]);
    }
  }

  /** An admissible chain below `x` stays admissible with `x` put in front. */
  lemma {:induction false} ChainOkFront(entries: seq<Entry>, maxDepth: nat, x: nat, depth: nat, visiting: set<nat>, rest: seq<nat>)
    requires |rest| >= 1 && x !in visiting && ChainOk(entries, maxDepth, depth + 1, visiting + {x}, rest)
    ensures ChainOk(entries, maxDepth, depth, visiting, [x] + rest)
  {
    var chain := [x] + rest;
    assert chain[|chain| - 1] == rest[|rest| - 1];
    forall i | 0 <= i < |chain| ensures chain[i] !in visiting {
      if i > 0 {
        assert chain[i] == rest[i - 1];
      }
    }
    forall i, j | 0 <= i < j < |chain| ensures chain[i] != chain[j] {
      assert chain[j] == rest[j - 1];
      if i > 0 {
        assert chain[i] == rest[i - 1];
      }
    }
  }

  lemma {:induction false} ChainsOkHere(
    entries: seq<Entry>, maxDepth: nat, x: nat, depth: nat, visiting: set<nat>)
    requires x < |entries| && ChainsOk(entries, maxDepth, x, depth, visiting)
    ensures Clean(entries, x) && x !in visiting && depth <= maxDepth
  {
    assert IsChain(entries, [x]);
    assert ChainOk(entries, maxDepth, depth, visiting, [x]);
    assert [x][0] !in visiting;
  }

  lemma {:induction false} ChainsOkSuffice(
    entries: seq<Entry>, maxDepth: nat, x: nat, depth: nat, visiting: set<nat>)
    requires x < |entries| && ChainsOk(entries, maxDepth, x, depth, visiting)
    ensures Effective(entries, maxDepth, x, depth, visiting).failure.None?
    decreases Remaining(entries, visiting), 1
  {
    ChainsOkHere(entries, maxDepth, x, depth, visiting);
    var links := Links(entries[x].fields);
    var inner := visiting + {x};
    FoldSummary(entries, maxDepth, x, depth, inner, links);
    forall k | 0 <= k < |links|
      ensures Follow(entries, maxDepth, depth, inner, links[k]).status == Resolved
    {
      ChainsOkLink(entries, maxDepth, x, depth, visiting, k);
    }
  }

  lemma {:induction false} ChainsOkLink(
    entries: seq<Entry>, maxDepth: nat, x: nat, depth: nat, visiting: set<nat>, k: nat)
    requires x < |entries| && ChainsOk(entries, maxDepth, x, depth, visiting) && k < |Links(entries[x].fields)|
    requires Clean(entries, x) && x !in visiting
    ensures Follow(entries, maxDepth, depth, visiting + {x}, Links(entries[x].fields)[k]).status == Resolved
    decreases Remaining(entries, visiting), 0
  {
    var link := Links(entries[x].fields)[k];
    var y := Candidates(entries, link.target.value)[0];
    assert Candidates(entries, link.target.value) == [y];
    assert Edge(entries, x, y);
    var deeper, inner := depth + 1, visiting + {x};
    ChainsOkBelow(entries, maxDepth, x, depth, visiting, y, deeper);
    RemainingShrinks(entries, x, visiting);
    ChainsOkSuffice(entries, maxDepth, y, deeper, inner);
  }

  lemma {:induction false} ChainsOkBelow(
    entries: seq<Entry>, maxDepth: nat, x: nat, depth: nat, visiting: set<nat>, y: nat, deeper: nat)
    requires x < |entries| && ChainsOk(entries, maxDepth, x, depth, visiting) && Edge(entries, x, y)
    requires deeper == depth + 1
    ensures ChainsOk(entries, maxDepth, y, deeper, visiting + {x}) && y !in visiting + {x} && deeper <= maxDepth
  {
    var inner := visiting + {x};
    forall chain | IsChain(entries, chain) && chain[0] == y
      ensures ChainOk(entries, maxDepth, deeper, inner, chain)
    {
      PrependOk(entries, maxDepth, x, depth, visiting, chain, deeper);
    }
    assert IsChain(entries, [y]);
    assert ChainOk(entries, maxDepth, deeper, inner, [y]);
    assert [y][0] !in inner;
  }

  lemma {:induction false} PrependChain(entries: seq<Entry>, x: nat, chain: seq<nat>)
    requires x < |entries| && IsChain(entries, chain) && Edge(entries, x, chain[0])
    ensures IsChain(entries, [x] + chain)
  {
    var longer := [x] + chain;
    forall i | 0 <= i < |longer| - 1 ensures Edge(entries, longer[i], longer[i + 1]) {
      if i > 0 {
        assert Edge(entries, chain[i - 1], chain[i]);
      }
    }
  }

  lemma {:induction false} PrependOk(
    entries: seq<Entry>, maxDepth: nat, x: nat, depth: nat, visiting: set<nat>, chain: seq<nat>, deeper: nat)
    requires x < |entries| && ChainsOk(entries, maxDepth, x, depth, visiting) && deeper == depth + 1
    requires IsChain(entries, chain) && Edge(entries, x, chain[0])
    ensures ChainOk(entries, maxDepth, deeper, visiting + {x}, chain)
  {
    var longer := [x] + chain;
    PrependChain(entries, x, chain);
    assert ChainOk(entries, maxDepth, depth, visiting, longer);
    forall i | 0 <= i < |chain| ensures chain[i] !in visiting + {x} {
      var next := i + 1;
      assert longer[next] == chain[i] && longer[0] == x;
    }
    forall i, j | 0 <= i < j < |chain| ensures chain[i] != chain[j] {
      var k, l := i + 1, j + 1;
      assert longer[k] == chain[i] && longer[l] == chain[j];
    }
  }

  /** The record that entry `e` gets for its `k`-th link. */
  ghost function RecordOf(entries: seq<Entry>, maxDepth: nat, e: nat, k: nat): Resolution
    requires e < |entries| && k < |Links(entries[e].fields)|
  {
    FoldSummary(entries, maxDepth, e, 0, {e}, Links(entries[e].fields));
    assert {} + {e} == {e};
    Effective(entries, maxDepth, e, 0, {}).records[k]
  }

  /** What a chain that starts at a target of `e` has to be like. */
  ghost predicate ReferenceOk(entries: seq<Entry>, maxDepth: nat, e: nat, chain: seq<nat>)
    requires |chain| >= 1
  {
    && Clean(entries, chain[|chain| - 1])
    && Distinct([e] + chain)
    && |chain| <= maxDepth
  }

  lemma {:induction false} ReferenceOkIsChainOk(entries: seq<Entry>, maxDepth: nat, e: nat, chain: seq<nat>)
    requires |chain| >= 1
    ensures ReferenceOk(entries, maxDepth, e, chain) <==> ChainOk(entries, maxDepth, 1, {e}, chain)
  {
    var longer := [e] + chain;
    assert forall i :: 0 <= i < |chain| ==> chain[i] == longer[i + 1];
    if ChainOk(entries, maxDepth, 1, {e}, chain) {
      assert Distinct(longer);
    }
    if Distinct(longer) {
      forall i | 0 <= i < |chain| ensures chain[i] !in {e} {
        assert longer[0] != longer[i + 1];
      }
    }
  }

  /**
   A reference of `e` is recorded Resolved exactly when its value expanded, its
   key names one entry, and every chain that goes on from there ends at an entry
   with clean links, never revisits an entry (`e` included) and makes at most
   `maxDepth` hops from `e`.
   */
  lemma {:induction false} ResolvedIffChainsOk(entries: seq<Entry>, maxDepth: nat, e: nat, k: nat)
    requires e < |entries| && k < |Links(entries[e].fields)|
    ensures var link := Links(entries[e].fields)[k];
            RecordOf(entries, maxDepth, e, k).status == Resolved <==>
              && link.target.Some?
              && |Candidates(entries, link.target.value)| == 1
              && forall chain {:trigger IsChain(entries, chain)} ::
                   IsChain(entries, chain) && chain[0] == Candidates(entries, link.target.value)[0] ==>
                     ReferenceOk(entries, maxDepth, e, chain)
  {
    var links := Links(entries[e].fields);
    var link := links[k];
    FoldSummary(entries, maxDepth, e, 0, {e}, links);
    assert {} + {e} == {e};
    FailureIsNotResolved(entries, maxDepth, 0, {e}, link);
    if link.target.Some? && |Candidates(entries, link.target.value)| == 1 {
      TargetIffChainsOk(entries, maxDepth, e, Candidates(entries, link.target.value)[0]);
    }
  }

  /** The search of a target below `e` is allowed and failure-free iff all its chains are. */
  lemma {:induction false} TargetIffChainsOk(entries: seq<Entry>, maxDepth: nat, e: nat, t: nat)
    requires e < |entries| && t < |entries|
    ensures t != e && 0 < maxDepth && Effective(entries, maxDepth, t, 1, {e}).failure.None? <==>
            forall chain {:trigger IsChain(entries, chain)} ::
              IsChain(entries, chain) && chain[0] == t ==> ReferenceOk(entries, maxDepth, e, chain)
  {
    if t != e && 0 < maxDepth && Effective(entries, maxDepth, t, 1, {e}).failure.None? {
      forall chain | IsChain(entries, chain) && chain[0] == t
        ensures ReferenceOk(entries, maxDepth, e, chain)
      {
        FailureFreeChains(entries, maxDepth, t, 1, {e}, chain);
        ReferenceOkIsChainOk(entries, maxDepth, e, chain);
      }
    }
    if forall chain {:trigger IsChain(entries, chain)} ::
         IsChain(entries, chain) && chain[0] == t ==> ReferenceOk(entries, maxDepth, e, chain)
    {
      forall chain | IsChain(entries, chain) && chain[0] == t
        ensures ChainOk(entries, maxDepth, 1, {e}, chain)
      {
        ReferenceOkIsChainOk(entries, maxDepth, e, chain);
      }
      ChainsOkSuffice(entries, maxDepth, t, 1, {e});
      assert IsChain(entries, [t]);
      assert ([e] + [t])[0] != ([e] + [t])[1];
    }
  }

  // ---------------------------------------------------------------------------
  // What a resolved reference contributes

  /** A failure-free search gives the same fields at any depth and from any visiting set. */
  lemma {:induction false} FailureFreeFieldsAgree(
    entries: seq<Entry>, maxDepth: nat, x: nat, d1: nat, v1: set<nat>, d2: nat, v2: set<nat>)
    requires x < |entries|
    requires Effective(entries, maxDepth, x, d1, v1).failure.None?
    requires Effective(entries, maxDepth, x, d2, v2).failure.None?
    ensures Effective(entries, maxDepth, x, d1, v1).fields == Effective(entries, maxDepth, x, d2, v2).fields
    decreases Remaining(entries, v1), 0
  {
    RemainingShrinks(entries, x, v1);
    FoldFieldsAgree(entries, maxDepth, x, d1, v1 + {x}, d2, v2 + {x}, Links(entries[x].fields));
  }

  lemma {:induction false} FoldFieldsAgree(
    entries: seq<Entry>, maxDepth: nat, x: nat, d1: nat, v1: set<nat>, d2: nat, v2: set<nat>, links: seq<Link>)
    requires x < |entries|
    requires Fold(entries, maxDepth, x, d1, v1, links).failure.None?
    requires Fold(entries, maxDepth, x, d2, v2, links).failure.None?
    ensures Fold(entries, maxDepth, x, d1, v1, links).fields == Fold(entries, maxDepth, x, d2, v2, links).fields
    decreases Remaining(entries, v1), 2, |links|
  {
    if links != [] {
      var front, link := links[..|links| - 1], links[|links| - 1];
      FoldSummary(entries, maxDepth, x, d1, v1, links);
      FoldSummary(entries, maxDepth, x, d2, v2, links);
      FoldFieldsAgree(entries, maxDepth, x, d1, v1, d2, v2, front);
      assert Follow(entries, maxDepth, d1, v1, link).status == Resolved;
      assert Follow(entries, maxDepth, d2, v2, link).status == Resolved;
      LinkFieldsAgree(entries, maxDepth, d1, v1, d2, v2, link);
    }
  }

  lemma {:induction false} LinkFieldsAgree(
    entries: seq<Entry>, maxDepth: nat, d1: nat, v1: set<nat>, d2: nat, v2: set<nat>, link: Link)
    requires Follow(entries, maxDepth, d1, v1, link).status == Resolved
    requires Follow(entries, maxDepth, d2, v2, link).status == Resolved
    ensures Follow(entries, maxDepth, d1, v1, link).parent == Follow(entries, maxDepth, d2, v2, link).parent
    decreases Remaining(entries, v1), 1
  {
    FailureIsNotResolved(entries, maxDepth, d1, v1, link);
    FailureIsNotResolved(entries, maxDepth, d2, v2, link);
    var target, e1, e2 := Candidates(entries, link.target.value)[0], d1 + 1, d2 + 1;
    FailureFreeFieldsAgree(entries, maxDepth, target, e1, v1, e2, v2);
  }

  /** The fields an entry publishes as its own effective fields. */
  ghost function Published(entries: seq<Entry>, maxDepth: nat, x: nat): Fields
    requires x < |entries|
  {
    Effective(entries, maxDepth, x, 0, {}).fields
  }

  /** A target searched without failure below `e` publishes exactly the fields found there. */
  lemma {:induction false} FailureFreeBelowIsPublished(entries: seq<Entry>, maxDepth: nat, e: nat, t: nat)
    requires t < |entries| && 0 < maxDepth
    requires Effective(entries, maxDepth, t, 1, {e}).failure.None?
    ensures Effective(entries, maxDepth, t, 1, {e}).fields == Published(entries, maxDepth, t)
  {
    forall chain | IsChain(entries, chain) && chain[0] == t
      ensures ChainOk(entries, maxDepth, 0, {}, chain)
    {
      FailureFreeChains(entries, maxDepth, t, 1, {e}, chain);
    }
    ChainsOkSuffice(entries, maxDepth, t, 0, {});
    FailureFreeFieldsAgree(entries, maxDepth, t, 1, {e}, 0, {});
  }

  lemma {:induction false} ResolvedLinkIsPublished(entries: seq<Entry>, maxDepth: nat, e: nat, link: Link)
    requires e < |entries| && Follow(entries, maxDepth, 0, {e}, link).status == Resolved
    ensures link.target.Some? && |Candidates(entries, link.target.value)| == 1
    ensures Follow(entries, maxDepth, 0, {e}, link) ==
            var candidates := Candidates(entries, link.target.value);
            Outcome(Resolved, candidates, Published(entries, maxDepth, candidates[0]))
  {
    FailureIsNotResolved(entries, maxDepth, 0, {e}, link);
    FailureFreeBelowIsPublished(entries, maxDepth, e, Candidates(entries, link.target.value)[0]);
  }

  ghost predicate Extends(small: Fields, large: Fields) {
    forall name :: name in small ==> name in large && large[name] == small[name]
  }

  /** Following more links only adds names, and never changes a gathered field. */
  lemma {:induction false} FoldGrows(
    entries: seq<Entry>, maxDepth: nat, x: nat, depth: nat, visiting: set<nat>, links: seq<Link>, i: nat)
    requires x < |entries| && i <= |links|
    ensures Extends(Fold(entries, maxDepth, x, depth, visiting, links[..i]).fields,
                    Fold(entries, maxDepth, x, depth, visiting, links).fields)
    decreases |links|
  {
    if i < |links| {
      var front := links[..|links| - 1];
      assert front[..i] == links[..i];
      FoldGrows(entries, maxDepth, x, depth, visiting, front, i);
    } else {
      assert links[..i] == links;
    }
  }

  lemma {:induction false} RecordAt(
    entries: seq<Entry>, maxDepth: nat, x: nat, depth: nat, visiting: set<nat>, links: seq<Link>, k: nat)
    requires x < |entries| && k < |links|
    ensures |Fold(entries, maxDepth, x, depth, visiting, links).records| == |links|
    ensures Fold(entries, maxDepth, x, depth, visiting, links).records[k] ==
            var before := Fold(entries, maxDepth, x, depth, visiting, links[..k]);
            Step(entries[x], before, links[k], Follow(entries, maxDepth, depth, visiting, links[k])).records[|before.records|]
    decreases |links|
  {
    var front := links[..|links| - 1];
    FoldSummary(entries, maxDepth, x, depth, visiting, links);
    FoldSummary(entries, maxDepth, x, depth, visiting, front);
    if k < |front| {
      assert front[..k] == links[..k] && front[k] == links[k];
      RecordAt(entries, maxDepth, x, depth, visiting, front, k);
    } else {
      assert links[..k] == front;
    }
  }

  /**
   Whenever a reference of `e` is Resolved, `e` holds every name its target
   publishes (links aside), and each field inherited through this reference is
   the target's published one, marked as inherited.
   */
  lemma {:induction false} ResolvedInheritsPublished(entries: seq<Entry>, maxDepth: nat, e: nat, k: nat)
    requires e < |entries| && k < |Links(entries[e].fields)|
    requires RecordOf(entries, maxDepth, e, k).status == Resolved
    ensures var record := RecordOf(entries, maxDepth, e, k);
            |record.targetEntryIndices| == 1 && record.targetEntryIndices[0] < |entries|
    ensures var record := RecordOf(entries, maxDepth, e, k);
            var theirs := Published(entries, maxDepth, record.targetEntryIndices[0]);
            var ours := Published(entries, maxDepth, e);
            && (forall name :: name in theirs && !IsLinkName(name) ==> name in ours)
            && (forall name :: name in record.inheritedFields ==>
                  name in theirs && name in ours && ours[name] == theirs[name].(inherited := true))
  {
    var links := Links(entries[e].fields);
    var link := links[k];
    assert {} + {e} == {e};
    FoldSummary(entries, maxDepth, e, 0, {e}, links);
    RecordAt(entries, maxDepth, e, 0, {e}, links, k);
    ResolvedLinkIsPublished(entries, maxDepth, e, link);
    var t := Candidates(entries, link.target.value)[0];
    InheritReaches(entries, maxDepth, e, links, k, Published(entries, maxDepth, t));
  }

  lemma {:induction false} InheritReaches(
    entries: seq<Entry>, maxDepth: nat, e: nat, links: seq<Link>, k: nat, theirs: Fields)
    requires e < |entries| && links == Links(entries[e].fields) && k < |links|
    requires Follow(entries, maxDepth, 0, {e}, links[k]).status == Resolved
    requires Follow(entries, maxDepth, 0, {e}, links[k]).parent == theirs
    ensures var before := Fold(entries, maxDepth, e, 0, {e}, links[..k]).fields;
            Extends(Inherit(before, theirs), Published(entries, maxDepth, e))
  {
    var next := k + 1;
    assert {} + {e} == {e};
    FoldExtend(entries, maxDepth, e, 0, {e}, links[..k], links[k]);
    assert links[..k] + [links[k]] == links[..next];
    FoldGrows(entries, maxDepth, e, 0, {e}, links, next);
  }

  // ---------------------------------------------------------------------------
  // Where every effective field comes from

  ghost function InheritedNames(records: seq<Resolution>): set<string> {
    if records == [] then {}
    else InheritedNames(records[..|records| - 1]) + records[|records| - 1].inheritedFields
  }

  ghost predicate Disjoint(own: set<string>, records: seq<Resolution>) {
    && (forall k :: 0 <= k < |records| ==> own !! records[k].inheritedFields)
    && (forall i, j :: 0 <= i < j < |records| ==> records[i].inheritedFields !! records[j].inheritedFields)
  }

  lemma {:induction false} InheritedNamesCover(records: seq<Resolution>)
    ensures forall k :: 0 <= k < |records| ==> records[k].inheritedFields <= InheritedNames(records)
  {
    if records != [] {
      InheritedNamesCover(records[..|records| - 1]);
      assert forall k :: 0 <= k < |records| - 1 ==> records[k] == records[..|records| - 1][k];
    }
  }

  /** One more record, of names not there before. */
  lemma {:induction false} NamesStep(
    own: set<string>, before: set<string>, records: seq<Resolution>, after: set<string>, record: Resolution)
    requires before == own + InheritedNames(records) && Disjoint(own, records)
    requires after == before + record.inheritedFields && before !! record.inheritedFields
    ensures after == own + InheritedNames(records + [record]) && Disjoint(own, records + [record])
  {
    var more := records + [record];
    assert more[..|records|] == records;
    InheritedNamesCover(records);
    forall i, j | 0 <= i < j < |more| ensures more[i].inheritedFields !! more[j].inheritedFields {
      assert records[i].inheritedFields <= before;
    }
  }

  lemma {:induction false} FoldNames(
    entries: seq<Entry>, maxDepth: nat, x: nat, depth: nat, visiting: set<nat>, links: seq<Link>)
    requires x < |entries|
    ensures var effect := Fold(entries, maxDepth, x, depth, visiting, links);
            && effect.fields.Keys == Direct(entries[x]).Keys + InheritedNames(effect.records)
            && Disjoint(Direct(entries[x]).Keys, effect.records)
    decreases |links|
  {
    if links != [] {
      var front := links[..|links| - 1];
      FoldNames(entries, maxDepth, x, depth, visiting, front);
      var before := Fold(entries, maxDepth, x, depth, visiting, front);
      var effect := Fold(entries, maxDepth, x, depth, visiting, links);
      var record := effect.records[|before.records|];
      assert effect.records == before.records + [record];
      NamesStep(Direct(entries[x]).Keys, before.fields.Keys, before.records, effect.fields.Keys, record);
    }
  }

  /**
   The effective names of an entry are its own names and, disjointly, the names
   recorded as inherited for each of its references; its own fields always win.
   */
  lemma {:induction false} EffectiveNamesPartition(entries: seq<Entry>, maxDepth: nat, e: nat)
    requires e < |entries|
    ensures var effect := Effective(entries, maxDepth, e, 0, {});
            var own := Direct(entries[e]);
            && effect.fields.Keys == own.Keys + InheritedNames(effect.records)
            && Disjoint(own.Keys, effect.records)
            && Extends(own, effect.fields)
  {
    var links := Links(entries[e].fields);
    FoldNames(entries, maxDepth, e, 0, {} + {e}, links);
    FoldGrows(entries, maxDepth, e, 0, {} + {e}, links, 0);
    assert links[..0] == [];
  }

  /** `value` is what the last field of that name holds. */
  ghost predicate IsLastOwn(fields: seq<Field>, name: string, value: FieldValue) {
    exists i :: 0 <= i < |fields| && fields[i] == Field(name, value)
                && forall j :: i < j < |fields| ==> fields[j].name != name
  }

  lemma {:induction false} LastOwnExtends(fields: seq<Field>, last: Field, name: string, value: FieldValue)
    requires IsLastOwn(fields, name, value) && last.name != name
    ensures IsLastOwn(fields + [last], name, value)
  {
    var i :| 0 <= i < |fields| && fields[i] == Field(name, value)
             && forall j :: i < j < |fields| ==> fields[j].name != name;
    var more := fields + [last];
    assert more[i] == fields[i];
  }

  lemma {:induction false} DirectIsLastOwn(entry: Entry, fields: seq<Field>)
    ensures forall name :: name in DirectFrom(entry, fields) ==>
              var field := DirectFrom(entry, fields)[name];
              && field == ResolvedField(name, entry.index, entry.key, false, field.value)
              && IsLastOwn(fields, name, field.value)
    ensures forall i :: 0 <= i < |fields| ==> fields[i].name in DirectFrom(entry, fields)
  {
    if fields != [] {
      var front, last := fields[..|fields| - 1], fields[|fields| - 1];
      DirectIsLastOwn(entry, front);
      assert fields == front + [last];
      forall name | name in DirectFrom(entry, fields)
        ensures IsLastOwn(fields, name, DirectFrom(entry, fields)[name].value)
      {
        if name == last.name {
          assert fields[|front|] == Field(name, last.value);
        } else {
          LastOwnExtends(front, last, name, DirectFrom(entry, front)[name].value);
        }
      }
    }
  }

  /** A field found for `x`: its source, whether it is inherited, and its value. */
  ghost predicate Sourced(entries: seq<Entry>, x: nat, name: string, field: ResolvedField) {
    var source := field.sourceEntryIndex;
    && field.name == name
    && source < |entries|
    && field.sourceEntryKey == entries[source].key
    && (field.inherited <==> source != x)
    && IsLastOwn(entries[source].fields, name, field.value)
  }

  ghost predicate AllSourced(entries: seq<Entry>, x: nat, fields: Fields) {
    forall name :: name in fields ==> Sourced(entries, x, name, fields[name])
  }

  /** No field comes from an entry being visited, `x` itself aside. */
  ghost predicate Avoids(x: nat, visiting: set<nat>, fields: Fields) {
    forall name :: name in fields ==>
      fields[name].sourceEntryIndex == x || fields[name].sourceEntryIndex !in visiting
  }

  lemma {:induction false} EffectiveSources(
    entries: seq<Entry>, maxDepth: nat, x: nat, depth: nat, visiting: set<nat>)
    requires x < |entries| && WellIndexed(entries)
    ensures var effect := Effective(entries, maxDepth, x, depth, visiting);
            && AllSourced(entries, x, effect.fields)
            && (effect.failure.None? ==> x !in visiting && Avoids(x, visiting, effect.fields))
    decreases Remaining(entries, visiting), 0
  {
    if x in visiting {
      DirectIsLastOwn(entries[x], entries[x].fields);
    } else {
      RemainingShrinks(entries, x, visiting);
      FoldSources(entries, maxDepth, x, depth, visiting + {x}, Links(entries[x].fields));
    }
  }

  lemma {:induction false} FoldSources(
    entries: seq<Entry>, maxDepth: nat, x: nat, depth: nat, visiting: set<nat>, links: seq<Link>)
    requires x < |entries| && WellIndexed(entries) && x in visiting
    ensures var fields := Fold(entries, maxDepth, x, depth, visiting, links).fields;
            AllSourced(entries, x, fields) && Avoids(x, visiting, fields)
    decreases Remaining(entries, visiting), 1, |links|
  {
    if links == [] {
      DirectIsLastOwn(entries[x], entries[x].fields);
    } else {
      FoldSources(entries, maxDepth, x, depth, visiting, links[..|links| - 1]);
      var link := links[|links| - 1];
      var outcome := Follow(entries, maxDepth, depth, visiting, link);
      FailureIsNotResolved(entries, maxDepth, depth, visiting, link);
      if outcome.status == Resolved {
        EffectiveSources(entries, maxDepth, outcome.candidates[0], depth + 1, visiting);
        InheritSources(entries, x, visiting, outcome.candidates[0], outcome.parent,
                       Fold(entries, maxDepth, x, depth, visiting, links[..|links| - 1]).fields);
      }
    }
  }

  lemma {:induction false} InheritSources(entries: seq<Entry>, x: nat, visiting: set<nat>, t: nat, parent: Fields, fields: Fields)
    requires AllSourced(entries, x, fields) && Avoids(x, visiting, fields)
    requires AllSourced(entries, t, parent) && Avoids(t, visiting, parent)
    requires x in visiting && t !in visiting
    ensures AllSourced(entries, x, Inherit(fields, parent)) && Avoids(x, visiting, Inherit(fields, parent))
  {
    forall name | name in Inherit(fields, parent)
      ensures Sourced(entries, x, name, Inherit(fields, parent)[name])
    {
      if name !in fields {
        assert Sourced(entries, t, name, parent[name]);
      }
    }
  }

  /**
   Every effective field is the last own field of its name in its source entry,
   and it is marked inherited exactly when that source is another entry.
   */
  lemma {:induction false} EffectiveFieldsAreSourced(entries: seq<Entry>, maxDepth: nat, e: nat)
    requires e < |entries| && WellIndexed(entries)
    ensures AllSourced(entries, e, Published(entries, maxDepth, e))
  {
    EffectiveSources(entries, maxDepth, e, 0, {});
  }

  lemma {:induction false} EntryRecords(entries: seq<Entry>, maxDepth: nat, e: nat)
    requires e < |entries|
    ensures |Effective(entries, maxDepth, e, 0, {}).records| == |Links(entries[e].fields)|
  {
    FoldSummary(entries, maxDepth, e, 0, {e}, Links(entries[e].fields));
    assert {} + {e} == {e};
  }

  /** Every record of a whole pass is the record of one link of one entry. */
  lemma {:induction false} AllRecordsAreLinkRecords(entries: seq<Entry>, maxDepth: nat, n: nat, r: nat)
    requires n <= |entries| && r < |AllRecords(entries, maxDepth, n)|
    ensures exists e: nat, k: nat :: e < n && k < |Links(entries[e].fields)|
                           && AllRecords(entries, maxDepth, n)[r] == RecordOf(entries, maxDepth, e, k)
  {
    var before := AllRecords(entries, maxDepth, n - 1);
    if r < |before| {
      AllRecordsAreLinkRecords(entries, maxDepth, n - 1, r);
    } else {
      EntryRecords(entries, maxDepth, n - 1);
      assert AllRecords(entries, maxDepth, n)[r] == RecordOf(entries, maxDepth, n - 1, r - |before|);
    }
  }
}
