/**
 What every status of a crossref record means: the status of the first link at
 fault below it, and the chain of entries that shows the fault.
 */
module CrossrefStatuses {
  import opened Wrappers
  import opened Lists
  import opened Crossref
  import opened CrossrefTheorems

  /** The link expanded, names one entry, and every chain from there is admissible. */
  ghost predicate LinkOk(entries: seq<Entry>, maxDepth: nat, depth: nat, visiting: set<nat>, link: Link) {
    && link.target.Some? && |Candidates(entries, link.target.value)| == 1
    && ChainsOk(entries, maxDepth, Candidates(entries, link.target.value)[0], depth + 1, visiting)
  }

  /** What is wrong with a link by itself, from an entry `depth` hops deep below those visited. */
  function OwnFault(entries: seq<Entry>, maxDepth: nat, depth: nat, visiting: set<nat>, link: Link): Option<Status> {
    if link.target.None? then Some(ValueUnresolved)
    else
      var candidates := Candidates(entries, link.target.value);
      if |candidates| == 0 then Some(Unresolved)
      else if |candidates| > 1 then Some(Ambiguous)
      else if candidates[0] in visiting then Some(Cycle)
      else if depth >= maxDepth then Some(DepthExceeded)
      else None
  }

  /** The only entry a link without a fault of its own names. */
  function TargetOf(entries: seq<Entry>, link: Link): (target: nat)
    requires link.target.Some? && |Candidates(entries, link.target.value)| == 1
    ensures target < |entries|
  {
    Candidates(entries, link.target.value)[0]
  }

  /**
   The link positions `path` lead to the first fault below a link: the link is at
   fault itself, or every link of its target before the first position is in
   order and the one at that position leads on.
   */
  ghost predicate FirstFault(
    entries: seq<Entry>, maxDepth: nat, depth: nat, visiting: set<nat>, link: Link, path: seq<nat>, status: Status)
    decreases |path|
  {
    var own := OwnFault(entries, maxDepth, depth, visiting, link);
    if path == [] then own == Some(status)
    else
      own.None? &&
      var target := TargetOf(entries, link);
      var links := Links(entries[target].fields);
      && path[0] < |links|
      && (forall j :: 0 <= j < path[0] ==> LinkOk(entries, maxDepth, depth + 1, visiting + {target}, links[j]))
      && FirstFault(entries, maxDepth, depth + 1, visiting + {target}, links[path[0]], path[1..], status)
  }

  // ---------------------------------------------------------------------------
  // Each status is that of the first fault

  lemma {:induction false} ResolvedIffLinkOk(
    entries: seq<Entry>, maxDepth: nat, depth: nat, visiting: set<nat>, link: Link)
    ensures Follow(entries, maxDepth, depth, visiting, link).status == Resolved <==>
            LinkOk(entries, maxDepth, depth, visiting, link)
  {
    FailureIsNotResolved(entries, maxDepth, depth, visiting, link);
    if link.target.Some? && |Candidates(entries, link.target.value)| == 1 {
      var target := TargetOf(entries, link);
      if Follow(entries, maxDepth, depth, visiting, link).status == Resolved {
        forall chain | IsChain(entries, chain) && chain[0] == target
          ensures ChainOk(entries, maxDepth, depth + 1, visiting, chain)
        {
          FailureFreeChains(entries, maxDepth, target, depth + 1, visiting, chain);
        }
      } else if LinkOk(entries, maxDepth, depth, visiting, link) {
        ChainsOkHere(entries, maxDepth, target, depth + 1, visiting);
        ChainsOkSuffice(entries, maxDepth, target, depth + 1, visiting);
      }
    }
  }

  /** The failure of a search is the outcome of the first link that does not resolve. */
  lemma {:induction false} FailureIsFirst(
    entries: seq<Entry>, maxDepth: nat, x: nat, depth: nat, visiting: set<nat>, links: seq<Link>, k: nat)
    requires x < |entries| && k < |links|
    requires forall j :: 0 <= j < k ==> Follow(entries, maxDepth, depth, visiting, links[j]).status == Resolved
    requires Follow(entries, maxDepth, depth, visiting, links[k]).status != Resolved
    ensures Fold(entries, maxDepth, x, depth, visiting, links).failure
            == Some(Follow(entries, maxDepth, depth, visiting, links[k]).status)
    decreases |links|
  {
    var last := |links| - 1;
    var front := links[..last];
    assert links == front + [links[last]];
    FoldExtend(entries, maxDepth, x, depth, visiting, front, links[last]);
    if k < last {
      FailureIsFirst(entries, maxDepth, x, depth, visiting, front, k);
    } else {
      FoldSummary(entries, maxDepth, x, depth, visiting, front);
    }
  }

  lemma {:induction false} FirstUnresolved(
    entries: seq<Entry>, maxDepth: nat, depth: nat, visiting: set<nat>, links: seq<Link>) returns (k: nat)
    requires exists j :: 0 <= j < |links| && Follow(entries, maxDepth, depth, visiting, links[j]).status != Resolved
    ensures k < |links| && Follow(entries, maxDepth, depth, visiting, links[k]).status != Resolved
    ensures forall j :: 0 <= j < k ==> Follow(entries, maxDepth, depth, visiting, links[j]).status == Resolved
  {
    k := 0;
    while Follow(entries, maxDepth, depth, visiting, links[k]).status == Resolved
      invariant k < |links|
      invariant forall j :: 0 <= j < k ==> Follow(entries, maxDepth, depth, visiting, links[j]).status == Resolved
      decreases |links| - k
    {
      k := k + 1;
    }
  }

  /** Following a link without a fault of its own ends as the search of its target does. */
  lemma {:induction false} FollowSearches(
    entries: seq<Entry>, maxDepth: nat, depth: nat, visiting: set<nat>, link: Link)
    requires OwnFault(entries, maxDepth, depth, visiting, link).None?
    ensures var target := TargetOf(entries, link);
            var links := Links(entries[target].fields);
            var failure := Fold(entries, maxDepth, target, depth + 1, visiting + {target}, links).failure;
            Follow(entries, maxDepth, depth, visiting, link).status
            == if failure.Some? then failure.value else Resolved
  {
  }

  lemma {:induction false} UnresolvedHasFault(
    entries: seq<Entry>, maxDepth: nat, depth: nat, visiting: set<nat>, link: Link) returns (path: seq<nat>)
    requires Follow(entries, maxDepth, depth, visiting, link).status != Resolved
    ensures FirstFault(entries, maxDepth, depth, visiting, link, path,
                       Follow(entries, maxDepth, depth, visiting, link).status)
    decreases Remaining(entries, visiting)
  {
    if OwnFault(entries, maxDepth, depth, visiting, link).Some? {
      path := [];
    } else {
      var target := TargetOf(entries, link);
      var links, inner := Links(entries[target].fields), visiting + {target};
      FollowSearches(entries, maxDepth, depth, visiting, link);
      FoldSummary(entries, maxDepth, target, depth + 1, inner, links);
      var k := FirstUnresolved(entries, maxDepth, depth + 1, inner, links);
      FailureIsFirst(entries, maxDepth, target, depth + 1, inner, links, k);
      forall j | 0 <= j < k ensures LinkOk(entries, maxDepth, depth + 1, inner, links[j]) {
        ResolvedIffLinkOk(entries, maxDepth, depth + 1, inner, links[j]);
      }
      RemainingShrinks(entries, target, visiting);
      var rest := UnresolvedHasFault(entries, maxDepth, depth + 1, inner, links[k]);
      path := [k] + rest;
      assert path[1..] == rest;
    }
  }

  lemma {:induction false} FaultIsReported(
    entries: seq<Entry>, maxDepth: nat, depth: nat, visiting: set<nat>, link: Link, path: seq<nat>, status: Status)
    requires FirstFault(entries, maxDepth, depth, visiting, link, path, status)
    ensures Follow(entries, maxDepth, depth, visiting, link).status == status != Resolved
    decreases |path|
  {
    if path != [] {
      var target := TargetOf(entries, link);
      var links, inner := Links(entries[target].fields), visiting + {target};
      FaultIsReported(entries, maxDepth, depth + 1, inner, links[path[0]], path[1..], status);
      forall j | 0 <= j < path[0] ensures Follow(entries, maxDepth, depth + 1, inner, links[j]).status == Resolved {
        ResolvedIffLinkOk(entries, maxDepth, depth + 1, inner, links[j]);
      }
      FailureIsFirst(entries, maxDepth, target, depth + 1, inner, links, path[0]);
      FollowSearches(entries, maxDepth, depth, visiting, link);
    }
  }

  lemma {:induction false} RecordFollows(entries: seq<Entry>, maxDepth: nat, e: nat, k: nat)
    requires e < |entries| && k < |Links(entries[e].fields)|
    ensures RecordOf(entries, maxDepth, e, k).status
            == Follow(entries, maxDepth, 0, {e}, Links(entries[e].fields)[k]).status
  {
    FoldSummary(entries, maxDepth, e, 0, {e}, Links(entries[e].fields));
    assert {} + {e} == {e};
  }

  /** A record carries a status other than Resolved exactly when the first fault below its link has that status. */
  lemma {:induction false} StatusIffFirstFault(entries: seq<Entry>, maxDepth: nat, e: nat, k: nat, status: Status)
    requires e < |entries| && k < |Links(entries[e].fields)| && status != Resolved
    ensures RecordOf(entries, maxDepth, e, k).status == status <==>
            exists path :: FirstFault(entries, maxDepth, 0, {e}, Links(entries[e].fields)[k], path, status)
  {
    var link := Links(entries[e].fields)[k];
    RecordFollows(entries, maxDepth, e, k);
    if RecordOf(entries, maxDepth, e, k).status == status {
      var path := UnresolvedHasFault(entries, maxDepth, 0, {e}, link);
      assert FirstFault(entries, maxDepth, 0, {e}, link, path, status);
    }
    if exists path :: FirstFault(entries, maxDepth, 0, {e}, link, path, status) {
      var path :| FirstFault(entries, maxDepth, 0, {e}, link, path, status);
      FaultIsReported(entries, maxDepth, 0, {e}, link, path, status);
    }
  }

  // ---------------------------------------------------------------------------
  // The chain that shows a fault

  /** Some link of the entry has this fault whatever was visited. */
  ghost predicate HasFaultyLink(entries: seq<Entry>, x: nat, status: Status)
    requires x < |entries|
  {
    exists k :: 0 <= k < |Links(entries[x].fields)| &&
      var link := Links(entries[x].fields)[k];
      match status
      case ValueUnresolved => link.target.None?
      case Unresolved => link.target.Some? && |Candidates(entries, link.target.value)| == 0
      case Ambiguous => link.target.Some? && |Candidates(entries, link.target.value)| > 1
      case _ => false
  }

  /** A chain from `e` that shows the fault. */
  ghost predicate ShowsFault(entries: seq<Entry>, maxDepth: nat, e: nat, status: Status, chain: seq<nat>) {
    && IsChain(entries, chain) && chain[0] == e
    && match status
       case Cycle => Distinct(chain[..|chain| - 1]) && chain[|chain| - 1] in chain[..|chain| - 1]
       case DepthExceeded => Distinct(chain) && |chain| - 1 == maxDepth + 1
       case Resolved => false
       case _ => Distinct(chain) && |chain| - 1 <= maxDepth && HasFaultyLink(entries, chain[|chain| - 1], status)
  }

  lemma {:induction false} ChainGoesOn(entries: seq<Entry>, chain: seq<nat>, k: nat)
    requires IsChain(entries, chain) && k < |Links(entries[chain[|chain| - 1]].fields)|
    requires var link := Links(entries[chain[|chain| - 1]].fields)[k];
             link.target.Some? && |Candidates(entries, link.target.value)| == 1
    ensures var target := TargetOf(entries, Links(entries[chain[|chain| - 1]].fields)[k]);
            IsChain(entries, chain + [target])
  {
    var last := chain[|chain| - 1];
    var link := Links(entries[last].fields)[k];
    var target := TargetOf(entries, link);
    assert Candidates(entries, link.target.value) == [target];
    assert Edge(entries, last, target);
    var longer := chain + [target];
    forall i | 0 <= i < |longer| - 1 ensures Edge(entries, longer[i], longer[i + 1]) {
      if i < |chain| - 1 {
        assert Edge(entries, chain[i], chain[i + 1]);
      }
    }
  }

  lemma {:induction false} FaultHasChain(
    entries: seq<Entry>, maxDepth: nat, before: seq<nat>, k: nat, depth: nat, visiting: set<nat>, path: seq<nat>,
    status: Status)
    returns (chain: seq<nat>)
    requires IsChain(entries, before) && Distinct(before) && k < |Links(entries[before[|before| - 1]].fields)|
    requires depth == |before| - 1 <= maxDepth && (forall x :: x in visiting <==> x in before)
    requires FirstFault(entries, maxDepth, depth, visiting, Links(entries[before[|before| - 1]].fields)[k], path, status)
    ensures ShowsFault(entries, maxDepth, before[0], status, chain)
    decreases |path|
  {
    var link := Links(entries[before[|before| - 1]].fields)[k];
    chain := before;
    if link.target.Some? && |Candidates(entries, link.target.value)| == 1 {
      ChainGoesOn(entries, before, k);
      var target := TargetOf(entries, link);
      chain := before + [target];
      if path != [] {
        chain := FaultHasChain(entries, maxDepth, chain, path[0], depth + 1, visiting + {target}, path[1..], status);
      } else {
        assert chain[..|chain| - 1] == before;
      }
    }
  }

  /**
   So every failure is real: Cycle comes with a chain from the entry that runs
   into itself, DepthExceeded with one that makes one hop too many, and the others
   with a chain within the limit to an entry with such a link.
   */
  lemma {:induction false} StatusHasChain(entries: seq<Entry>, maxDepth: nat, e: nat, k: nat)
    requires e < |entries| && k < |Links(entries[e].fields)| && RecordOf(entries, maxDepth, e, k).status != Resolved
    ensures exists chain :: ShowsFault(entries, maxDepth, e, RecordOf(entries, maxDepth, e, k).status, chain)
  {
    var status := RecordOf(entries, maxDepth, e, k).status;
    StatusIffFirstFault(entries, maxDepth, e, k, status);
    var path :| FirstFault(entries, maxDepth, 0, {e}, Links(entries[e].fields)[k], path, status);
    assert IsChain(entries, [e]) && Distinct([e]);
    var chain := FaultHasChain(entries, maxDepth, [e], k, 0, {e}, path, status);
  }
}
