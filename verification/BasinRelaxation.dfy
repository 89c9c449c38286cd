/**
 Retrieval by prefix consistency: an instance stays active while its signature
 and the evidence's agree up to the evidence length.
 */
module BasinRelaxation {
  import opened Wrappers
  import opened Lists
  import opened BasinTraces
  import opened BasinSignatures
  import opened BasinCounts

  datatype BasinInstance = BasinInstance(family: string, walk: seq<WalkStep>, focal: string)

  datatype IndexedInstance = IndexedInstance(instance: BasinInstance, signature: TypedSignature)

  datatype RelaxationState = RelaxationState(
    evidenceLength: nat, activeInstances: seq<string>, activeFamilies: seq<string>, familyCounts: seq<FamilyCount>,
    nActive: nat, nDistinctFamilies: nat)

  ghost function SignatureFor(walk: seq<WalkStep>, variant: SignatureVariant): TypedSignature {
    if variant.Typed? then Signature(walk) else WithoutLabels(Signature(walk))
  }

  function Prefix<T>(values: seq<T>, length: nat): seq<T> {
    if length < |values| then values[..length] else values
  }

  // ---------------------------------------------------------------------------
  // Which instances are active

  predicate Matches(signature: TypedSignature, query: TypedSignature, length: nat) {
    && Prefix(signature.nodeTrace, length) == Prefix(query.nodeTrace, length)
    && Prefix(signature.edgeLabelTrace, length) == Prefix(query.edgeLabelTrace, length)
  }

  ghost predicate Active(instance: BasinInstance, evidence: seq<WalkStep>, variant: SignatureVariant, length: nat) {
    Matches(SignatureFor(instance.walk, variant), SignatureFor(evidence, variant), length)
  }

  ghost function IsActive(evidence: seq<WalkStep>, variant: SignatureVariant, length: nat): BasinInstance -> bool {
    instance => Active(instance, evidence, variant, length)
  }

  ghost function ActiveOf(
    instances: seq<BasinInstance>, evidence: seq<WalkStep>, variant: SignatureVariant, length: nat): seq<BasinInstance>
  {
    Filter(instances, IsActive(evidence, variant, length))
  }

  /** Two walks agree up to a renaming of nodes and, in typed retrieval, on their encoded labels. */
  ghost predicate Agree(a: seq<WalkStep>, b: seq<WalkStep>, variant: SignatureVariant) {
    && |a| == |b|
    && Renamable(NodesOf(a), NodesOf(b))
    && (variant.Typed? ==>
          forall i :: 1 <= i < |a| ==>
            EncodeEdgeLabel(a[i].edgeType, a[i].direction) == EncodeEdgeLabel(b[i].edgeType, b[i].direction))
  }

  lemma {:induction false} NodesOfPrefix(walk: seq<WalkStep>, length: nat)
    ensures Prefix(Signature(walk).nodeTrace, length) == Trace(NodesOf(Prefix(walk, length)))
  {
    if length < |walk| {
      TracePrefix(NodesOf(walk), length);
      assert NodesOf(walk)[..length] == NodesOf(walk[..length]);
    }
  }

  lemma {:induction false} LabelsOfPrefix(walk: seq<WalkStep>, variant: SignatureVariant, length: nat)
    ensures Prefix(SignatureFor(walk, variant).edgeLabelTrace, length) ==
            if variant.Typed? then LabelTrace(Prefix(walk, length)) else seq(|Prefix(walk, length)|, _ => UNTYPED)
  {
  }

  lemma {:induction false} LabelsAgree(a: seq<WalkStep>, b: seq<WalkStep>)
    requires |a| == |b|
    ensures LabelTrace(a) == LabelTrace(b) <==>
            forall i :: 1 <= i < |a| ==>
              EncodeEdgeLabel(a[i].edgeType, a[i].direction) == EncodeEdgeLabel(b[i].edgeType, b[i].direction)
  {
    if LabelTrace(a) == LabelTrace(b) {
      forall i | 1 <= i < |a|
        ensures EncodeEdgeLabel(a[i].edgeType, a[i].direction) == EncodeEdgeLabel(b[i].edgeType, b[i].direction)
      {
        assert LabelAt(a, i) == LabelTrace(a)[i] == LabelTrace(b)[i] == LabelAt(b, i);
      }
    }
  }

  /**
   Retrieval at a length keeps exactly the instances whose prefix of that length
   agrees with the evidence's, up to renaming and encoded labels.
   */
  lemma {:induction false} ActiveIffPrefixesAgree(
    instance: BasinInstance, evidence: seq<WalkStep>, variant: SignatureVariant, length: nat)
    ensures Active(instance, evidence, variant, length) <==>
            Agree(Prefix(instance.walk, length), Prefix(evidence, length), variant)
  {
    var a, b := Prefix(instance.walk, length), Prefix(evidence, length);
    NodesOfPrefix(instance.walk, length);
    NodesOfPrefix(evidence, length);
    LabelsOfPrefix(instance.walk, variant, length);
    LabelsOfPrefix(evidence, variant, length);
    assert |Trace(NodesOf(a))| == |a| && |Trace(NodesOf(b))| == |b|;
    if |a| == |b| {
      SameTraceIffRenamable(NodesOf(a), NodesOf(b));
      LabelsAgree(a, b);
    }
  }

  // ---------------------------------------------------------------------------
  // How the active set changes

  lemma {:induction false} ShorterPrefix<T>(a: seq<T>, b: seq<T>, shorter: nat, longer: nat)
    requires shorter <= longer && Prefix(a, longer) == Prefix(b, longer)
    ensures Prefix(a, shorter) == Prefix(b, shorter)
  {
    assert Prefix(a, shorter) == Prefix(Prefix(a, longer), shorter);
    assert Prefix(b, shorter) == Prefix(Prefix(b, longer), shorter);
  }

  /** More evidence never brings an instance back. */
  lemma {:induction false} ActiveSetShrinks(
    instances: seq<BasinInstance>, evidence: seq<WalkStep>, variant: SignatureVariant, shorter: nat, longer: nat)
    requires shorter <= longer
    ensures Subsequence(ActiveOf(instances, evidence, variant, longer), ActiveOf(instances, evidence, variant, shorter))
    ensures |ActiveOf(instances, evidence, variant, longer)| <= |ActiveOf(instances, evidence, variant, shorter)|
  {
    var query := SignatureFor(evidence, variant);
    forall instance | Active(instance, evidence, variant, longer) ensures Active(instance, evidence, variant, shorter) {
      var signature := SignatureFor(instance.walk, variant);
      ShorterPrefix(signature.nodeTrace, query.nodeTrace, shorter, longer);
      ShorterPrefix(signature.edgeLabelTrace, query.edgeLabelTrace, shorter, longer);
    }
    FilterShrinks(instances, IsActive(evidence, variant, longer), IsActive(evidence, variant, shorter));
    SubsequenceIsShorter(ActiveOf(instances, evidence, variant, longer), ActiveOf(instances, evidence, variant, shorter));
  }

  /** What typed retrieval keeps, label-free retrieval keeps. */
  lemma {:induction false} TypedInsideLabelFree(
    instances: seq<BasinInstance>, evidence: seq<WalkStep>, length: nat)
    ensures Subsequence(ActiveOf(instances, evidence, Typed, length), ActiveOf(instances, evidence, LabelFree, length))
  {
    forall instance | Active(instance, evidence, Typed, length) ensures Active(instance, evidence, LabelFree, length) {
      ActiveIffPrefixesAgree(instance, evidence, Typed, length);
      ActiveIffPrefixesAgree(instance, evidence, LabelFree, length);
    }
    FilterShrinks(instances, IsActive(evidence, Typed, length), IsActive(evidence, LabelFree, length));
  }

  // ---------------------------------------------------------------------------
  // The index

  function Focals(active: seq<BasinInstance>): (names: seq<string>)
    ensures |names| == |active| && forall i :: 0 <= i < |active| ==> names[i] == active[i].focal
  {
    seq(|active|, i requires 0 <= i < |active| => active[i].focal)
  }

  function Families(active: seq<BasinInstance>): (names: seq<string>)
    ensures |names| == |active| && forall i :: 0 <= i < |active| ==> names[i] == active[i].family
  {
    seq(|active|, i requires 0 <= i < |active| => active[i].family)
  }

  function StateOf(length: nat, active: seq<BasinInstance>): RelaxationState {
    var counts := FamilyCounts(Families(active));
    RelaxationState(length, Focals(active), Families(active), counts, |active|, |counts|)
  }

  method Snapshot(length: nat, active: seq<BasinInstance>) returns (state: RelaxationState)
    ensures state == StateOf(length, active)
  {
    var counts: seq<FamilyCount> := [];
    ghost var families := Families(active);
    for i := 0 to |active|
      invariant counts == Tabulate(families[..i])
    {
      assert families[..i + 1][..i] == families[..i];
      counts := Bump(counts, active[i].family);
    }
    assert families[..|active|] == families;
    var familyCounts := SortCounts(counts);
    state := RelaxationState(length, Focals(active), Families(active), familyCounts, |active|, |familyCounts|);
  }

  method SignWalk(walk: seq<WalkStep>, variant: SignatureVariant) returns (signature: TypedSignature)
    ensures signature == SignatureFor(walk, variant)
  {
    signature := TypedCanonicalSignature(walk);
    if variant.LabelFree? {
      signature := RemoveLabels(signature);
    }
  }

  class RelaxationIndex {
    const variant: SignatureVariant
    var entries: seq<IndexedInstance>

    constructor (variant: SignatureVariant)
      ensures this.variant == variant && Valid() && Instances() == []
    {
      this.variant, entries := variant, [];
    }

    /** Every instance is indexed under its own signature. */
    ghost predicate Valid()
      reads this
    {
      forall i :: 0 <= i < |entries| ==> entries[i].signature == SignatureFor(entries[i].instance.walk, variant)
    }

    ghost function Instances(): (instances: seq<BasinInstance>)
      reads this
    {
      InstancesOf(entries)
    }

    method Add(instance: BasinInstance)
      requires Valid()
      modifies this
      ensures Valid() && Instances() == old(Instances()) + [instance]
    {
      var signature := SignWalk(instance.walk, variant);
      entries := entries + [IndexedInstance(instance, signature)];
    }

    method AddAll(instances: seq<BasinInstance>)
      requires Valid()
      modifies this
      ensures Valid() && Instances() == old(Instances()) + instances
    {
      for i := 0 to |instances|
        invariant Valid() && Instances() == old(Instances()) + instances[..i]
      {
        Add(instances[i]);
      }
    }

    method Relax(evidence: seq<WalkStep>, length: Option<nat>) returns (state: RelaxationState)
      requires Valid()
      ensures var k := if length.Some? then length.value else |evidence|;
              state == StateAt(Instances(), evidence, variant, k)
    {
      var k := if length.Some? then length.value else |evidence|;
      var query := SignWalk(evidence, variant);
      var active: seq<BasinInstance> := [];
      for i := 0 to |entries|
        invariant active == Filter(Instances()[..i], IsActive(evidence, variant, k))
      {
        FilterStep(Instances(), IsActive(evidence, variant, k), i);
        if Matches(entries[i].signature, query, k) {
          active := active + [entries[i].instance];
        }
      }
      assert Instances()[..|entries|] == Instances();
      state := Snapshot(k, active);
    }

    method RelaxTrajectory(evidence: seq<WalkStep>) returns (states: seq<RelaxationState>)
      requires Valid()
      ensures |states| == |evidence| && IsTrajectory(Instances(), evidence, variant, states)
    {
      states := [];
      for i := 0 to |evidence|
        invariant |states| == i && IsTrajectory(Instances(), evidence, variant, states)
      {
        var k := i + 1;
        var state := Relax(evidence, Some(k));
        states := states + [state];
      }
    }

    /** Retrieval with one step of the evidence left out; the root cannot be. */
    method PerturbDrop(evidence: seq<WalkStep>, dropIndex: nat) returns (state: RelaxationState)
      requires Valid() && dropIndex > 0
      ensures var shortened := WithoutStep(evidence, dropIndex);
              state == StateAt(Instances(), shortened, variant, |shortened|)
    {
      var shortened := DropStep(evidence, dropIndex);
      state := Relax(shortened, None);
    }
  }

  function WithoutStep(evidence: seq<WalkStep>, dropIndex: nat): seq<WalkStep> {
    if dropIndex < |evidence| then evidence[..dropIndex] + evidence[dropIndex + 1..] else evidence
  }

  method DropStep(evidence: seq<WalkStep>, dropIndex: nat) returns (shortened: seq<WalkStep>)
    ensures shortened == WithoutStep(evidence, dropIndex)
  {
    shortened := [];
    for i := 0 to |evidence|
      invariant shortened == WithoutStep(evidence[..i], dropIndex)
    {
      assert evidence[..i + 1] == evidence[..i] + [evidence[i]];
      if i != dropIndex {
        shortened := shortened + [evidence[i]];
      }
    }
    assert evidence[..|evidence|] == evidence;
  }

  ghost function StateAt(
    instances: seq<BasinInstance>, evidence: seq<WalkStep>, variant: SignatureVariant, length: nat): RelaxationState
  {
    StateOf(length, ActiveOf(instances, evidence, variant, length))
  }

  /** The states for evidence of length one, two, and so on. */
  ghost predicate IsTrajectory(
    instances: seq<BasinInstance>, evidence: seq<WalkStep>, variant: SignatureVariant, states: seq<RelaxationState>)
  {
    forall k {:trigger StateAt(instances, evidence, variant, k)} :: 1 <= k <= |states| ==>
      states[k - 1] == StateAt(instances, evidence, variant, k)
  }

  function InstancesOf(entries: seq<IndexedInstance>): (instances: seq<BasinInstance>)
    ensures |instances| == |entries| && forall i :: 0 <= i < |entries| ==> instances[i] == entries[i].instance
  {
    seq(|entries|, i requires 0 <= i < |entries| => entries[i].instance)
  }

  lemma {:induction false} FewerInState(a: seq<BasinInstance>, b: seq<BasinInstance>, m: nat, n: nat)
    requires Subsequence(a, b)
    ensures StateOf(m, a).nActive <= StateOf(n, b).nActive
    ensures Subsequence(StateOf(m, a).activeInstances, StateOf(n, b).activeInstances)
    ensures Subsequence(StateOf(m, a).activeFamilies, StateOf(n, b).activeFamilies)
  {
    SubsequenceIsShorter(a, b);
    SubsequenceOfNames(a, b);
  }

  /** Along a trajectory the active set only loses instances. */
  lemma {:induction false} TrajectoryShrinks(
    instances: seq<BasinInstance>, evidence: seq<WalkStep>, variant: SignatureVariant, states: seq<RelaxationState>,
    i: nat, j: nat)
    requires IsTrajectory(instances, evidence, variant, states) && i <= j < |states|
    ensures states[j].nActive <= states[i].nActive
    ensures Subsequence(states[j].activeInstances, states[i].activeInstances)
    ensures Subsequence(states[j].activeFamilies, states[i].activeFamilies)
  {
    var early, late := i + 1, j + 1;
    assert states[early - 1] == StateAt(instances, evidence, variant, early);
    assert states[late - 1] == StateAt(instances, evidence, variant, late);
    ActiveSetShrinks(instances, evidence, variant, early, late);
    FewerInState(ActiveOf(instances, evidence, variant, late), ActiveOf(instances, evidence, variant, early), late, early);
  }

  lemma {:induction false} SubsequenceOfNames(a: seq<BasinInstance>, b: seq<BasinInstance>)
    requires Subsequence(a, b)
    ensures Subsequence(Focals(a), Focals(b)) && Subsequence(Families(a), Families(b))
  {
    if a != [] {
      var frontA, frontB := a[..|a| - 1], b[..|b| - 1];
      assert Focals(b)[..|b| - 1] == Focals(frontB) && Families(b)[..|b| - 1] == Families(frontB);
      if Subsequence(a, frontB) {
        SubsequenceOfNames(a, frontB);
      } else {
        assert Focals(a)[..|a| - 1] == Focals(frontA) && Families(a)[..|a| - 1] == Families(frontA);
        SubsequenceOfNames(frontA, frontB);
      }
    }
  }
}
