/** Which lexical token each node of the tree is given: every token is claimed by at most one node. */
module DomClaims {
  import opened Wrappers
  import opened Lists
  import opened Text
  import opened HtmlLexer
  import opened DomForest

  /** What a new node asks for. */
  datatype Want = WantElement(name: string) | WantKinds(kinds: set<TokenKind>)

  predicate Wanted(want: Want, token: Token) {
    match want
    case WantElement(name) => token.kind == StartTag && token.name.Some? && EqualsIgnoreCase(token.name.value, name)
    case WantKinds(kinds) => token.kind in kinds
  }

  datatype Claims = Claims(used: seq<bool>, suppressed: nat)

  /** A claim's outcome: the token, if any, and the claims after it. */
  datatype Claimed = Claimed(token: Option<nat>, claims: Claims)

  /** The first unclaimed wanted token, from `i` on. */
  function FirstUnused(tokens: seq<Token>, used: seq<bool>, want: Want, i: nat): (found: Option<nat>)
    requires i <= |tokens| == |used|
    ensures found.Some? ==> i <= found.value < |used| && !used[found.value] && Wanted(want, tokens[found.value])
    ensures forall k :: i <= k < (if found.Some? then found.value else |used|) ==> used[k] || !Wanted(want, tokens[k])
    decreases |tokens| - i
  {
    if i == |tokens| then None
    else if !used[i] && Wanted(want, tokens[i]) then Some(i)
    else FirstUnused(tokens, used, want, i + 1)
  }

  function Claim(tokens: seq<Token>, claims: Claims, want: Want): Claimed
    requires |tokens| == |claims.used|
  {
    match FirstUnused(tokens, claims.used, want, 0)
    case None => Claimed(None, claims)
    case Some(index) => Claimed(Some(index), claims.(used := claims.used[index := true]))
  }

  /** Elements made for the fragment context claim nothing. */
  function ClaimElement(tokens: seq<Token>, claims: Claims, name: string): Claimed
    requires |tokens| == |claims.used|
  {
    if claims.suppressed > 0 then Claimed(None, claims.(suppressed := claims.suppressed - 1))
    else Claim(tokens, claims, WantElement(name))
  }

  /** Which tokens are used when none is. */
  function NoneUsed(n: nat): (used: seq<bool>)
    ensures |used| == n && forall i :: 0 <= i < n ==> !used[i]
  {
    seq(n, _ => false)
  }

  class SourceClaims {
    const tokens: seq<Token>
    var used: seq<bool>
    var suppressed: nat

    constructor (tokens: seq<Token>, suppressed: nat)
      ensures this.tokens == tokens && Valid()
      ensures State() == Claims(NoneUsed(|tokens|), suppressed)
    {
      this.tokens, this.suppressed := tokens, suppressed;
      used := NoneUsed(|tokens|);
    }

    ghost predicate Valid()
      reads this
    {
      |used| == |tokens|
    }

    ghost function State(): Claims
      reads this
    {
      Claims(used, suppressed)
    }

    method ClaimFirst(want: Want) returns (found: Option<nat>)
      requires Valid()
      modifies this`used
      ensures Valid()
      ensures Claimed(found, State()) == Claim(tokens, old(State()), want)
    {
      found := None;
      var i := 0;
      while i < |tokens| && found.None?
        invariant i <= |tokens| && used == old(used)
        invariant FirstUnused(tokens, used, want, 0) ==
                  if found.Some? then found else FirstUnused(tokens, used, want, i)
        invariant found.Some? ==> found.value < |tokens|
      {
        if !used[i] && Wanted(want, tokens[i]) {
          found := Some(i);
        }
        i := i + 1;
      }
      if found.Some? {
        used := used[found.value := true];
      }
    }

    method ClaimStartTag(name: string) returns (found: Option<nat>)
      requires Valid()
      modifies this
      ensures Valid()
      ensures Claimed(found, State()) == ClaimElement(tokens, old(State()), name)
    {
      if suppressed > 0 {
        suppressed := suppressed - 1;
        return None;
      }
      found := ClaimFirst(WantElement(name));
    }
  }

  // ---------------------------------------------------------------------------
  // Elements one after the other

  /** What elements of these names are given, and the claims after them. */
  function GivenInTurn(tokens: seq<Token>, claims: Claims, names: seq<string>): (r: (seq<Option<nat>>, Claims))
    requires |tokens| == |claims.used|
    ensures |r.0| == |names| && |r.1.used| == |tokens|
  {
    if names == [] then ([], claims)
    else
      var (front, between) := GivenInTurn(tokens, claims, names[..|names| - 1]);
      var claimed := ClaimElement(tokens, between, names[|names| - 1]);
      (front + [claimed.token], claimed.claims)
  }

  /** A start tag of this name, ignoring case. */
  predicate IsTagOf(token: Token, name: string) {
    token.kind.StartTag? && token.name.Some? && Lower(token.name.value) == Lower(name)
  }

  /** The first tag of this name that is not among those given before. */
  ghost predicate IsNextTag(tokens: seq<Token>, name: string, before: seq<Option<nat>>, found: Option<nat>) {
    && (found.Some? ==> found.value < |tokens| && IsTagOf(tokens[found.value], name) && found !in before)
    && forall k :: 0 <= k < (if found.Some? then found.value else |tokens|) && IsTagOf(tokens[k], name) ==>
         Some(k) in before
  }

  /** Of elements made one after the other, the first ones claim nothing while claims are suppressed. */
  ghost predicate InTurn(tokens: seq<Token>, suppressed: nat, names: seq<string>, found: seq<Option<nat>>) {
    && |found| == |names|
    && forall i :: 0 <= i < |names| ==>
         if i < suppressed then found[i] == None else IsNextTag(tokens, names[i], found[..i], found[i])
  }

  /** The claims that have given these tokens. */
  ghost predicate HaveGiven(claims: Claims, found: seq<Option<nat>>, suppressed: nat) {
    && claims.suppressed == (if |found| < suppressed then suppressed - |found| else 0)
    && forall k: nat :: k < |claims.used| ==> (claims.used[k] <==> Some(k) in found)
  }

  lemma {:induction false} NextInTurn(
    tokens: seq<Token>, suppressed: nat, front: seq<Option<nat>>, between: Claims, name: string)
    requires |between.used| == |tokens| && HaveGiven(between, front, suppressed)
    ensures var claimed := ClaimElement(tokens, between, name);
            && HaveGiven(claimed.claims, front + [claimed.token], suppressed)
            && if |front| < suppressed then claimed.token == None else IsNextTag(tokens, name, front, claimed.token)
  {
    var claimed := ClaimElement(tokens, between, name);
    if |front| >= suppressed {
      var found := FirstUnused(tokens, between.used, WantElement(name), 0);
      assert claimed.token == found;
    }
  }

  /**
   Elements made one after the other: the first ones claim nothing while claims are
   suppressed, and each later one is given the first start tag of its name, ignoring
   case, that no earlier one has, or nothing if there is none left.
   */
  lemma {:induction false} ElementsClaimInTurn(tokens: seq<Token>, suppressed: nat, names: seq<string>)
    ensures var (found, after) := GivenInTurn(tokens, Claims(NoneUsed(|tokens|), suppressed), names);
            InTurn(tokens, suppressed, names, found) && HaveGiven(after, found, suppressed)
  {
    if names != [] {
      var last := |names| - 1;
      ElementsClaimInTurn(tokens, suppressed, names[..last]);
      var (front, between) := GivenInTurn(tokens, Claims(NoneUsed(|tokens|), suppressed), names[..last]);
      var (found, after) := GivenInTurn(tokens, Claims(NoneUsed(|tokens|), suppressed), names);
      NextInTurn(tokens, suppressed, front, between, names[last]);
      assert found[..last] == front;
      forall i | 0 <= i < last ensures found[..i] == front[..i] && found[i] == front[i] && names[..last][i] == names[i] {
      }
    }
  }

  // ---------------------------------------------------------------------------
  // Claimed once

  /** What a node holds besides its links. */
  datatype Contents = Contents(data: NodeData, text: string, attributes: seq<Attribute>, sourceTokens: seq<nat>)

  /** The tokens a node may claim. */
  predicate Suits(token: Token, data: NodeData) {
    match data
    case Document => false
    case DoctypeData(_, _, _) => token.kind == Doctype
    case TextData => token.kind == PlainText
    case CommentData(_) => token.kind in {Comment, ProcessingInstruction, Declaration}
    case InstructionData(_, _) => token.kind == ProcessingInstruction
    case Element(name, _) => Wanted(WantElement(name), token)
  }

  /** Every claimed token is marked used, suits its node, and is claimed once, by one node. */
  ghost predicate ClaimedOnce(tokens: seq<Token>, contents: map<DomNode, Contents>, used: seq<bool>) {
    && |used| == |tokens|
    && (forall n, k :: n in contents && 0 <= k < |contents[n].sourceTokens| ==>
          && contents[n].sourceTokens[k] < |used| && used[contents[n].sourceTokens[k]]
          && Suits(tokens[contents[n].sourceTokens[k]], contents[n].data))
    && (forall n :: n in contents ==> Distinct(contents[n].sourceTokens))
    && (forall n, m :: n in contents && m in contents && n != m ==>
          Disjoint(contents[n].sourceTokens, contents[m].sourceTokens))
  }

  predicate Disjoint(a: seq<nat>, b: seq<nat>) {
    forall i, j :: 0 <= i < |a| && 0 <= j < |b| ==> a[i] != b[j]
  }

  /** The tokens of a claim, as a list. */
  function Taken(token: Option<nat>): seq<nat> {
    match token case None => [] case Some(t) => [t]
  }

  /** A node is given the token of a claim. */
  function Given(contents: map<DomNode, Contents>, node: DomNode, token: Option<nat>): map<DomNode, Contents>
    requires node in contents
  {
    contents[node := contents[node].(sourceTokens := contents[node].sourceTokens + Taken(token))]
  }

  /** A claim marks an unused token that is wanted, and nothing else. */
  ghost predicate Fresh(tokens: seq<Token>, data: NodeData, before: Claims, claimed: Claimed) {
    && |before.used| == |tokens|
    && match claimed.token
       case None => claimed.claims.used == before.used
       case Some(t) =>
         && t < |tokens| && !before.used[t] && claimed.claims.used == before.used[t := true]
         && Suits(tokens[t], data)
  }

  lemma {:induction false} GivenClaimedOnce(
    tokens: seq<Token>, contents: map<DomNode, Contents>, node: DomNode, before: Claims, claimed: Claimed)
    requires ClaimedOnce(tokens, contents, before.used) && node in contents
    requires Fresh(tokens, contents[node].data, before, claimed)
    ensures ClaimedOnce(tokens, Given(contents, node, claimed.token), claimed.claims.used)
  {
    match claimed.token
    case None =>
      assert contents[node].sourceTokens + [] == contents[node].sourceTokens;
      assert Given(contents, node, None) == contents;
    case Some(t) => TokenClaimedOnce(tokens, contents, node, before, t, claimed.claims);
  }

  lemma {:induction false} TokenClaimedOnce(
    tokens: seq<Token>, contents: map<DomNode, Contents>, node: DomNode, before: Claims, t: nat, after: Claims)
    requires ClaimedOnce(tokens, contents, before.used) && node in contents
    requires Fresh(tokens, contents[node].data, before, Claimed(Some(t), after))
    ensures ClaimedOnce(tokens, Given(contents, node, Some(t)), after.used)
  {
    var given, held := Given(contents, node, Some(t)), contents[node].sourceTokens;
    assert given[node].sourceTokens == held + [t];
    assert t !in held;
    forall n, m | n in given && m in given && n != m
      ensures Disjoint(given[n].sourceTokens, given[m].sourceTokens)
    {
      assert Disjoint(contents[n].sourceTokens, contents[m].sourceTokens);
    }
  }

  /** A node made with the token of a claim. */
  lemma {:induction false} MadeClaimedOnce(
    tokens: seq<Token>, contents: map<DomNode, Contents>, node: DomNode, made: Contents, before: Claims,
    claimed: Claimed)
    requires ClaimedOnce(tokens, contents, before.used) && node !in contents
    requires Fresh(tokens, made.data, before, claimed) && made.sourceTokens == Taken(claimed.token)
    ensures ClaimedOnce(tokens, contents[node := made], claimed.claims.used)
  {
    var empty := contents[node := made.(sourceTokens := [])];
    assert ClaimedOnce(tokens, empty, before.used);
    GivenClaimedOnce(tokens, empty, node, before, claimed);
    assert [] + Taken(claimed.token) == Taken(claimed.token);
    assert Given(empty, node, claimed.token) == contents[node := made];
  }
}
