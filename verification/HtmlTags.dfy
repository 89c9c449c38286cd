/** Which end tag closes which start tag. */
module HtmlTags {
  import opened Wrappers
  import opened Text
  import opened HtmlLexer

  predicate IsOpening(token: Token) {
    token.kind == StartTag && !token.selfClosing
  }

  predicate IsNamedEnd(token: Token) {
    token.kind == EndTag && token.name.Some?
  }

  predicate SameName(a: Token, b: Token) {
    a.name.Some? && b.name.Some? && EqualsIgnoreCase(a.name.value, b.name.value)
  }

  /** The last stack position whose token has the name of `token`. */
  function LastSameName(tokens: seq<Token>, stack: seq<nat>, token: Token): (p: Option<nat>)
    requires forall k :: 0 <= k < |stack| ==> stack[k] < |tokens|
    ensures p.Some? ==> p.value < |stack| && SameName(tokens[stack[p.value]], token)
    ensures p.Some? ==> forall k :: p.value < k < |stack| ==> !SameName(tokens[stack[k]], token)
    ensures p.None? ==> forall k :: 0 <= k < |stack| ==> !SameName(tokens[stack[k]], token)
  {
    if stack == [] then None
    else if SameName(tokens[stack[|stack| - 1]], token) then Some(|stack| - 1)
    else LastSameName(tokens, stack[..|stack| - 1], token)
  }

  /** Start tags still open, and for each closed one the end tag that closed it. */
  datatype Pairing = Pairing(stack: seq<nat>, closers: map<nat, nat>)

  function PairStep(tokens: seq<Token>, n: nat, p: Pairing): Pairing
    requires n < |tokens| && forall k :: 0 <= k < |p.stack| ==> p.stack[k] < |tokens|
  {
    if IsOpening(tokens[n]) then p.(stack := p.stack + [n])
    else if IsNamedEnd(tokens[n]) then
      match LastSameName(tokens, p.stack, tokens[n])
      case None => p
      case Some(k) =>
        Pairing(p.stack[..k] + p.stack[k + 1..], p.closers[p.stack[k] := n])
    else p
  }

  function PairPrefix(tokens: seq<Token>, n: nat): (p: Pairing)
    requires n <= |tokens|
    ensures forall k :: 0 <= k < |p.stack| ==> p.stack[k] < n
  {
    if n == 0 then Pairing([], map[]) else PairStep(tokens, n - 1, PairPrefix(tokens, n - 1))
  }

  /** The offset after the closing tag, for every closed start tag. */
  method SourceElementCloseEnds(tokens: seq<Token>) returns (ends: map<nat, nat>)
    ensures var closers := PairPrefix(tokens, |tokens|).closers;
            && ends.Keys == closers.Keys
            && forall i :: i in ends ==> closers[i] < |tokens| && ends[i] == tokens[closers[i]].end
  {
    var stack: seq<nat> := [];
    ends := map[];
    for n := 0 to |tokens|
      invariant stack == PairPrefix(tokens, n).stack
      invariant ends.Keys == PairPrefix(tokens, n).closers.Keys
      invariant forall i :: i in ends ==>
                  PairPrefix(tokens, n).closers[i] < n && ends[i] == tokens[PairPrefix(tokens, n).closers[i]].end
    {
      var token := tokens[n];
      if IsOpening(token) {
        stack := stack + [n];
      } else if token.kind == EndTag {
        if token.name.None? {
          continue;
        }
        var position := LastSameName(tokens, stack, token);
        if position.Some? {
          var index := stack[position.value];
          stack := stack[..position.value] + stack[position.value + 1..];
          ends := ends[index := token.end];
        }
      }
    }
  }

  /** The end tag of start tag `i` is later, and of the same name. */
  predicate ClosedBy(tokens: seq<Token>, i: nat, j: nat, n: nat)
    requires n <= |tokens|
  {
    && i < j < n
    && IsOpening(tokens[i]) && IsNamedEnd(tokens[j]) && SameName(tokens[i], tokens[j])
  }

  ghost predicate StackOk(tokens: seq<Token>, n: nat, stack: seq<nat>)
    requires n <= |tokens|
  {
    && (forall k :: 0 <= k < |stack| ==> stack[k] < n && IsOpening(tokens[stack[k]]))
    && (forall k, l :: 0 <= k < l < |stack| ==> stack[k] < stack[l])
  }

  ghost predicate ClosersOk(tokens: seq<Token>, n: nat, p: Pairing)
    requires n <= |tokens|
  {
    && (forall i {:trigger i in p.closers} :: i in p.closers ==> ClosedBy(tokens, i, p.closers[i], n) && i !in p.stack)
    && (forall i, j :: i in p.closers && j in p.closers && p.closers[i] == p.closers[j] ==> i == j)
  }

  ghost predicate NoneLost(tokens: seq<Token>, n: nat, p: Pairing)
    requires n <= |tokens|
  {
    forall i :: 0 <= i < n && IsOpening(tokens[i]) ==> i in p.stack || i in p.closers
  }

  /** Between a start tag and its end tag, every start tag of that name was closed earlier. */
  ghost predicate LatestFirst(tokens: seq<Token>, n: nat, p: Pairing)
    requires n <= |tokens| && ClosersOk(tokens, n, p)
  {
    forall i, j :: i in p.closers && i < j < p.closers[i] && IsOpening(tokens[j])
                   && SameName(tokens[j], tokens[p.closers[i]]) ==>
      j in p.closers && p.closers[j] < p.closers[i]
  }

  ghost predicate ClosesNothing(p: Pairing, j: nat) {
    forall i :: i in p.closers ==> p.closers[i] != j
  }

  /** An end tag that closes nothing had no start tag of its name left to close. */
  ghost predicate NoneIdle(tokens: seq<Token>, n: nat, p: Pairing)
    requires n <= |tokens|
  {
    forall j :: 0 <= j < n && IsNamedEnd(tokens[j]) && ClosesNothing(p, j) ==>
      forall i :: 0 <= i < j && IsOpening(tokens[i]) && SameName(tokens[i], tokens[j]) ==>
        i in p.closers && p.closers[i] < j
  }

  /** What holds of the pairing of any stream. */
  ghost predicate PairsOk(tokens: seq<Token>, n: nat, p: Pairing)
    requires n <= |tokens|
  {
    && StackOk(tokens, n, p.stack) && ClosersOk(tokens, n, p) && NoneLost(tokens, n, p)
    && LatestFirst(tokens, n, p) && NoneIdle(tokens, n, p)
  }

  /** A step that closes nothing: at most a start tag is put on the stack. */
  ghost predicate Skips(tokens: seq<Token>, n: nat, p: Pairing, next: Pairing)
    requires n < |tokens|
  {
    && next.closers == p.closers
    && next.stack == if IsOpening(tokens[n]) then p.stack + [n] else p.stack
  }

  lemma {:induction false} SkipKeepsStack(tokens: seq<Token>, n: nat, p: Pairing, next: Pairing)
    requires n < |tokens| && StackOk(tokens, n, p.stack) && ClosersOk(tokens, n, p) && Skips(tokens, n, p, next)
    ensures StackOk(tokens, n + 1, next.stack) && ClosersOk(tokens, n + 1, next)
  {
    forall i | i in next.closers ensures ClosedBy(tokens, i, next.closers[i], n + 1) && i !in next.stack {
      assert ClosedBy(tokens, i, p.closers[i], n) && i !in p.stack;
    }
  }

  lemma {:induction false} SkipLosesNone(tokens: seq<Token>, n: nat, p: Pairing, next: Pairing)
    requires n < |tokens| && NoneLost(tokens, n, p) && Skips(tokens, n, p, next)
    ensures NoneLost(tokens, n + 1, next)
  {
    assert forall x :: x in p.stack ==> x in next.stack;
  }

  lemma {:induction false} PairStepKeeps(tokens: seq<Token>, n: nat, p: Pairing)
    requires n < |tokens| && PairsOk(tokens, n, p)
    requires !(IsNamedEnd(tokens[n]) && LastSameName(tokens, p.stack, tokens[n]).Some?)
    ensures PairsOk(tokens, n + 1, PairStep(tokens, n, p))
  {
    var next := PairStep(tokens, n, p);
    assert Skips(tokens, n, p, next);
    SkipKeepsStack(tokens, n, p, next);
    SkipLosesNone(tokens, n, p, next);
    SkipKeepsLatest(tokens, n, p, next);
    KeepsNoneIdle(tokens, n, p, next);
  }

  lemma {:induction false} SkipKeepsLatest(tokens: seq<Token>, n: nat, p: Pairing, next: Pairing)
    requires n < |tokens| && ClosersOk(tokens, n, p) && LatestFirst(tokens, n, p) && Skips(tokens, n, p, next)
    requires ClosersOk(tokens, n + 1, next)
    ensures LatestFirst(tokens, n + 1, next)
  {
  }

  lemma {:induction false} KeepsNoneIdle(tokens: seq<Token>, n: nat, p: Pairing, next: Pairing)
    requires n < |tokens| && PairsOk(tokens, n, p)
    requires !(IsNamedEnd(tokens[n]) && LastSameName(tokens, p.stack, tokens[n]).Some?)
    requires next.closers == p.closers
    ensures NoneIdle(tokens, n + 1, next)
  {
    forall j | 0 <= j < n + 1 && IsNamedEnd(tokens[j]) && ClosesNothing(next, j)
      ensures forall i :: 0 <= i < j && IsOpening(tokens[i]) && SameName(tokens[i], tokens[j]) ==>
                i in next.closers && next.closers[i] < j
    {
      assert ClosesNothing(p, j);
    }
  }

  /** Closing start tag `i` with end tag `n`: `i` leaves the stack and gets its end tag. */
  ghost predicate Closes(tokens: seq<Token>, n: nat, p: Pairing, i: nat, next: Pairing)
    requires n < |tokens|
  {
    && i in p.stack && i < n && IsOpening(tokens[i]) && IsNamedEnd(tokens[n]) && SameName(tokens[i], tokens[n])
    && (forall x :: x in next.stack <==> x in p.stack && x != i)
    && next.closers == p.closers[i := n]
  }

  lemma {:induction false} ClosesKeepsClosers(tokens: seq<Token>, n: nat, p: Pairing, i: nat, next: Pairing)
    requires n < |tokens| && ClosersOk(tokens, n, p) && Closes(tokens, n, p, i, next)
    ensures ClosersOk(tokens, n + 1, next)
  {
    forall x | x in next.closers ensures ClosedBy(tokens, x, next.closers[x], n + 1) && x !in next.stack {
      if x != i {
        assert x in p.closers;
      }
    }
  }

  lemma {:induction false} ClosesLosesNone(tokens: seq<Token>, n: nat, p: Pairing, i: nat, next: Pairing)
    requires n < |tokens| && NoneLost(tokens, n, p) && Closes(tokens, n, p, i, next)
    ensures NoneLost(tokens, n + 1, next)
  {
    forall x | 0 <= x < n + 1 && IsOpening(tokens[x]) ensures x in next.stack || x in next.closers {
      assert x < n;
    }
  }

  lemma {:induction false} ClosesKeepsNoneIdle(tokens: seq<Token>, n: nat, p: Pairing, i: nat, next: Pairing)
    requires n < |tokens| && ClosersOk(tokens, n, p) && NoneIdle(tokens, n, p) && Closes(tokens, n, p, i, next)
    ensures NoneIdle(tokens, n + 1, next)
  {
    forall j | 0 <= j < n + 1 && IsNamedEnd(tokens[j]) && ClosesNothing(next, j)
      ensures forall x :: 0 <= x < j && IsOpening(tokens[x]) && SameName(tokens[x], tokens[j]) ==>
                x in next.closers && next.closers[x] < j
    {
      assert i in next.closers && next.closers[i] == n;
      forall x | x in p.closers ensures p.closers[x] != j {
        assert x in next.closers && x != i;
      }
      assert ClosesNothing(p, j);
    }
  }

  lemma {:induction false} ClosesKeepsLatest(tokens: seq<Token>, n: nat, p: Pairing, i: nat, next: Pairing)
    requires n < |tokens| && ClosersOk(tokens, n, p) && NoneLost(tokens, n, p) && LatestFirst(tokens, n, p)
    requires Closes(tokens, n, p, i, next) && ClosersOk(tokens, n + 1, next)
    requires forall j :: i < j < n && SameName(tokens[j], tokens[n]) ==> j !in p.stack
    ensures LatestFirst(tokens, n + 1, next)
  {
    forall x, j | x in next.closers && x < j < next.closers[x] && IsOpening(tokens[j])
                  && SameName(tokens[j], tokens[next.closers[x]])
      ensures j in next.closers && next.closers[j] < next.closers[x]
    {
      assert NoneLost(tokens, n, p);
      if x == i {
        assert j in p.closers;
      } else {
        assert x in p.closers && j in p.closers && p.closers[j] < p.closers[x];
      }
      assert i !in p.closers;
    }
  }

  lemma {:induction false} PairStepCloses(tokens: seq<Token>, n: nat, p: Pairing, k: nat)
    requires n < |tokens| && PairsOk(tokens, n, p)
    requires IsNamedEnd(tokens[n]) && LastSameName(tokens, p.stack, tokens[n]) == Some(k)
    ensures PairsOk(tokens, n + 1, PairStep(tokens, n, p))
  {
    RemovedStack(p.stack, k);
    var next := PairStep(tokens, n, p);
    assert next.stack == p.stack[..k] + p.stack[k + 1..];
    var i := p.stack[k];
    assert Closes(tokens, n, p, i, next);
    StackFromMembers(tokens, n, p.stack, next.stack);
    ClosesKeepsClosers(tokens, n, p, i, next);
    ClosesLosesNone(tokens, n, p, i, next);
    ClosesKeepsNoneIdle(tokens, n, p, i, next);
    forall j | i < j < n && SameName(tokens[j], tokens[n]) ensures j !in p.stack {
      NotInStackAbove(tokens, n, p.stack, k, j);
    }
    ClosesKeepsLatest(tokens, n, p, i, next);
  }

  lemma {:induction false} StackFromMembers(tokens: seq<Token>, n: nat, stack: seq<nat>, rest: seq<nat>)
    requires n < |tokens| && StackOk(tokens, n, stack)
    requires forall x :: x in rest ==> x in stack
    requires forall k, l :: 0 <= k < l < |rest| ==> rest[k] < rest[l]
    ensures StackOk(tokens, n + 1, rest)
  {
    forall k | 0 <= k < |rest| ensures rest[k] < n + 1 && IsOpening(tokens[rest[k]]) {
      assert rest[k] in stack;
    }
  }

  lemma {:induction false} NotInStackAbove(tokens: seq<Token>, n: nat, stack: seq<nat>, k: nat, j: nat)
    requires n < |tokens| && StackOk(tokens, n, stack)
    requires LastSameName(tokens, stack, tokens[n]) == Some(k)
    requires stack[k] < j < n && SameName(tokens[j], tokens[n])
    ensures j !in stack
  {
    forall l | 0 <= l < |stack| ensures stack[l] != j {
      if l < k {
        assert stack[l] < stack[k];
      }
    }
  }

  lemma {:induction false} PairStepOk(tokens: seq<Token>, n: nat, p: Pairing)
    requires n < |tokens| && PairsOk(tokens, n, p)
    ensures PairsOk(tokens, n + 1, PairStep(tokens, n, p))
  {
    var found := LastSameName(tokens, p.stack, tokens[n]);
    if IsNamedEnd(tokens[n]) && found.Some? {
      PairStepCloses(tokens, n, p, found.value);
    } else {
      PairStepKeeps(tokens, n, p);
    }
  }

  lemma {:induction false} RemovedStack(stack: seq<nat>, k: nat)
    requires k < |stack|
    requires forall i, j :: 0 <= i < j < |stack| ==> stack[i] < stack[j]
    ensures var rest := stack[..k] + stack[k + 1..];
            && (forall i, j :: 0 <= i < j < |rest| ==> rest[i] < rest[j])
            && (forall x :: x in rest <==> x in stack && x != stack[k])
  {
    var rest := stack[..k] + stack[k + 1..];
    assert forall i :: 0 <= i < |rest| ==> rest[i] == if i < k then stack[i] else stack[i + 1];
    forall x | x in stack && x != stack[k] ensures x in rest {
      var i :| 0 <= i < |stack| && stack[i] == x;
      assert rest[if i < k then i else i - 1] == x;
    }
  }

  lemma {:induction false} PairPrefixOk(tokens: seq<Token>, n: nat)
    requires n <= |tokens|
    ensures PairsOk(tokens, n, PairPrefix(tokens, n))
  {
    if n > 0 {
      var m := n - 1;
      var p := PairPrefix(tokens, m);
      PairPrefixOk(tokens, m);
      PairStepOk(tokens, m, p);
      assert PairPrefix(tokens, n) == PairStep(tokens, m, p);
    }
  }

  /**
   On any stream, an end tag closes at most one start tag: an earlier one of its
   own name, ignoring case, and the latest such tag not closed before.
   */
  lemma {:induction false} EndTagsCloseOnce(tokens: seq<Token>)
    ensures PairsOk(tokens, |tokens|, PairPrefix(tokens, |tokens|))
  {
    PairPrefixOk(tokens, |tokens|);
  }
}
