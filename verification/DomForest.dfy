/**
 The nodes of the HTML tree under construction, and what each step of the tree
 builder does to the parent pointers and child lists.
 */
module DomForest {
  import opened Wrappers
  import opened Lists

  datatype Attribute = Attribute(name: string, value: string)

  datatype NodeData =
    | Document
    | DoctypeData(name: string, publicId: string, systemId: string)
    | TextData
    | CommentData(contents: string)
    | InstructionData(target: string, instruction: string)
    | Element(localName: string, templateContents: Option<DomNode>)

  class DomNode {
    const data: NodeData
    var parent: Option<DomNode>
    var children: seq<DomNode>
    var text: string
    var attributes: seq<Attribute>
    var sourceTokens: seq<nat>

    constructor (data: NodeData, text: string, attributes: seq<Attribute>, sourceTokens: seq<nat>)
      ensures this.data == data && parent == None && children == []
      ensures this.text == text && this.attributes == attributes && this.sourceTokens == sourceTokens
    {
      this.data, this.text, this.attributes, this.sourceTokens := data, text, attributes, sourceTokens;
      parent, children := None, [];
    }
  }

  // ---------------------------------------------------------------------------
  // Lists without repetition

  /** The list with every occurrence of `x` removed. */
  function Without(s: seq<DomNode>, x: DomNode): seq<DomNode> {
    if s == [] then []
    else if s[0] == x then Without(s[1..], x)
    else [s[0]] + Without(s[1..], x)
  }

  lemma {:induction false} WithoutMember(s: seq<DomNode>, x: DomNode, y: DomNode)
    ensures y in Without(s, x) <==> y in s && y != x
  {
    if s != [] {
      WithoutMember(s[1..], x, y);
      assert s == [s[0]] + s[1..];
    }
  }

  lemma {:induction false} WithoutDistinct(s: seq<DomNode>, x: DomNode)
    requires Distinct(s)
    ensures Distinct(Without(s, x))
  {
    if s != [] {
      var rest := s[1..];
      assert forall i :: 0 <= i < |rest| ==> rest[i] == s[i + 1];
      WithoutDistinct(rest, x);
      WithoutMember(rest, x, s[0]);
      assert s[0] !in rest;
      assert Distinct(Without(rest, x)) && s[0] !in Without(rest, x);
    }
  }

  lemma {:induction false} WithoutAbsent(s: seq<DomNode>, x: DomNode)
    requires x !in s
    ensures Without(s, x) == s
  {
    if s != [] {
      assert s == [s[0]] + s[1..];
      WithoutAbsent(s[1..], x);
    }
  }

  /** Removing one element of a list without repetition closes the gap and keeps the order. */
  lemma {:induction false} WithoutClosesGap(s: seq<DomNode>, i: nat)
    requires Distinct(s) && i < |s|
    ensures Without(s, s[i]) == s[..i] + s[i + 1..]
  {
    if i == 0 {
      WithoutAbsent(s[1..], s[0]);
    } else {
      WithoutClosesGap(s[1..], i - 1);
      assert s[..i] + s[i + 1..] == [s[0]] + (s[1..][..i - 1] + s[1..][i..]);
    }
  }

  /** The first position of `x`, or the end of the list. */
  function PositionOf(s: seq<DomNode>, x: DomNode): (i: nat)
    ensures i <= |s| && (i < |s| ==> s[i] == x) && (i < |s| <==> x in s)
    ensures forall j :: 0 <= j < i ==> s[j] != x
  {
    if s == [] || s[0] == x then 0 else 1 + PositionOf(s[1..], x)
  }

  lemma {:induction false} InsertDistinct<T>(s: seq<T>, i: nat, x: T)
    requires Distinct(s) && x !in s && i <= |s|
    ensures Distinct(s[..i] + [x] + s[i..])
    ensures forall y :: y in s[..i] + [x] + s[i..] <==> y in s || y == x
  {
    var r := s[..i] + [x] + s[i..];
    assert forall k :: 0 <= k < |r| ==> r[k] == if k < i then s[k] else if k == i then x else s[k - 1];
    assert s == s[..i] + s[i..];
  }

  // ---------------------------------------------------------------------------
  // Links

  /** The parent pointer and the child list of every node. */
  datatype Forest = Forest(parents: map<DomNode, Option<DomNode>>, children: map<DomNode, seq<DomNode>>)

  ghost predicate ParentListsIt(f: Forest) {
    forall n :: n in f.parents && f.parents[n].Some? ==>
      f.parents[n].value in f.children && n in f.children[f.parents[n].value]
  }

  ghost predicate ChildNamesIt(f: Forest) {
    forall n, c :: n in f.children && c in f.children[n] ==> c in f.parents && f.parents[c] == Some(n)
  }

  ghost predicate NoRepeats(f: Forest) {
    forall n :: n in f.children ==> Distinct(f.children[n])
  }

  /** A node is listed at most once, by at most one parent, exactly when its parent pointer names that parent. */
  ghost predicate WellLinked(f: Forest) {
    f.parents.Keys == f.children.Keys && ParentListsIt(f) && ChildNamesIt(f) && NoRepeats(f)
  }

  lemma {:induction false} ChildParent(f: Forest, n: DomNode, c: DomNode)
    requires ChildNamesIt(f) && n in f.children && c in f.children[n]
    ensures c in f.parents && f.parents[c] == Some(n)
  {
  }

  // ---------------------------------------------------------------------------
  // The steps

  /** The node leaves its parent's list and forgets its parent. */
  ghost function Detached(f: Forest, node: DomNode): Forest
    requires node in f.parents && ParentListsIt(f)
  {
    match f.parents[node]
    case None => f
    case Some(p) => Forest(f.parents[node := None], f.children[p := Without(f.children[p], node)])
  }

  lemma {:induction false} DetachedEffect(f: Forest, node: DomNode)
    requires WellLinked(f) && node in f.parents
    ensures var g := Detached(f, node);
            && g.parents == f.parents[node := None] && g.children.Keys == f.children.Keys
            && (forall n :: n in f.children ==> g.children[n] == Without(f.children[n], node))
  {
    forall n | n in f.children && f.parents[node] != Some(n) ensures Without(f.children[n], node) == f.children[n] {
      assert node !in f.children[n];
      WithoutAbsent(f.children[n], node);
    }
  }

  lemma {:induction false} DetachedChild(f: Forest, node: DomNode, n: DomNode, c: DomNode)
    requires WellLinked(f) && node in f.parents && n in f.children
    ensures var g := Detached(f, node);
            n in g.children && (c in g.children[n] <==> c in f.children[n] && c != node)
  {
    DetachedEffect(f, node);
    WithoutMember(f.children[n], node, c);
  }

  lemma {:induction false} DetachedLinked(f: Forest, node: DomNode)
    requires WellLinked(f) && node in f.parents
    ensures WellLinked(Detached(f, node))
    ensures forall n :: n in f.children ==> node !in Detached(f, node).children[n]
  {
    DetachedEffect(f, node);
    var g := Detached(f, node);
    forall n | n in f.children ensures Distinct(g.children[n]) && node !in g.children[n] {
      WithoutDistinct(f.children[n], node);
      DetachedChild(f, node, n, node);
    }
    assert ChildNamesIt(g) by {
      forall n, c | n in g.children && c in g.children[n] ensures c in g.parents && g.parents[c] == Some(n) {
        DetachedChild(f, node, n, c);
        ChildParent(f, n, c);
      }
    }
    assert ParentListsIt(g) by {
      forall n | n in g.parents && g.parents[n].Some?
        ensures g.parents[n].value in g.children && n in g.children[g.parents[n].value]
      {
        DetachedChild(f, node, f.parents[n].value, n);
      }
    }
  }

  /** Lists a parentless node in some place of a parent's list. */
  ghost predicate PutInList(g: Forest, h: Forest, parent: DomNode, child: DomNode, i: nat) {
    && parent in g.children && i <= |g.children[parent]|
    && h.parents == g.parents[child := Some(parent)]
    && h.children == g.children[parent := g.children[parent][..i] + [child] + g.children[parent][i..]]
  }

  lemma {:induction false} ListsLinked(g: Forest, h: Forest, parent: DomNode, child: DomNode, i: nat)
    requires WellLinked(g) && child in g.parents && PutInList(g, h, parent, child, i)
    requires forall n :: n in g.children ==> child !in g.children[n]
    ensures WellLinked(h)
  {
    var list := g.children[parent];
    InsertDistinct(list, i, child);
    assert forall c :: c in h.children[parent] <==> c in list || c == child;
  }

  /** The node leaves its parent and becomes the last child of another. */
  ghost function ChildAppended(f: Forest, parent: DomNode, child: DomNode): Forest
    requires parent in f.children && child in f.parents && ParentListsIt(f)
  {
    var g := Detached(f, child);
    Forest(g.parents[child := Some(parent)], g.children[parent := g.children[parent] + [child]])
  }

  lemma {:induction false} AppendedEffect(f: Forest, parent: DomNode, child: DomNode)
    requires WellLinked(f) && parent in f.parents && child in f.parents
    ensures var g := ChildAppended(f, parent, child);
            && g.parents == f.parents[child := Some(parent)] && g.children.Keys == f.children.Keys
            && (forall n :: n in f.children ==>
                  g.children[n] == Without(f.children[n], child) + if n == parent then [child] else [])
            && WellLinked(g)
  {
    DetachedEffect(f, child);
    DetachedLinked(f, child);
    var g, h := Detached(f, child), ChildAppended(f, parent, child);
    var list := g.children[parent];
    assert list[..|list|] == list && list[|list|..] == [] && list + [child] + [] == list + [child];
    ListsLinked(g, h, parent, child, |list|);
  }

  /** The node leaves its parent and is put before a sibling, or last if the sibling was the node itself. */
  ghost function ChildInserted(f: Forest, sibling: DomNode, child: DomNode): Forest
    requires sibling in f.parents && child in f.parents && ParentListsIt(f)
  {
    match f.parents[sibling]
    case None => f
    case Some(parent) =>
      var g := Detached(f, child);
      var list := g.children[parent];
      var i := PositionOf(list, sibling);
      Forest(g.parents[child := Some(parent)], g.children[parent := list[..i] + [child] + list[i..]])
  }

  lemma {:induction false} InsertedEffect(f: Forest, sibling: DomNode, child: DomNode, parent: DomNode)
    requires WellLinked(f) && sibling in f.parents && child in f.parents && f.parents[sibling] == Some(parent)
    ensures var g := ChildInserted(f, sibling, child);
            var rest := Without(f.children[parent], child);
            var i := PositionOf(rest, sibling);
            && g.parents == f.parents[child := Some(parent)] && g.children.Keys == f.children.Keys
            && (forall n :: n in f.children && n != parent ==> g.children[n] == Without(f.children[n], child))
            && g.children[parent] == rest[..i] + [child] + rest[i..]
            && (i < |rest| <==> child != sibling)
            && WellLinked(g)
  {
    DetachedEffect(f, child);
    DetachedLinked(f, child);
    WithoutMember(f.children[parent], child, sibling);
    var g := Detached(f, child);
    ListsLinked(g, ChildInserted(f, sibling, child), parent, child, PositionOf(g.children[parent], sibling));
  }

  /** The children, in order, become the last children of a new parent. */
  function Adopted(f: Forest, newParent: DomNode, children: seq<DomNode>): (g: Forest)
    requires newParent in f.children
    ensures g.children.Keys == f.children.Keys
  {
    if children == [] then f
    else
      var g := Adopted(f, newParent, children[..|children| - 1]);
      var child := children[|children| - 1];
      Forest(g.parents[child := Some(newParent)], g.children[newParent := g.children[newParent] + [child]])
  }

  /** All children of one node move, in order, to the end of another's list. */
  function Reparented(f: Forest, node: DomNode, newParent: DomNode): Forest
    requires node in f.children && newParent in f.children
  {
    Adopted(f.(children := f.children[node := []]), newParent, f.children[node])
  }

  lemma {:induction false} AdoptedEffect(f: Forest, newParent: DomNode, children: seq<DomNode>)
    requires newParent in f.children && forall c :: c in children ==> c in f.parents
    ensures var g := Adopted(f, newParent, children);
            && g.parents.Keys == f.parents.Keys
            && (forall n :: n in f.parents ==>
                  g.parents[n] == if n in children then Some(newParent) else f.parents[n])
            && g.children == f.children[newParent := f.children[newParent] + children]
  {
    if children != [] {
      var front, last := children[..|children| - 1], children[|children| - 1];
      AdoptedEffect(f, newParent, front);
      assert children == front + [last];
      assert forall n :: n in children <==> n in front || n == last;
      assert f.children[newParent] + front + [last] == f.children[newParent] + children;
    } else {
      assert f.children[newParent] + [] == f.children[newParent];
    }
  }

  lemma {:induction false} ListedIffNamed(f: Forest, node: DomNode, n: DomNode)
    requires WellLinked(f) && node in f.parents && n in f.parents
    ensures n in f.children[node] <==> f.parents[n] == Some(node)
  {
  }

  lemma {:induction false} ReparentedEffect(f: Forest, node: DomNode, newParent: DomNode)
    requires WellLinked(f) && node in f.parents && newParent in f.parents
    ensures var g := Reparented(f, node, newParent);
            && g.parents.Keys == f.parents.Keys
            && (forall n :: n in f.parents ==>
                  g.parents[n] == if f.parents[n] == Some(node) then Some(newParent) else f.parents[n])
            && g.children == (if node == newParent then f.children
                              else f.children[node := []][newParent := f.children[newParent] + f.children[node]])
  {
    var list := f.children[node];
    AdoptedEffect(f.(children := f.children[node := []]), newParent, list);
    forall n | n in f.parents ensures n in list <==> f.parents[n] == Some(node) {
      ListedIffNamed(f, node, n);
    }
    assert [] + list == list;
  }

  lemma {:induction false} JoinedDistinct<T>(a: seq<T>, b: seq<T>)
    requires Distinct(a) && Distinct(b) && forall c :: c in b ==> c !in a
    ensures Distinct(a + b)
  {
    forall i, j | 0 <= i < j < |a + b| ensures (a + b)[i] != (a + b)[j] {
      assert i < |a| <= j ==> b[j - |a|] in b;
    }
  }

  lemma {:induction false} ReparentedLinked(f: Forest, node: DomNode, newParent: DomNode)
    requires WellLinked(f) && node in f.parents && newParent in f.parents
    ensures WellLinked(Reparented(f, node, newParent))
  {
    ReparentedEffect(f, node, newParent);
    if node == newParent {
      assert Reparented(f, node, newParent) == f;
    } else {
      MovedLinked(f, node, newParent, Reparented(f, node, newParent));
    }
  }

  lemma {:induction false} MovedLinked(f: Forest, node: DomNode, newParent: DomNode, g: Forest)
    requires WellLinked(f) && node in f.parents && newParent in f.parents && node != newParent
    requires g.parents.Keys == f.parents.Keys
    requires forall n :: n in f.parents ==>
               g.parents[n] == if f.parents[n] == Some(node) then Some(newParent) else f.parents[n]
    requires g.children == f.children[node := []][newParent := f.children[newParent] + f.children[node]]
    ensures WellLinked(g)
  {
    var own, moved := f.children[newParent], f.children[node];
    forall c | c in moved ensures c !in own {
      assert f.parents[c] == Some(node);
    }
    JoinedDistinct(own, moved);
    assert g.children[newParent] == own + moved;
    forall n | n in g.parents && g.parents[n].Some?
      ensures g.parents[n].value in g.children && n in g.children[g.parents[n].value]
    {
      assert f.parents[n] == Some(node) ==> n in moved;
    }
    forall n, c | n in g.children && c in g.children[n] ensures c in g.parents && g.parents[c] == Some(n) {
      if n != newParent {
        ChildParent(f, n, c);
      } else if c in own {
        ChildParent(f, newParent, c);
      } else {
        ChildParent(f, node, c);
      }
    }
  }

  /** A released node is gone, and whatever it listed loses its parent. */
  ghost function Released(f: Forest, node: DomNode): Forest {
    Forest(map n | n in f.parents && n != node :: if f.parents[n] == Some(node) then None else f.parents[n],
           f.children - {node})
  }

  lemma {:induction false} ReleasedLinked(f: Forest, node: DomNode)
    requires WellLinked(f) && node in f.parents && f.parents[node] == None
    ensures WellLinked(Released(f, node))
  {
    var g := Released(f, node);
    forall n, c | n in g.children && c in g.children[n] ensures c in g.parents && g.parents[c] == Some(n) {
      assert c in f.parents && f.parents[c] == Some(n);
    }
  }

  /** A created node has no links. */
  function Created(f: Forest, node: DomNode): Forest {
    Forest(f.parents[node := None], f.children[node := []])
  }

  lemma {:induction false} CreatedLinked(f: Forest, node: DomNode)
    requires WellLinked(f) && node !in f.parents
    ensures WellLinked(Created(f, node))
  {
    var g := Created(f, node);
    forall n | n in g.parents && g.parents[n].Some?
      ensures g.parents[n].value in g.children && n in g.children[g.parents[n].value]
    {
      assert n in f.parents && f.parents[n].value in f.children;
    }
  }
}
