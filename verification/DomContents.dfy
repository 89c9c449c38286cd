/** What the calls of the tree builder do to the texts and the attributes of nodes. */
module DomContents {
  import opened Wrappers
  import opened Lists
  import opened HtmlLexer
  import opened DomForest
  import opened DomClaims
  import opened DomCalls

  // ---------------------------------------------------------------------------
  // Attributes

  ghost predicate HasName(attributes: seq<Attribute>, name: string) {
    exists i :: 0 <= i < |attributes| && attributes[i].name == name
  }

  ghost function Absent(existing: seq<Attribute>): Attribute -> bool {
    (attribute: Attribute) => !HasName(existing, attribute.name)
  }

  lemma {:induction false} MissingAreAbsent(existing: seq<Attribute>, given: seq<Attribute>) returns (places: seq<nat>)
    ensures Picks(given, Absent(existing), MissingAttributes(existing, given), places)
  {
    places := [];
    if given != [] {
      var later := MissingAreAbsent(existing, given[1..]);
      PicksNext(given, Absent(existing), MissingAttributes(existing, given[1..]), later);
      places := if HasName(existing, given[0].name) then Moved(later) else [0] + Moved(later);
    }
  }

  /**
   A call to add attributes keeps those the element has, and puts after them exactly
   the given ones whose names it did not have, in the order they are given.
   */
  lemma {:induction false} AbsentAttributesAdded(
    tokens: seq<Token>, document: DomNode, t: Tree, element: DomNode, given: seq<Attribute>)
    requires Sound(tokens, t) && Callable(t, document, AddAttributes(element, given))
    ensures var r := Perform(tokens, document, t, AddAttributes(element, given));
            var existing := t.contents[element].attributes;
            && r.forest == t.forest && r.contents.Keys == t.contents.Keys
            && (forall n :: n in t.contents && n != element ==> r.contents[n] == t.contents[n])
            && r.contents[element].text == t.contents[element].text && r.contents[element].data == t.contents[element].data
            && (t.contents[element].sourceTokens != [] ==>
                  r.contents[element].sourceTokens == t.contents[element].sourceTokens && r.claims == t.claims)
            && (t.contents[element].sourceTokens == [] ==>
                  var claimed := ClaimElement(tokens, t.claims, t.contents[element].data.localName);
                  r.contents[element].sourceTokens == Taken(claimed.token) && r.claims == claimed.claims)
            && exists added, places ::
                 Picks(given, Absent(existing), added, places) && r.contents[element].attributes == existing + added
  {
    var existing := t.contents[element].attributes;
    var places := MissingAreAbsent(existing, given);
  }

  // ---------------------------------------------------------------------------
  // Texts

  /** Nothing but the text and the tokens of one node changes. */
  ghost predicate OnlyText(t: Tree, r: Tree, node: DomNode, text: string) {
    && node in r.contents && r.contents[node].data.TextData? && r.contents[node].text == text
    && forall n :: n in t.contents && n != node ==> n in r.contents && r.contents[n] == t.contents[n]
  }

  predicate EndsInText(t: Tree, parent: DomNode) {
    && parent in t.forest.children && t.forest.children[parent] != []
    && IsText(t, LastChild(t.forest.children[parent]))
  }

  function LastChild(children: seq<DomNode>): DomNode
    requires children != []
  {
    children[|children| - 1]
  }

  /** A text goes to the end of a last child that is text, and becomes a new last child otherwise. */
  ghost predicate TextGoesLast(t: Tree, r: Tree, parent: DomNode, text: string, node: DomNode)
    requires parent in t.forest.children
  {
    if EndsInText(t, parent) then
      var last := LastChild(t.forest.children[parent]);
      r.forest == t.forest && OnlyText(t, r, last, t.contents[last].text + text)
    else
      && node !in t.contents && parent in r.forest.children
      && r.forest.children[parent] == t.forest.children[parent] + [node] && OnlyText(t, r, node, text)
  }

  lemma {:induction false} WithoutAbsent(s: seq<DomNode>, x: DomNode)
    requires x !in s
    ensures Without(s, x) == s
  {
    if s != [] {
      WithoutAbsent(s[1..], x);
    }
  }

  lemma {:induction false} MergedGrows(tokens: seq<Token>, t: Tree, node: DomNode, text: string)
    requires Sound(tokens, t) && IsText(t, node)
    ensures var r := Merged(tokens, t, node, text);
            r.forest == t.forest && OnlyText(t, r, node, t.contents[node].text + text)
  {
  }

  lemma {:induction false} NewTextIsLast(tokens: seq<Token>, t: Tree, parent: DomNode, text: string, node: DomNode)
    requires Sound(tokens, t) && parent in t.contents && node !in t.contents
    ensures var r := NewTextLast(tokens, t, parent, text, node);
            && parent in r.forest.children && r.forest.children[parent] == t.forest.children[parent] + [node]
            && OnlyText(t, r, node, text)
  {
    CreatedLinked(t.forest, node);
    AppendedEffect(Created(t.forest, node), parent, node);
    WithoutAbsent(t.forest.children[parent], node);
  }

  lemma {:induction false} AppendedTextGoesLast(
    tokens: seq<Token>, document: DomNode, t: Tree, parent: DomNode, text: string, node: DomNode)
    requires Sound(tokens, t) && Callable(t, document, AppendText(parent, text, node))
    ensures TextGoesLast(t, Perform(tokens, document, t, AppendText(parent, text, node)), parent, text, node)
  {
    if EndsInText(t, parent) {
      MergedGrows(tokens, t, LastChild(t.forest.children[parent]), text);
    } else {
      NewTextIsLast(tokens, t, parent, text, node);
    }
  }

  function TextOf(t: Tree, node: DomNode): string {
    if node in t.contents then t.contents[node].text else []
  }

  /** The last child holds the text it had, if it was there, and then both texts. */
  ghost predicate MergedLast(t: Tree, once: Tree, twice: Tree, parent: DomNode, first: string, second: string) {
    && EndsInText(once, parent) && twice.forest == once.forest
    && var last := LastChild(once.forest.children[parent]);
       OnlyText(t, twice, last, TextOf(t, last) + first + second)
  }

  lemma {:induction false} TextsMergeLast(
    t: Tree, once: Tree, twice: Tree, parent: DomNode, first: string, second: string, node: DomNode, other: DomNode)
    requires parent in t.forest.children && TextGoesLast(t, once, parent, first, node) && EndsInText(once, parent)
    requires TextGoesLast(once, twice, parent, second, other)
    ensures MergedLast(t, once, twice, parent, first, second)
  {
    assert [] + first == first;
  }

  /** Texts appended one after the other stand in one node, in order, after the text it had. */
  lemma {:induction false} AppendedTextsMerge(
    tokens: seq<Token>, document: DomNode, t: Tree, parent: DomNode, first: string, second: string, node: DomNode,
    other: DomNode)
    requires Sound(tokens, t) && Callable(t, document, AppendText(parent, first, node))
    ensures var once := Perform(tokens, document, t, AppendText(parent, first, node));
            && Sound(tokens, once) && Callable(once, document, AppendText(parent, second, other))
            && MergedLast(t, once, Perform(tokens, document, once, AppendText(parent, second, other)), parent,
                          first, second)
  {
    var once := Perform(tokens, document, t, AppendText(parent, first, node));
    CallsKeepSound(tokens, document, t, AppendText(parent, first, node));
    AppendedTextGoesLast(tokens, document, t, parent, first, node);
    assert EndsInText(once, parent);
    AppendedTextGoesLast(tokens, document, once, parent, second, other);
    var twice := Perform(tokens, document, once, AppendText(parent, second, other));
    TextsMergeLast(t, once, twice, parent, first, second, node, other);
  }

  // ---------------------------------------------------------------------------
  // Texts before a sibling

  /** The place of a child in the list of a parent. */
  predicate StandsIn(f: Forest, parent: DomNode, child: DomNode, i: nat) {
    parent in f.children && i < |f.children[parent]| && f.children[parent][i] == child
  }

  predicate FollowsText(t: Tree, parent: DomNode, i: nat) {
    parent in t.forest.children && 0 < i < |t.forest.children[parent]| && IsText(t, t.forest.children[parent][i - 1])
  }

  /** A text goes to the end of a text just before the sibling, and becomes a new child just before it otherwise. */
  ghost predicate TextGoesBefore(t: Tree, r: Tree, parent: DomNode, i: nat, text: string, node: DomNode)
    requires parent in t.forest.children && i < |t.forest.children[parent]|
  {
    var children := t.forest.children[parent];
    if FollowsText(t, parent, i) then
      r.forest == t.forest && OnlyText(t, r, children[i - 1], t.contents[children[i - 1]].text + text)
    else
      && node !in t.contents && parent in r.forest.children
      && r.forest.children[parent] == children[..i] + [node] + children[i..] && OnlyText(t, r, node, text)
  }

  lemma {:induction false} PositionIs(s: seq<DomNode>, x: DomNode, i: nat)
    requires Distinct(s) && i < |s| && s[i] == x
    ensures PositionOf(s, x) == i
  {
    if s[0] != x {
      PositionIs(s[1..], x, i - 1);
    }
  }

  lemma {:induction false} NewTextIsBefore(
    tokens: seq<Token>, t: Tree, sibling: DomNode, text: string, node: DomNode, parent: DomNode, i: nat)
    requires Sound(tokens, t) && node !in t.contents && StandsIn(t.forest, parent, sibling, i)
    requires sibling in t.forest.parents && t.forest.parents[sibling] == Some(parent)
    ensures var r, children := NewTextBefore(tokens, t, sibling, text, node), t.forest.children[parent];
            && parent in r.forest.children && r.forest.children[parent] == children[..i] + [node] + children[i..]
            && OnlyText(t, r, node, text)
  {
    CreatedLinked(t.forest, node);
    InsertedEffect(Created(t.forest, node), sibling, node, parent);
    PositionIs(t.forest.children[parent], sibling, i);
    WithoutAbsent(t.forest.children[parent], node);
  }

  lemma {:induction false} InsertedTextGoesBefore(
    tokens: seq<Token>, document: DomNode, t: Tree, sibling: DomNode, text: string, node: DomNode, parent: DomNode,
    i: nat)
    requires Sound(tokens, t) && Callable(t, document, InsertText(sibling, text, node))
    requires StandsIn(t.forest, parent, sibling, i)
    ensures TextGoesBefore(t, Perform(tokens, document, t, InsertText(sibling, text, node)), parent, i, text, node)
  {
    var children := t.forest.children[parent];
    assert t.forest.parents[sibling] == Some(parent);
    PositionIs(children, sibling, i);
    if FollowsText(t, parent, i) {
      MergedGrows(tokens, t, children[i - 1], text);
    } else {
      NewTextIsBefore(tokens, t, sibling, text, node, parent, i);
    }
  }

  /** The text just before the sibling holds the text it had, if it was there, and then both texts. */
  ghost predicate MergedBefore(
    t: Tree, once: Tree, twice: Tree, parent: DomNode, sibling: DomNode, i: nat, first: string, second: string)
  {
    && StandsIn(once.forest, parent, sibling, i) && FollowsText(once, parent, i) && twice.forest == once.forest
    && var last := once.forest.children[parent][i - 1];
       OnlyText(t, twice, last, TextOf(t, last) + first + second)
  }

  lemma {:induction false} TextsMergeBefore(
    t: Tree, once: Tree, twice: Tree, parent: DomNode, sibling: DomNode, i: nat, first: string, second: string,
    node: DomNode, other: DomNode)
    requires StandsIn(t.forest, parent, sibling, i) && TextGoesBefore(t, once, parent, i, first, node)
    requires var at := if FollowsText(t, parent, i) then i else i + 1;
             && StandsIn(once.forest, parent, sibling, at) && FollowsText(once, parent, at)
             && TextGoesBefore(once, twice, parent, at, second, other)
    ensures var at := if FollowsText(t, parent, i) then i else i + 1;
            MergedBefore(t, once, twice, parent, sibling, at, first, second)
  {
    assert [] + first == first;
  }

  /** Texts put before the same sibling one after the other stand in one node, in order, after the text it had. */
  lemma {:induction false} InsertedTextsMerge(
    tokens: seq<Token>, document: DomNode, t: Tree, sibling: DomNode, first: string, second: string, node: DomNode,
    other: DomNode, parent: DomNode, i: nat)
    requires Sound(tokens, t) && Callable(t, document, InsertText(sibling, first, node))
    requires StandsIn(t.forest, parent, sibling, i)
    ensures var once := Perform(tokens, document, t, InsertText(sibling, first, node));
            && Sound(tokens, once) && Callable(once, document, InsertText(sibling, second, other))
            && var at := if FollowsText(t, parent, i) then i else i + 1;
               MergedBefore(t, once, Perform(tokens, document, once, InsertText(sibling, second, other)), parent,
                            sibling, at, first, second)
  {
    var once := Perform(tokens, document, t, InsertText(sibling, first, node));
    CallsKeepSound(tokens, document, t, InsertText(sibling, first, node));
    InsertedTextGoesBefore(tokens, document, t, sibling, first, node, parent, i);
    var at := if FollowsText(t, parent, i) then i else i + 1;
    assert StandsIn(once.forest, parent, sibling, at) && FollowsText(once, parent, at);
    TextBeforeIs(once, parent, sibling, at);
    InsertedTextGoesBefore(tokens, document, once, sibling, second, other, parent, at);
    var twice := Perform(tokens, document, once, InsertText(sibling, second, other));
    TextsMergeBefore(t, once, twice, parent, sibling, i, first, second, node, other);
  }

  lemma {:induction false} TextBeforeIs(t: Tree, parent: DomNode, sibling: DomNode, i: nat)
    requires WellLinked(t.forest) && StandsIn(t.forest, parent, sibling, i) && FollowsText(t, parent, i)
    ensures sibling in t.forest.parents && TextBefore(t, sibling).Some?
  {
    assert t.forest.parents[sibling] == Some(parent);
    PositionIs(t.forest.children[parent], sibling, i);
  }
}
