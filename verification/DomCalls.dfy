/**
 What each call of the tree builder does to the whole tree, and what every
 sequence of calls keeps.
 */
module DomCalls {
  import opened Wrappers
  import opened HtmlLexer
  import opened DomForest
  import opened DomClaims

  datatype Tree = Tree(forest: Forest, contents: map<DomNode, Contents>, claims: Claims)

  const TEXT: Want := WantKinds({PlainText})

  const COMMENT: Want := WantKinds({Comment, ProcessingInstruction, Declaration})

  const INSTRUCTION: Want := WantKinds({ProcessingInstruction})

  const DOCTYPE: Want := WantKinds({Doctype})

  ghost predicate TemplatesLive(contents: map<DomNode, Contents>) {
    forall n :: n in contents && contents[n].data.Element? && contents[n].data.templateContents.Some? ==>
      contents[n].data.templateContents.value in contents
  }

  ghost predicate Shared(t: Tree) {
    t.forest.parents.Keys == t.contents.Keys
  }

  /** What every call keeps: exact links, and tokens claimed once. */
  ghost predicate Sound(tokens: seq<Token>, t: Tree) {
    WellLinked(t.forest) && Shared(t) && ClaimedOnce(tokens, t.contents, t.claims.used) && TemplatesLive(t.contents)
  }

  // ---------------------------------------------------------------------------
  // Parts of calls

  /** A node comes to be, with the token it claimed. */
  function Made(
    t: Tree, node: DomNode, data: NodeData, text: string, attributes: seq<Attribute>, claimed: Claimed): Tree
  {
    Tree(Created(t.forest, node), t.contents[node := Contents(data, text, attributes, Taken(claimed.token))],
         claimed.claims)
  }

  function MadeKind(tokens: seq<Token>, t: Tree, node: DomNode, data: NodeData, text: string, want: Want): Tree
    requires |tokens| == |t.claims.used|
  {
    Made(t, node, data, text, [], Claim(tokens, t.claims, want))
  }

  /** An element's template contents are a document of their own. */
  function WithTemplate(t: Tree, template: Option<DomNode>): Tree {
    match template
    case None => t
    case Some(inner) => Made(t, inner, Document, [], [], Claimed(None, t.claims))
  }

  function MadeElement(
    tokens: seq<Token>, t: Tree, node: DomNode, name: string, attributes: seq<Attribute>, template: Option<DomNode>): Tree
    requires |tokens| == |t.claims.used|
  {
    var claimed := ClaimElement(tokens, t.claims, name);
    Made(WithTemplate(t, template), node, Element(name, template), [], attributes, claimed)
  }

  /** More text for a text node, with the next text token. */
  function Merged(tokens: seq<Token>, t: Tree, node: DomNode, text: string): Tree
    requires |tokens| == |t.claims.used| && node in t.contents
  {
    var claimed := Claim(tokens, t.claims, TEXT);
    var contents := t.contents[node := t.contents[node].(text := t.contents[node].text + text)];
    Tree(t.forest, Given(contents, node, claimed.token), claimed.claims)
  }

  predicate IsText(t: Tree, node: DomNode) {
    node in t.contents && t.contents[node].data.TextData?
  }

  /** The last child, if it is text. */
  function LastText(t: Tree, parent: DomNode): (previous: Option<DomNode>)
    requires parent in t.forest.children
    ensures previous.Some? ==> IsText(t, previous.value)
  {
    var children := t.forest.children[parent];
    if children != [] && IsText(t, children[|children| - 1]) then Some(children[|children| - 1]) else None
  }

  /** The child just before a sibling, if it is text. */
  function TextBefore(t: Tree, sibling: DomNode): (previous: Option<DomNode>)
    requires sibling in t.forest.parents
    ensures previous.Some? ==> IsText(t, previous.value)
  {
    match t.forest.parents[sibling]
    case None => None
    case Some(parent) =>
      if parent !in t.forest.children then None
      else
        var children := t.forest.children[parent];
        var i := PositionOf(children, sibling);
        if i == |children| || i == 0 || !IsText(t, children[i - 1]) then None else Some(children[i - 1])
  }

  function MissingAttributes(existing: seq<Attribute>, attributes: seq<Attribute>): seq<Attribute> {
    if attributes == [] then []
    else
      var rest := MissingAttributes(existing, attributes[1..]);
      if exists i :: 0 <= i < |existing| && existing[i].name == attributes[0].name then rest
      else [attributes[0]] + rest
  }

  // ---------------------------------------------------------------------------
  // Calls

  /** A call, naming the nodes it makes. `Release` is the last handle of a node without an owner going away. */
  datatype Call =
    | CreateElement(node: DomNode, name: string, attributes: seq<Attribute>, template: Option<DomNode>)
    | CreateComment(node: DomNode, comment: string)
    | CreateInstruction(node: DomNode, target: string, instruction: string)
    | AppendDoctype(node: DomNode, name: string, publicId: string, systemId: string)
    | AppendNode(parent: DomNode, child: DomNode)
    | AppendText(parent: DomNode, text: string, node: DomNode)
    | InsertNode(sibling: DomNode, child: DomNode)
    | InsertText(sibling: DomNode, text: string, node: DomNode)
    | AddAttributes(element: DomNode, attributes: seq<Attribute>)
    | Remove(child: DomNode)
    | Reparent(parent: DomNode, newParent: DomNode)
    | Release(node: DomNode)

  /** The nodes a call mentions exist, and the ones it makes do not. */
  ghost predicate Callable(t: Tree, document: DomNode, call: Call) {
    && document in t.contents
    && match call
       case CreateElement(node, _, _, template) =>
         && node !in t.contents && (template.Some? ==> template.value !in t.contents && template.value != node)
       case CreateComment(node, _) => node !in t.contents
       case CreateInstruction(node, _, _) => node !in t.contents
       case AppendDoctype(node, _, _, _) => node !in t.contents
       case AppendNode(parent, child) => parent in t.contents && child in t.contents
       case AppendText(parent, _, node) =>
         parent in t.contents && Shared(t) && WellLinked(t.forest) && (LastText(t, parent).None? ==> node !in t.contents)
       case InsertNode(sibling, child) => sibling in t.contents && child in t.contents
       case InsertText(sibling, _, node) =>
         sibling in t.contents && Shared(t) && (TextBefore(t, sibling).None? ==> node !in t.contents)
       case AddAttributes(element, _) => element in t.contents && t.contents[element].data.Element?
       case Remove(child) => child in t.contents
       case Reparent(parent, newParent) => parent in t.contents && newParent in t.contents
       case Release(node) =>
         && node in t.contents && node != document && Shared(t) && t.forest.parents[node] == None
         && forall n :: n in t.contents && t.contents[n].data.Element? ==>
              t.contents[n].data.templateContents != Some(node)
  }

  /** A new text node, as the last child. */
  ghost function NewTextLast(tokens: seq<Token>, t: Tree, parent: DomNode, text: string, node: DomNode): Tree
    requires Sound(tokens, t) && parent in t.contents && node !in t.contents
  {
    CreatedLinked(t.forest, node);
    var made := MadeKind(tokens, t, node, TextData, text, TEXT);
    made.(forest := ChildAppended(made.forest, parent, node))
  }

  /** A new text node, before a sibling. */
  ghost function NewTextBefore(tokens: seq<Token>, t: Tree, sibling: DomNode, text: string, node: DomNode): Tree
    requires Sound(tokens, t) && sibling in t.contents && node !in t.contents
  {
    CreatedLinked(t.forest, node);
    var made := MadeKind(tokens, t, node, TextData, text, TEXT);
    made.(forest := ChildInserted(made.forest, sibling, node))
  }

  ghost function TextAppended(tokens: seq<Token>, t: Tree, parent: DomNode, text: string, node: DomNode): Tree
    requires Sound(tokens, t) && parent in t.contents
    requires LastText(t, parent).None? ==> node !in t.contents
  {
    match LastText(t, parent)
    case Some(previous) => Merged(tokens, t, previous, text)
    case None => NewTextLast(tokens, t, parent, text, node)
  }

  ghost function TextInserted(tokens: seq<Token>, t: Tree, sibling: DomNode, text: string, node: DomNode): Tree
    requires Sound(tokens, t) && sibling in t.contents
    requires TextBefore(t, sibling).None? ==> node !in t.contents
  {
    match TextBefore(t, sibling)
    case Some(previous) => Merged(tokens, t, previous, text)
    case None => NewTextBefore(tokens, t, sibling, text, node)
  }

  ghost function DoctypeAppended(tokens: seq<Token>, t: Tree, document: DomNode, node: DomNode, data: NodeData): Tree
    requires Sound(tokens, t) && document in t.contents && node !in t.contents
  {
    CreatedLinked(t.forest, node);
    var made := MadeKind(tokens, t, node, data, [], DOCTYPE);
    made.(forest := ChildAppended(made.forest, document, node))
  }

  /** Only an element without a token claims one when it is given attributes. */
  function AttributesClaim(tokens: seq<Token>, held: Contents, claims: Claims): Claimed
    requires |tokens| == |claims.used| && held.data.Element?
  {
    if held.sourceTokens == [] then ClaimElement(tokens, claims, held.data.localName) else Claimed(None, claims)
  }

  function WithMissing(held: Contents, attributes: seq<Attribute>): Contents {
    held.(attributes := held.attributes + MissingAttributes(held.attributes, attributes))
  }

  function AttributesAdded(tokens: seq<Token>, t: Tree, element: DomNode, attributes: seq<Attribute>): Tree
    requires |tokens| == |t.claims.used| && element in t.contents && t.contents[element].data.Element?
  {
    var claimed := AttributesClaim(tokens, t.contents[element], t.claims);
    var contents := t.contents[element := WithMissing(t.contents[element], attributes)];
    Tree(t.forest, Given(contents, element, claimed.token), claimed.claims)
  }

  /** The tree after a call. */
  ghost function Perform(tokens: seq<Token>, document: DomNode, t: Tree, call: Call): Tree
    requires Sound(tokens, t) && Callable(t, document, call)
  {
    match call
    case CreateElement(node, name, attributes, template) => MadeElement(tokens, t, node, name, attributes, template)
    case CreateComment(node, comment) => MadeKind(tokens, t, node, CommentData(comment), [], COMMENT)
    case CreateInstruction(node, target, instruction) =>
      MadeKind(tokens, t, node, InstructionData(target, instruction), [], INSTRUCTION)
    case AppendDoctype(node, name, publicId, systemId) =>
      DoctypeAppended(tokens, t, document, node, DoctypeData(name, publicId, systemId))
    case AppendNode(parent, child) => t.(forest := ChildAppended(t.forest, parent, child))
    case AppendText(parent, text, node) => TextAppended(tokens, t, parent, text, node)
    case InsertNode(sibling, child) => t.(forest := ChildInserted(t.forest, sibling, child))
    case InsertText(sibling, text, node) => TextInserted(tokens, t, sibling, text, node)
    case AddAttributes(element, attributes) => AttributesAdded(tokens, t, element, attributes)
    case Remove(child) => t.(forest := Detached(t.forest, child))
    case Reparent(parent, newParent) => t.(forest := Reparented(t.forest, parent, newParent))
    case Release(node) => t.(forest := Released(t.forest, node), contents := t.contents - {node})
  }

  // ---------------------------------------------------------------------------
  // What calls keep

  lemma {:induction false} MadeSound(
    tokens: seq<Token>, t: Tree, node: DomNode, data: NodeData, text: string, attributes: seq<Attribute>,
    claimed: Claimed)
    requires Sound(tokens, t) && node !in t.contents && Fresh(tokens, data, t.claims, claimed)
    requires data.Element? && data.templateContents.Some? ==> data.templateContents.value in t.contents
    ensures Sound(tokens, Made(t, node, data, text, attributes, claimed))
  {
    CreatedLinked(t.forest, node);
    MadeClaimedOnce(tokens, t.contents, node, Contents(data, text, attributes, Taken(claimed.token)), t.claims, claimed);
  }

  /** Claims are not affected by anything but kinds and tokens. */
  lemma {:induction false} SameClaims(
    tokens: seq<Token>, contents: map<DomNode, Contents>, other: map<DomNode, Contents>, used: seq<bool>)
    requires ClaimedOnce(tokens, contents, used) && other.Keys == contents.Keys
    requires forall n :: n in contents ==>
               other[n].data == contents[n].data && other[n].sourceTokens == contents[n].sourceTokens
    ensures ClaimedOnce(tokens, other, used)
  {
  }

  lemma {:induction false} GivenSound(tokens: seq<Token>, t: Tree, node: DomNode, held: Contents, claimed: Claimed)
    requires Sound(tokens, t) && node in t.contents && Fresh(tokens, held.data, t.claims, claimed)
    requires held.data == t.contents[node].data && held.sourceTokens == t.contents[node].sourceTokens
    ensures Sound(tokens, Tree(t.forest, Given(t.contents[node := held], node, claimed.token), claimed.claims))
  {
    var contents := t.contents[node := held];
    SameClaims(tokens, t.contents, contents, t.claims.used);
    GivenClaimedOnce(tokens, contents, node, t.claims, claimed);
  }

  lemma {:induction false} MergedSound(tokens: seq<Token>, t: Tree, node: DomNode, text: string)
    requires Sound(tokens, t) && IsText(t, node)
    ensures Sound(tokens, Merged(tokens, t, node, text))
  {
    var held := t.contents[node].(text := t.contents[node].text + text);
    GivenSound(tokens, t, node, held, Claim(tokens, t.claims, TEXT));
  }

  lemma {:induction false} MadeKindSound(
    tokens: seq<Token>, t: Tree, node: DomNode, data: NodeData, text: string, want: Want)
    requires Sound(tokens, t) && node !in t.contents && !data.Element?
    requires forall token :: Wanted(want, token) ==> Suits(token, data)
    ensures Sound(tokens, MadeKind(tokens, t, node, data, text, want))
  {
    MadeSound(tokens, t, node, data, text, [], Claim(tokens, t.claims, want));
  }

  lemma {:induction false} MadeElementSound(
    tokens: seq<Token>, t: Tree, node: DomNode, name: string, attributes: seq<Attribute>, template: Option<DomNode>)
    requires Sound(tokens, t) && node !in t.contents
    requires template.Some? ==> template.value !in t.contents && template.value != node
    ensures Sound(tokens, MadeElement(tokens, t, node, name, attributes, template))
  {
    if template.Some? {
      MadeSound(tokens, t, template.value, Document, [], [], Claimed(None, t.claims));
    }
    var claimed := ClaimElement(tokens, t.claims, name);
    MadeSound(tokens, WithTemplate(t, template), node, Element(name, template), [], attributes, claimed);
  }

  lemma {:induction false} TextSound(tokens: seq<Token>, document: DomNode, t: Tree, call: Call)
    requires Sound(tokens, t) && Callable(t, document, call) && (call.AppendText? || call.InsertText?)
    ensures Sound(tokens, Perform(tokens, document, t, call))
  {
    var previous := if call.AppendText? then LastText(t, call.parent) else TextBefore(t, call.sibling);
    if previous.Some? {
      MergedSound(tokens, t, previous.value, call.text);
    } else {
      MadeKindSound(tokens, t, call.node, TextData, call.text, TEXT);
      var made := MadeKind(tokens, t, call.node, TextData, call.text, TEXT);
      if call.AppendText? {
        AppendedEffect(made.forest, call.parent, call.node);
      } else if made.forest.parents[call.sibling].Some? {
        InsertedEffect(made.forest, call.sibling, call.node, made.forest.parents[call.sibling].value);
      }
    }
  }

  lemma {:induction false} AttributesSound(
    tokens: seq<Token>, t: Tree, element: DomNode, attributes: seq<Attribute>)
    requires Sound(tokens, t) && element in t.contents && t.contents[element].data.Element?
    ensures Sound(tokens, AttributesAdded(tokens, t, element, attributes))
  {
    var held := t.contents[element];
    GivenSound(tokens, t, element, WithMissing(held, attributes), AttributesClaim(tokens, held, t.claims));
  }

  lemma {:induction false} ReleaseSound(tokens: seq<Token>, document: DomNode, t: Tree, call: Call)
    requires Sound(tokens, t) && Callable(t, document, call) && call.Release?
    ensures Sound(tokens, Perform(tokens, document, t, call))
  {
    ReleasedLinked(t.forest, call.node);
  }

  lemma {:induction false} LinksSound(tokens: seq<Token>, document: DomNode, t: Tree, call: Call)
    requires Sound(tokens, t) && Callable(t, document, call)
    requires call.AppendNode? || call.InsertNode? || call.Remove? || call.Reparent?
    ensures Sound(tokens, Perform(tokens, document, t, call))
  {
    match call
    case AppendNode(parent, child) => AppendedEffect(t.forest, parent, child);
    case InsertNode(sibling, child) =>
      if t.forest.parents[sibling].Some? {
        InsertedEffect(t.forest, sibling, child, t.forest.parents[sibling].value);
      }
    case Remove(child) =>
      DetachedEffect(t.forest, child);
      DetachedLinked(t.forest, child);
    case Reparent(parent, newParent) =>
      ReparentedEffect(t.forest, parent, newParent);
      ReparentedLinked(t.forest, parent, newParent);
    case _ =>
  }

  /** Every call of the sink keeps the links exact and every token claimed at most once. */
  lemma {:induction false} CallsKeepSound(tokens: seq<Token>, document: DomNode, t: Tree, call: Call)
    requires Sound(tokens, t) && Callable(t, document, call)
    ensures Sound(tokens, Perform(tokens, document, t, call))
    ensures document in Perform(tokens, document, t, call).contents
  {
    match call
    case CreateElement(node, name, attributes, template) =>
      MadeElementSound(tokens, t, node, name, attributes, template);
    case CreateComment(node, comment) => MadeKindSound(tokens, t, node, CommentData(comment), [], COMMENT);
    case CreateInstruction(node, target, instruction) =>
      MadeKindSound(tokens, t, node, InstructionData(target, instruction), [], INSTRUCTION);
    case AppendDoctype(node, name, publicId, systemId) =>
      var data := DoctypeData(name, publicId, systemId);
      MadeKindSound(tokens, t, node, data, [], DOCTYPE);
      AppendedEffect(MadeKind(tokens, t, node, data, [], DOCTYPE).forest, document, node);
    case AppendText(_, _, _) => TextSound(tokens, document, t, call);
    case InsertText(_, _, _) => TextSound(tokens, document, t, call);
    case AddAttributes(element, attributes) => AttributesSound(tokens, t, element, attributes);
    case Release(_) => ReleaseSound(tokens, document, t, call);
    case _ => LinksSound(tokens, document, t, call);
  }

  /** The tree after a run of calls, each of them callable where it stands. */
  ghost predicate Leads(tokens: seq<Token>, document: DomNode, t: Tree, calls: seq<Call>, end: Tree)
    decreases |calls|
  {
    if calls == [] then end == t
    else
      && Sound(tokens, t) && Callable(t, document, calls[0])
      && Leads(tokens, document, Perform(tokens, document, t, calls[0]), calls[1..], end)
  }

  /** A sink starts with its document alone, and no token claimed. */
  function Start(tokens: seq<Token>, document: DomNode, suppressed: nat): Tree {
    Tree(Forest(map[document := None], map[document := []]), map[document := Contents(Document, [], [], [])],
         Claims(NoneUsed(|tokens|), suppressed))
  }

  lemma {:induction false} StartsSound(tokens: seq<Token>, document: DomNode, suppressed: nat)
    ensures Sound(tokens, Start(tokens, document, suppressed))
  {
  }

  /** Over every run, from any sound tree: exact links and tokens claimed at most once. */
  lemma {:induction false} RunsStaySound(tokens: seq<Token>, document: DomNode, t: Tree, calls: seq<Call>, end: Tree)
    requires Sound(tokens, t) && Leads(tokens, document, t, calls, end)
    ensures Sound(tokens, end)
    decreases |calls|
  {
    if calls != [] {
      CallsKeepSound(tokens, document, t, calls[0]);
      RunsStaySound(tokens, document, Perform(tokens, document, t, calls[0]), calls[1..], end);
    }
  }
}
