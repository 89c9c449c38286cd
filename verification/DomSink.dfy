/** The sink itself: nodes on the heap, updated in place by the calls of the tree builder. */
module DomSink {
  import opened Wrappers
  import opened HtmlLexer
  import opened DomForest
  import opened DomClaims
  import opened DomCalls

  datatype NodeOrText = NodeChild(node: DomNode) | TextChild(text: string)

  class Sink {
    const tokens: seq<Token>
    const document: DomNode
    const claims: SourceClaims
    ghost var nodes: set<DomNode>

    constructor (tokens: seq<Token>, suppressed: nat)
      ensures this.tokens == tokens && fresh(document) && fresh(claims) && Valid()
      ensures document.data == Document && State() == Start(tokens, document, suppressed)
    {
      var root := new DomNode(Document, [], [], []);
      this.tokens, document, nodes := tokens, root, {root};
      claims := new SourceClaims(tokens, suppressed);
      new;
      StartsSound(tokens, document, suppressed);
      assert Links() == Start(tokens, document, suppressed).forest;
      assert State() == Start(tokens, document, suppressed);
    }

    ghost function Links(): Forest
      reads `nodes, nodes`parent, nodes`children
    {
      Forest(map n | n in nodes :: n.parent, map n | n in nodes :: n.children)
    }

    ghost function Holdings(): map<DomNode, Contents>
      reads `nodes, nodes`text, nodes`attributes, nodes`sourceTokens
    {
      map n | n in nodes :: Contents(n.data, n.text, n.attributes, n.sourceTokens)
    }

    ghost function State(): Tree
      reads this, nodes, claims
    {
      Tree(Links(), Holdings(), claims.State())
    }

    ghost predicate Valid()
      reads this, nodes, claims
    {
      document in nodes && claims.tokens == tokens && claims.Valid() && Sound(tokens, State())
    }

    /** A sound tree after a call is sound, so the sink stays valid. */
    lemma {:induction false} Settled(before: Tree, call: Call)
      requires Sound(tokens, before) && Callable(before, document, call)
      requires claims.tokens == tokens && claims.Valid()
      requires State() == Perform(tokens, document, before, call)
      ensures Valid()
    {
      CallsKeepSound(tokens, document, before, call);
      assert document in State().contents;
    }

    // -------------------------------------------------------------------------
    // Links

    method Detach(node: DomNode)
      requires WellLinked(Links()) && node in nodes
      modifies nodes`parent, nodes`children
      ensures Links() == Detached(old(Links()), node)
      ensures Holdings() == old(Holdings()) && claims.State() == old(claims.State())
    {
      var parent := node.parent;
      if parent.None? {
        return;
      }
      assert parent == Links().parents[node] && parent.value.children == Links().children[parent.value];
      SetChildren(parent.value, Without(parent.value.children, node));
      SetParent(node, None);
    }

    method SetParent(node: DomNode, parent: Option<DomNode>)
      requires node in nodes
      modifies node`parent
      ensures Links() == Forest(old(Links()).parents[node := parent], old(Links()).children)
      ensures Holdings() == old(Holdings()) && claims.State() == old(claims.State())
    {
      node.parent := parent;
    }

    method SetChildren(node: DomNode, children: seq<DomNode>)
      requires node in nodes
      modifies node`children
      ensures Links() == Forest(old(Links()).parents, old(Links()).children[node := children])
      ensures Holdings() == old(Holdings()) && claims.State() == old(claims.State())
    {
      node.children := children;
    }

    /** Names a parent in a child, and gives the parent a new list. */
    method Link(parent: DomNode, child: DomNode, children: seq<DomNode>)
      requires parent in nodes && child in nodes
      modifies child`parent, parent`children
      ensures Links() == Forest(old(Links()).parents[child := Some(parent)], old(Links()).children[parent := children])
      ensures Holdings() == old(Holdings()) && claims.State() == old(claims.State())
    {
      SetParent(child, Some(parent));
      SetChildren(parent, children);
    }

    method AppendNode(parent: DomNode, child: DomNode)
      requires WellLinked(Links()) && parent in nodes && child in nodes
      modifies nodes`parent, nodes`children
      ensures Links() == ChildAppended(old(Links()), parent, child)
      ensures Holdings() == old(Holdings()) && claims.State() == old(claims.State())
    {
      Detach(child);
      assert parent.children == Links().children[parent];
      Link(parent, child, parent.children + [child]);
    }

    method InsertBefore(sibling: DomNode, child: DomNode)
      requires WellLinked(Links()) && sibling in nodes && child in nodes
      modifies nodes`parent, nodes`children
      ensures Links() == ChildInserted(old(Links()), sibling, child)
      ensures Holdings() == old(Holdings()) && claims.State() == old(claims.State())
    {
      var parent := sibling.parent;
      assert parent == Links().parents[sibling];
      if parent.None? {
        return;
      }
      assert parent.value in nodes;
      Detach(child);
      var children := parent.value.children;
      assert children == Links().children[parent.value];
      var position := PositionOf(children, sibling);
      Link(parent.value, child, children[..position] + [child] + children[position..]);
    }

    method TakeChildren(node: DomNode) returns (children: seq<DomNode>)
      requires WellLinked(Links()) && node in nodes
      modifies node`children
      ensures children == old(Links()).children[node]
      ensures Links() == old(Links()).(children := old(Links()).children[node := []])
      ensures Holdings() == old(Holdings()) && claims.State() == old(claims.State())
      ensures forall c :: c in children ==> c in nodes
    {
      children := node.children;
      assert children == Links().children[node];
      forall c | c in children ensures c in nodes {
        ChildParent(Links(), node, c);
      }
      node.children := [];
    }

    method ReparentChildren(node: DomNode, newParent: DomNode)
      requires WellLinked(Links()) && node in nodes && newParent in nodes
      modifies nodes`parent, nodes`children
      ensures Links() == Reparented(old(Links()), node, newParent)
      ensures Holdings() == old(Holdings()) && claims.State() == old(claims.State())
    {
      var children := TakeChildren(node);
      ghost var emptied := Links();
      for i := 0 to |children|
        invariant Links() == Adopted(emptied, newParent, children[..i])
        invariant Holdings() == old(Holdings()) && claims.State() == old(claims.State())
      {
        var child := children[i];
        assert child in children;
        ghost var before := Links();
        assert newParent.children == before.children[newParent];
        Link(newParent, child, newParent.children + [child]);
        assert before.children[newParent] == Adopted(emptied, newParent, children[..i]).children[newParent];
        AdoptedStep(emptied, newParent, children, i);
      }
      assert children[..|children|] == children;
    }

    // -------------------------------------------------------------------------
    // Nodes and their tokens

    method ClaimToken(want: Want) returns (token: Option<nat>)
      requires claims.tokens == tokens && claims.Valid()
      modifies claims`used
      ensures claims.Valid() && Claimed(token, claims.State()) == Claim(tokens, old(claims.State()), want)
      ensures State() == old(State()).(claims := claims.State())
    {
      token := claims.ClaimFirst(want);
    }

    method ClaimStart(name: string) returns (token: Option<nat>)
      requires claims.tokens == tokens && claims.Valid()
      modifies claims
      ensures claims.Valid() && Claimed(token, claims.State()) == ClaimElement(tokens, old(claims.State()), name)
      ensures State() == old(State()).(claims := claims.State())
    {
      token := claims.ClaimStartTag(name);
    }

    method Make(data: NodeData, text: string, attributes: seq<Attribute>, token: Option<nat>) returns (node: DomNode)
      modifies `nodes
      ensures fresh(node) && nodes == old(nodes) + {node} && node.data == data
      ensures Links() == Created(old(Links()), node)
      ensures Holdings() == old(Holdings())[node := Contents(data, text, attributes, Taken(token))]
      ensures claims.State() == old(claims.State())
    {
      node := new DomNode(data, text, attributes, Taken(token));
      Enter(node);
    }

    ghost method Enter(node: DomNode)
      requires node !in nodes
      modifies `nodes
      ensures nodes == old(nodes) + {node} && claims.State() == old(claims.State())
      ensures Links() == Forest(old(Links()).parents[node := node.parent], old(Links()).children[node := node.children])
      ensures Holdings() ==
              old(Holdings())[node := Contents(node.data, node.text, node.attributes, node.sourceTokens)]
    {
      nodes := nodes + {node};
    }

    method New(data: NodeData, text: string, attributes: seq<Attribute>, token: Option<nat>) returns (node: DomNode)
      modifies `nodes
      ensures fresh(node) && nodes == old(nodes) + {node} && node.data == data
      ensures State() == Made(old(State()), node, data, text, attributes, Claimed(token, old(claims.State())))
    {
      node := Make(data, text, attributes, token);
    }

    method Give(node: DomNode, token: Option<nat>)
      requires node in nodes
      modifies node`sourceTokens
      ensures State() == old(State()).(contents := Given(old(Holdings()), node, token))
    {
      if token.Some? {
        node.sourceTokens := node.sourceTokens + [token.value];
      } else {
        assert node.sourceTokens + [] == node.sourceTokens;
      }
    }

    method CreateElement(name: string, attributes: seq<Attribute>, isTemplate: bool) returns (node: DomNode)
      requires Valid()
      modifies this, claims
      ensures Valid() && fresh(node) && node.data.Element? && (isTemplate <==> node.data.templateContents.Some?)
      ensures isTemplate ==> fresh(node.data.templateContents.value) && node.data.templateContents.value != node
      ensures State() == Perform(tokens, document, old(State()),
                                 Call.CreateElement(node, name, attributes, node.data.templateContents))
    {
      ghost var before := State();
      ghost var claimed := ClaimElement(tokens, before.claims, name);
      var token := ClaimStart(name);
      ghost var bare := before.(claims := claimed.claims);
      assert State() == bare;
      var template := MakeTemplate(isTemplate);
      node := New(Element(name, template), [], attributes, token);
      assert State() == Made(WithTemplate(bare, template), node, Element(name, template), [], attributes, claimed);
      assert State() == MadeElement(tokens, before, node, name, attributes, template);
      Settled(before, Call.CreateElement(node, name, attributes, template));
    }

    method MakeTemplate(isTemplate: bool) returns (template: Option<DomNode>)
      modifies `nodes
      ensures isTemplate <==> template.Some?
      ensures template.Some? ==> fresh(template.value)
      ensures nodes == old(nodes) + match template case None => {} case Some(inner) => {inner}
      ensures State() == WithTemplate(old(State()), template)
    {
      template := None;
      if isTemplate {
        var inner := New(Document, [], [], None);
        template := Some(inner);
      }
    }

    method CreateKind(data: NodeData, text: string, want: Want) returns (node: DomNode)
      requires claims.tokens == tokens && claims.Valid()
      modifies `nodes, claims`used
      ensures fresh(node) && nodes == old(nodes) + {node} && claims.Valid()
      ensures State() == MadeKind(tokens, old(State()), node, data, text, want)
    {
      var token := ClaimToken(want);
      node := New(data, text, [], token);
    }

    method CreateComment(comment: string) returns (node: DomNode)
      requires Valid()
      modifies this, claims
      ensures Valid() && fresh(node)
      ensures State() == Perform(tokens, document, old(State()), Call.CreateComment(node, comment))
    {
      ghost var before := State();
      node := CreateKind(CommentData(comment), [], COMMENT);
      Settled(before, Call.CreateComment(node, comment));
    }

    method CreateInstruction(target: string, instruction: string) returns (node: DomNode)
      requires Valid()
      modifies this, claims
      ensures Valid() && fresh(node)
      ensures State() == Perform(tokens, document, old(State()), Call.CreateInstruction(node, target, instruction))
    {
      ghost var before := State();
      node := CreateKind(InstructionData(target, instruction), [], INSTRUCTION);
      Settled(before, Call.CreateInstruction(node, target, instruction));
    }

    method AppendDoctypeToDocument(name: string, publicId: string, systemId: string) returns (ghost node: DomNode)
      requires Valid()
      modifies this, claims, nodes`parent, nodes`children
      ensures Valid() && fresh(node)
      ensures State() == Perform(tokens, document, old(State()), Call.AppendDoctype(node, name, publicId, systemId))
    {
      ghost var before := State();
      var doctype := CreateKind(DoctypeData(name, publicId, systemId), [], DOCTYPE);
      CreatedLinked(before.forest, doctype);
      AppendNode(document, doctype);
      node := doctype;
      ghost var after := DoctypeAppended(tokens, before, document, node, DoctypeData(name, publicId, systemId));
      assert State() == after;
      Settled(before, Call.AppendDoctype(node, name, publicId, systemId));
    }

    method PushText(node: DomNode, text: string)
      requires node in nodes
      modifies node`text
      ensures var held := old(Holdings())[node];
              State() == old(State()).(contents := old(Holdings())[node := held.(text := held.text + text)])
    {
      node.text := node.text + text;
    }

    /** More text for a text node, with the next text token. */
    method MergeText(node: DomNode, text: string)
      requires claims.tokens == tokens && claims.Valid() && node in nodes
      modifies claims`used, node`text, node`sourceTokens
      ensures claims.Valid() && State() == Merged(tokens, old(State()), node, text)
    {
      assert Holdings()[node].text == node.text;
      PushText(node, text);
      var token := ClaimToken(TEXT);
      Give(node, token);
    }

    /** The text a new text is merged into: the last child, if it is text. */
    function LastTextOf(parent: DomNode): (previous: Option<DomNode>)
      requires WellLinked(Links()) && parent in nodes
      reads this, nodes, claims
      ensures previous == LastText(State(), parent)
      ensures previous.Some? ==> previous.value in nodes
    {
      assert parent.children == Links().children[parent];
      if parent.children == [] then None
      else
        var last := parent.children[|parent.children| - 1];
        ChildParent(Links(), parent, last);
        if last.data.TextData? then Some(last) else None
    }

    method AppendNewText(parent: DomNode, text: string) returns (node: DomNode)
      requires Valid() && parent in nodes
      modifies `nodes, claims`used, nodes`parent, nodes`children
      ensures claims.Valid() && fresh(node) && nodes == old(nodes) + {node}
      ensures State() == NewTextLast(tokens, old(State()), parent, text, node)
    {
      ghost var before := State();
      node := CreateKind(TextData, text, TEXT);
      ghost var made := State();
      CreatedLinked(before.forest, node);
      assert WellLinked(made.forest) && Links() == made.forest;
      AppendNode(parent, node);
      assert State() == made.(forest := Links());
    }

    method InsertNewText(sibling: DomNode, text: string) returns (node: DomNode)
      requires Valid() && sibling in nodes
      modifies `nodes, claims`used, nodes`parent, nodes`children
      ensures claims.Valid() && fresh(node) && nodes == old(nodes) + {node}
      ensures State() == NewTextBefore(tokens, old(State()), sibling, text, node)
    {
      ghost var before := State();
      node := CreateKind(TextData, text, TEXT);
      ghost var made := State();
      CreatedLinked(before.forest, node);
      assert WellLinked(made.forest) && Links() == made.forest;
      InsertBefore(sibling, node);
      assert State() == made.(forest := Links());
    }

    /** Text after the last child: merged into it if it is text, else a new node. */
    method AppendText(parent: DomNode, text: string) returns (ghost node: DomNode)
      requires Valid() && parent in nodes
      modifies this, claims, nodes
      ensures Valid() && (LastText(old(State()), parent).None? ==> fresh(node))
      ensures State() == Perform(tokens, document, old(State()), Call.AppendText(parent, text, node))
    {
      ghost var before := State();
      var previous := LastTextOf(parent);
      if previous.Some? {
        MergeText(previous.value, text);
        node := previous.value;
      } else {
        var created := AppendNewText(parent, text);
        node := created;
      }
      ghost var after := TextAppended(tokens, before, parent, text, node);
      assert State() == after;
      Settled(before, Call.AppendText(parent, text, node));
    }

    /** The text a text before a sibling is merged into: the child just before it, if it is text. */
    function TextBeforeSibling(sibling: DomNode): (previous: Option<DomNode>)
      requires WellLinked(Links()) && sibling in nodes
      reads this, nodes, claims
      ensures previous == TextBefore(State(), sibling)
      ensures previous.Some? ==> previous.value in nodes
    {
      assert sibling.parent == Links().parents[sibling];
      match sibling.parent
      case None => None
      case Some(parent) =>
        assert parent in nodes && parent.children == Links().children[parent];
        var position := PositionOf(parent.children, sibling);
        if position == 0 || position == |parent.children| then None
        else
          var before := parent.children[position - 1];
          ChildParent(Links(), parent, before);
          if before.data.TextData? then Some(before) else None
    }

    method AppendTextBefore(sibling: DomNode, text: string) returns (ghost node: DomNode)
      requires Valid() && sibling in nodes
      modifies this, claims, nodes
      ensures Valid() && (TextBefore(old(State()), sibling).None? ==> fresh(node))
      ensures State() == Perform(tokens, document, old(State()), Call.InsertText(sibling, text, node))
    {
      ghost var before := State();
      var previous := TextBeforeSibling(sibling);
      if previous.Some? {
        MergeText(previous.value, text);
        node := previous.value;
      } else {
        var created := InsertNewText(sibling, text);
        node := created;
      }
      ghost var after := TextInserted(tokens, before, sibling, text, node);
      assert State() == after;
      Settled(before, Call.InsertText(sibling, text, node));
    }

    // -------------------------------------------------------------------------
    // The remaining calls

    method Append(parent: DomNode, child: NodeOrText) returns (ghost call: Call)
      requires Valid() && parent in nodes && (child.NodeChild? ==> child.node in nodes)
      modifies this, claims, nodes
      ensures Valid() && Callable(old(State()), document, call)
      ensures State() == Perform(tokens, document, old(State()), call)
      ensures match child
              case NodeChild(node) => call == Call.AppendNode(parent, node)
              case TextChild(text) => call.AppendText? && call.parent == parent && call.text == text
    {
      match child
      case NodeChild(node) =>
        ghost var before := State();
        call := Call.AppendNode(parent, node);
        AppendNode(parent, node);
        ghost var after := Perform(tokens, document, before, call);
        assert State() == after;
        Settled(before, call);
      case TextChild(text) =>
        ghost var target := AppendText(parent, text);
        call := Call.AppendText(parent, text, target);
    }

    method AppendBeforeSibling(sibling: DomNode, child: NodeOrText) returns (ghost call: Call)
      requires Valid() && sibling in nodes && (child.NodeChild? ==> child.node in nodes)
      modifies this, claims, nodes
      ensures Valid() && Callable(old(State()), document, call)
      ensures State() == Perform(tokens, document, old(State()), call)
      ensures match child
              case NodeChild(node) => call == Call.InsertNode(sibling, node)
              case TextChild(text) => call.InsertText? && call.sibling == sibling && call.text == text
    {
      match child
      case NodeChild(node) =>
        ghost var before := State();
        call := Call.InsertNode(sibling, node);
        InsertBefore(sibling, node);
        ghost var after := Perform(tokens, document, before, call);
        assert State() == after;
        Settled(before, call);
      case TextChild(text) =>
        ghost var target := AppendTextBefore(sibling, text);
        call := Call.InsertText(sibling, text, target);
    }

    /** Before the element if it has a parent, else into the previous element. */
    method AppendBasedOnParentNode(element: DomNode, previousElement: DomNode, child: NodeOrText)
      returns (ghost call: Call)
      requires Valid() && element in nodes && previousElement in nodes && (child.NodeChild? ==> child.node in nodes)
      modifies this, claims, nodes
      ensures Valid() && Callable(old(State()), document, call)
      ensures State() == Perform(tokens, document, old(State()), call)
      ensures match child
              case NodeChild(node) =>
                call == if old(element.parent).Some? then Call.InsertNode(element, node)
                        else Call.AppendNode(previousElement, node)
              case TextChild(text) =>
                if old(element.parent).Some? then
                  call.InsertText? && call.sibling == element && call.text == text
                else
                  call.AppendText? && call.parent == previousElement && call.text == text
    {
      if element.parent.Some? {
        call := AppendBeforeSibling(element, child);
      } else {
        call := Append(previousElement, child);
      }
    }

    method RemoveFromParent(target: DomNode)
      requires Valid() && target in nodes
      modifies nodes`parent, nodes`children
      ensures Valid() && State() == Perform(tokens, document, old(State()), Call.Remove(target))
    {
      ghost var before := State();
      Detach(target);
      ghost var after := Perform(tokens, document, before, Call.Remove(target));
      assert State() == after;
      Settled(before, Call.Remove(target));
    }

    method Reparent(node: DomNode, newParent: DomNode)
      requires Valid() && node in nodes && newParent in nodes
      modifies nodes`parent, nodes`children
      ensures Valid() && State() == Perform(tokens, document, old(State()), Call.Reparent(node, newParent))
    {
      ghost var before := State();
      ReparentChildren(node, newParent);
      ghost var after := Perform(tokens, document, before, Call.Reparent(node, newParent));
      assert State() == after;
      Settled(before, Call.Reparent(node, newParent));
    }

    method PushAttributes(node: DomNode, missing: seq<Attribute>)
      requires node in nodes
      modifies node`attributes
      ensures var held := old(Holdings())[node];
              State() ==
              old(State()).(contents := old(Holdings())[node := held.(attributes := held.attributes + missing)])
    {
      node.attributes := node.attributes + missing;
    }

    /** Attributes only claim a token for an element that has none. */
    method ClaimFor(element: DomNode) returns (token: Option<nat>)
      requires claims.tokens == tokens && claims.Valid() && element.data.Element?
      modifies claims
      ensures claims.Valid()
      ensures var held := Contents(element.data, element.text, element.attributes, element.sourceTokens);
              Claimed(token, claims.State()) == AttributesClaim(tokens, held, old(claims.State()))
      ensures State() == old(State()).(claims := claims.State())
    {
      token := None;
      if element.sourceTokens == [] {
        token := ClaimStart(element.data.localName);
      }
    }

    method AddAttributesIfMissing(target: DomNode, attributes: seq<Attribute>)
      requires Valid() && target in nodes && target.data.Element?
      modifies claims, target`attributes, target`sourceTokens
      ensures Valid() && State() == Perform(tokens, document, old(State()), Call.AddAttributes(target, attributes))
    {
      ghost var before := State();
      ghost var held := before.contents[target];
      assert held == Contents(target.data, target.text, target.attributes, target.sourceTokens);
      var token := ClaimFor(target);
      PushAttributes(target, MissingAttributes(target.attributes, attributes));
      ghost var contents := before.contents[target := WithMissing(held, attributes)];
      assert Holdings() == contents;
      Give(target, token);
      assert State() == Tree(before.forest, Given(contents, target, token), claims.State());
      assert State() == AttributesAdded(tokens, before, target, attributes);
      Settled(before, Call.AddAttributes(target, attributes));
    }

    /** Whatever a released node listed has no parent any more. */
    method Orphan(children: seq<DomNode>)
      requires forall c :: c in children ==> c in nodes
      modifies nodes`parent
      ensures forall n :: n in nodes ==> n.parent == if n in children then None else old(n.parent)
      ensures Links().children == old(Links()).children
      ensures Holdings() == old(Holdings()) && claims.State() == old(claims.State())
    {
      for i := 0 to |children|
        invariant forall n :: n in nodes ==> n.parent == if n in children[..i] then None else old(n.parent)
      {
        var child := children[i];
        assert child in children;
        child.parent := None;
        assert children[..i + 1] == children[..i] + [child];
      }
      assert children[..|children|] == children;
    }

    ghost method Forget(node: DomNode)
      modifies `nodes
      ensures nodes == old(nodes) - {node}
      ensures Links().parents == old(Links()).parents - {node} && Links().children == old(Links()).children - {node}
      ensures Holdings() == old(Holdings()) - {node} && claims.State() == old(claims.State())
    {
      nodes := nodes - {node};
    }

    /** The last handle of a node without an owner goes away. */
    method Release(node: DomNode)
      requires Valid() && Callable(State(), document, Call.Release(node))
      modifies `nodes, nodes`parent
      ensures Valid() && State() == Perform(tokens, document, old(State()), Call.Release(node))
    {
      ghost var before := State();
      assert node in nodes && node.children == Links().children[node];
      var children := node.children;
      forall c | c in children ensures c in nodes {
        ChildParent(before.forest, node, c);
      }
      Orphan(children);
      Forget(node);
      ReleasedLinks(before.forest, node, Links());
      Settled(before, Call.Release(node));
    }
  }

  lemma {:induction false} ReleasedLinks(f: Forest, node: DomNode, g: Forest)
    requires WellLinked(f) && node in f.parents && f.parents[node] == None
    requires g.parents.Keys == f.parents.Keys - {node} && g.children == f.children - {node}
    requires forall n :: n in g.parents ==>
               g.parents[n] == if n in f.children[node] then None else f.parents[n]
    ensures g == Released(f, node)
  {
    forall n | n in f.parents ensures n in f.children[node] <==> f.parents[n] == Some(node) {
      if n in f.children[node] {
        ChildParent(f, node, n);
      }
    }
    assert g.parents == Released(f, node).parents;
  }

  lemma {:induction false} AdoptedStep(f: Forest, newParent: DomNode, children: seq<DomNode>, i: nat)
    requires newParent in f.children && i < |children|
    ensures var g := Adopted(f, newParent, children[..i]);
            Adopted(f, newParent, children[..i + 1]) ==
            Forest(g.parents[children[i] := Some(newParent)],
                   g.children[newParent := g.children[newParent] + [children[i]]])
  {
    assert children[..i + 1][..i] == children[..i];
  }
}
