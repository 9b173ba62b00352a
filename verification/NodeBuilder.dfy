// NodeBuilder: the handler that rebuilds a node graph from events.
module NodeBuilder {
  import opened Common
  import opened NodeGraph
  import opened Events
  import opened BuilderModel

  class NodeBuilder {
    var nodes: seq<BuiltNode> // the nodes of m_pMemory, by address
    var root: Option<Addr>
    var stack: seq<Addr>
    var anchors: seq<Addr>
    var keys: seq<(Addr, bool)>
    var mapDepth: nat
    ghost var received: seq<Event>

    function State(): Builder
      reads this
    {
      Builder(Memory(nodes, anchors), root, stack, keys, mapDepth)
    }

    constructor ()
      ensures State() == Empty && received == []
    {
      nodes, root, stack := [], None, [];
      anchors := [0]; // no node has anchor 0
      keys, mapDepth, received := [], 0, [];
    }

    method OnDocumentStart()
      modifies this`received
      ensures received == old(received) + [Event.OnDocumentStart]
    {
      received := received + [Event.OnDocumentStart];
    }

    method OnDocumentEnd()
      modifies this`received
      ensures received == old(received) + [Event.OnDocumentEnd]
    {
      received := received + [Event.OnDocumentEnd];
    }

    method OnNull(anchor: Anchor)
      requires InMemory(State()) && Step(State(), Event.OnNull(anchor)).Some?
      modifies this
      ensures State() == Step(old(State()), Event.OnNull(anchor)).value
      ensures received == old(received) + [Event.OnNull(anchor)]
    {
      received := received + [Event.OnNull(anchor)];
      var node := Create(anchor);
      SetContent(node, "", Default, BNull);
      assert nodes == old(nodes) + [BuiltNode("", Default, BNull)];
      PopNode();
    }

    method OnAlias(anchor: Anchor)
      requires InMemory(State()) && Step(State(), Event.OnAlias(anchor)).Some?
      modifies this
      ensures State() == Step(old(State()), Event.OnAlias(anchor)).value
      ensures received == old(received) + [Event.OnAlias(anchor)]
    {
      received := received + [Event.OnAlias(anchor)];
      PushNode(anchors[anchor]);
      PopNode();
    }

    method OnScalar(tag: string, anchor: Anchor, text: string)
      requires InMemory(State()) && Step(State(), Event.OnScalar(tag, anchor, text)).Some?
      modifies this
      ensures State() == Step(old(State()), Event.OnScalar(tag, anchor, text)).value
      ensures received == old(received) + [Event.OnScalar(tag, anchor, text)]
    {
      received := received + [Event.OnScalar(tag, anchor, text)];
      var node := Create(anchor);
      SetContent(node, tag, Default, BScalar(text));
      assert nodes == old(nodes) + [BuiltNode(tag, Default, BScalar(text))];
      PopNode();
    }

    method OnSequenceStart(tag: string, anchor: Anchor, style: Style)
      requires InMemory(State()) && Step(State(), Event.OnSequenceStart(tag, anchor, style)).Some?
      modifies this
      ensures State() == Step(old(State()), Event.OnSequenceStart(tag, anchor, style)).value
      ensures received == old(received) + [Event.OnSequenceStart(tag, anchor, style)]
    {
      received := received + [Event.OnSequenceStart(tag, anchor, style)];
      var node := Create(anchor);
      SetContent(node, tag, style, BSequence([]));
      assert nodes == old(nodes) + [BuiltNode(tag, style, BSequence([]))];
    }

    method OnSequenceEnd()
      requires InMemory(State()) && Step(State(), Event.OnSequenceEnd).Some?
      modifies this
      ensures State() == Step(old(State()), Event.OnSequenceEnd).value
      ensures received == old(received) + [Event.OnSequenceEnd]
    {
      received := received + [Event.OnSequenceEnd];
      PopNode();
    }

    method OnMapStart(tag: string, anchor: Anchor, style: Style)
      requires InMemory(State()) && Step(State(), Event.OnMapStart(tag, anchor, style)).Some?
      modifies this
      ensures State() == Step(old(State()), Event.OnMapStart(tag, anchor, style)).value
      ensures received == old(received) + [Event.OnMapStart(tag, anchor, style)]
    {
      received := received + [Event.OnMapStart(tag, anchor, style)];
      var node := Create(anchor);
      SetContent(node, tag, style, BMap(map[]));
      assert nodes == old(nodes) + [BuiltNode(tag, style, BMap(map[]))];
      mapDepth := mapDepth + 1;
    }

    method OnMapEnd()
      requires InMemory(State()) && Step(State(), Event.OnMapEnd).Some?
      modifies this
      ensures State() == Step(old(State()), Event.OnMapEnd).value
      ensures received == old(received) + [Event.OnMapEnd]
    {
      received := received + [Event.OnMapEnd];
      assert mapDepth > 0;
      mapDepth := mapDepth - 1;
      PopNode();
    }

    // A new node is null, untagged and of default style until its handler fills it in.
    method Create(anchor: Anchor) returns (a: Addr)
      requires InMemory(State()) && (anchor == 0 || anchor == |anchors|)
      modifies this`nodes, this`anchors, this`stack, this`keys
      ensures a == old(|nodes|) && InMemory(State())
      ensures BuilderModel.Create(old(State()), BuiltNode("", Default, BNull), anchor) == Some(State())
    {
      a := |nodes|;
      nodes := nodes + [BuiltNode("", Default, BNull)];
      RegisterAnchor(anchor, a);
      ghost var b := State();
      assert TopIsMap(b) == TopIsMap(old(State())) by {
        if stack != [] { assert stack[|stack| - 1] in stack; }
      }
      PushNode(a);
    }

    method SetContent(a: Addr, tag: string, style: Style, content: Built)
      requires a < |nodes|
      modifies this`nodes
      ensures nodes == old(nodes)[a := BuiltNode(tag, style, content)]
    {
      nodes := nodes[a := BuiltNode(tag, style, content)];
    }

    method RegisterAnchor(anchor: Anchor, a: Addr)
      requires anchor == 0 || anchor == |anchors|
      modifies this`anchors
      ensures anchors == if anchor != 0 then old(anchors) + [a] else old(anchors)
    {
      if anchor != 0 {
        assert anchor == |anchors|;
        anchors := anchors + [a];
      }
    }

    method PushNode(a: Addr)
      requires InMemory(State()) && a < |nodes|
      modifies this`stack, this`keys
      ensures State() == Push(old(State()), a)
    {
      var needsKey := |stack| > 0
        && (assert stack[|stack| - 1] in stack; nodes[stack[|stack| - 1]].content.BMap?)
        && |keys| < mapDepth;
      stack := stack + [a];
      if needsKey {
        keys := keys + [(a, false)];
      }
    }

    method PopNode()
      requires InMemory(State()) && Pop(State()).Some?
      modifies this`nodes, this`root, this`stack, this`keys
      ensures State() == Pop(old(State())).value
    {
      assert |stack| > 0;
      if |stack| == 1 {
        root := Some(stack[0]);
        stack := stack[..|stack| - 1];
        return;
      }
      var a := stack[|stack| - 1];
      stack := stack[..|stack| - 1];
      var c := stack[|stack| - 1];
      assert c == old(stack)[|old(stack)| - 2] && c in old(stack);
      match nodes[c].content
      case BSequence(items) =>
        nodes := nodes[c := nodes[c].(content := BSequence(items + [a]))];
      case BMap(entries) =>
        assert |keys| > 0;
        var key := keys[|keys| - 1];
        if key.1 {
          nodes := nodes[c := nodes[c].(content := BMap(entries[key.0 := a]))];
          keys := keys[..|keys| - 1];
        } else {
          keys := keys[|keys| - 1 := (key.0, true)];
        }
      case _ => assert false;
    }
  }
}
