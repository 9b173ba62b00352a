// NodeBuilder as a state machine over event streams, with its assertions as failing steps.
module BuilderModel {
  import opened Common
  import opened NodeGraph
  import opened Events

  // A node of the rebuilt graph; addresses count the nodes in the order they were created.
  type Addr = nat

  datatype Built =
    | BNull
    | BScalar(text: string)
    | BSequence(items: seq<Addr>)
    | BMap(entries: map<Addr, Addr>)

  datatype BuiltNode = BuiltNode(tag: string, style: Style, content: Built)

  // What the memory holder and m_anchors hold. anchors[0] is the placeholder for NullAnchor.
  datatype Memory = Memory(nodes: seq<BuiltNode>, anchors: seq<Addr>)

  datatype Builder = Builder(
    mem: Memory,
    root: Option<Addr>,
    stack: seq<Addr>,
    keys: seq<(Addr, bool)>,
    mapDepth: nat)

  const Empty := Builder(Memory([], [0]), None, [], [], 0)

  predicate InMemory(b: Builder)
  {
    && (forall a :: a in b.stack ==> a < |b.mem.nodes|)
    && (forall i :: 0 < i < |b.mem.anchors| ==> b.mem.anchors[i] < |b.mem.nodes|)
    && |b.mem.anchors| > 0
  }

  predicate TopIsMap(b: Builder)
    requires InMemory(b)
  {
    b.stack != [] && (assert b.stack[|b.stack| - 1] in b.stack; b.mem.nodes[b.stack[|b.stack| - 1]].content.BMap?)
  }

  predicate NeedsKey(b: Builder)
    requires InMemory(b)
  {
    TopIsMap(b) && |b.keys| < b.mapDepth
  }

  function Push(b: Builder, a: Addr): (r: Builder)
    requires InMemory(b)
    ensures a < |b.mem.nodes| ==> InMemory(r)
  {
    b.(stack := b.stack + [a], keys := if NeedsKey(b) then b.keys + [(a, false)] else b.keys)
  }

  // create_node, RegisterAnchor and Push; None when the assertion on the anchor fails.
  function Create(b: Builder, node: BuiltNode, anchor: Anchor): (r: Option<Builder>)
    requires InMemory(b)
    ensures r.Some? ==> InMemory(r.value)
  {
    if anchor != 0 && anchor != |b.mem.anchors| then None
    else
      var a := |b.mem.nodes|;
      Some(Push(b, a).(mem := Alloc(b.mem, node, anchor)))
  }

  function Alloc(m: Memory, node: BuiltNode, anchor: Anchor): Memory
  {
    Memory(m.nodes + [node], if anchor != 0 then m.anchors + [|m.nodes|] else m.anchors)
  }

  function AppendItem(m: Memory, c: Addr, a: Addr): Memory
    requires c < |m.nodes| && m.nodes[c].content.BSequence?
  {
    m.(nodes := m.nodes[c := m.nodes[c].(content := BSequence(m.nodes[c].content.items + [a]))])
  }

  function InsertEntry(m: Memory, c: Addr, k: Addr, v: Addr): Memory
    requires c < |m.nodes| && m.nodes[c].content.BMap?
  {
    m.(nodes := m.nodes[c := m.nodes[c].(content := BMap(m.nodes[c].content.entries[k := v]))])
  }

  function Pop(b: Builder): (r: Option<Builder>)
    requires InMemory(b)
    ensures r.Some? ==> InMemory(r.value)
  {
    if b.stack == [] then None
    else if |b.stack| == 1 then Some(b.(root := Some(b.stack[0]), stack := []))
    else
      var a := b.stack[|b.stack| - 1];
      var rest := b.stack[..|b.stack| - 1];
      var c := rest[|rest| - 1];
      assert c == b.stack[|b.stack| - 2] && c in b.stack;
      assert forall x :: x in rest ==> x in b.stack;
      match b.mem.nodes[c].content
      case BSequence(_) => Some(b.(stack := rest, mem := AppendItem(b.mem, c, a)))
      case BMap(_) =>
        if b.keys == [] then None
        else
          var key := b.keys[|b.keys| - 1];
          var outer := b.keys[..|b.keys| - 1];
          if key.1 then Some(b.(stack := rest, mem := InsertEntry(b.mem, c, key.0, a), keys := outer))
          else Some(b.(stack := rest, keys := outer + [(key.0, true)]))
      case _ => None
  }

  // One event; None when an assertion of the handler fails or an alias has no anchor.
  function Step(b: Builder, e: Event): (r: Option<Builder>)
    requires InMemory(b)
    ensures r.Some? ==> InMemory(r.value)
  {
    match e
    case OnDocumentStart => Some(b)
    case OnDocumentEnd => Some(b)
    case OnNull(anchor) => Leaf(b, BuiltNode("", Default, BNull), anchor)
    case OnScalar(tag, anchor, text) => Leaf(b, BuiltNode(tag, Default, BScalar(text)), anchor)
    case OnAlias(anchor) =>
      if 0 < anchor < |b.mem.anchors| then Pop(Push(b, b.mem.anchors[anchor])) else None
    case OnSequenceStart(tag, anchor, style) => Create(b, BuiltNode(tag, style, BSequence([])), anchor)
    case OnMapStart(tag, anchor, style) =>
      var r := Create(b, BuiltNode(tag, style, BMap(map[])), anchor);
      if r.Some? then Some(r.value.(mapDepth := r.value.mapDepth + 1)) else None
    case OnSequenceEnd => Pop(b)
    case OnMapEnd => if b.mapDepth > 0 then Pop(b.(mapDepth := b.mapDepth - 1)) else None
  }

  function Leaf(b: Builder, node: BuiltNode, anchor: Anchor): (r: Option<Builder>)
    requires InMemory(b)
    ensures r.Some? ==> InMemory(r.value)
  {
    var c := Create(b, node, anchor);
    if c.Some? then Pop(c.value) else None
  }

  function Feed(b: Builder, es: seq<Event>): (r: Option<Builder>)
    requires InMemory(b)
    ensures r.Some? ==> InMemory(r.value)
    decreases |es|
  {
    if es == [] then Some(b)
    else
      var r := Step(b, es[0]);
      if r.Some? then Feed(r.value, es[1..]) else None
  }

  lemma {:induction false} FeedConcat(b: Builder, es: seq<Event>, fs: seq<Event>)
    requires InMemory(b)
    ensures Feed(b, es + fs) == if Feed(b, es).Some? then Feed(Feed(b, es).value, fs) else None
    decreases |es|
  {
    if es == [] {
      assert es + fs == fs;
    } else {
      assert (es + fs)[0] == es[0] && (es + fs)[1..] == es[1..] + fs;
      var r := Step(b, es[0]);
      if r.Some? { FeedConcat(r.value, es[1..], fs); }
    }
  }
}
