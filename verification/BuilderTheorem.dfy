// What NodeBuilder makes of any balanced event stream: no assertion fails, and the builder does to
// its memory exactly what a direct recursive construction of the tree does.
module BuilderTheorem {
  import opened Common
  import opened NodeGraph
  import opened Events
  import opened BuilderModel

  predicate Sound(m: Memory)
  {
    && |m.anchors| > 0
    && forall i :: 0 < i < |m.anchors| ==> m.anchors[i] < |m.nodes|
  }

  // later keeps every node of earlier as it was.
  ghost predicate Extends(later: Memory, earlier: Memory)
  {
    |earlier.nodes| <= |later.nodes| && forall i :: 0 <= i < |earlier.nodes| ==> later.nodes[i] == earlier.nodes[i]
  }

  // later keeps every node of earlier as it was, except the items or entries of node c.
  ghost predicate ExtendsBut(later: Memory, earlier: Memory, c: Addr)
    requires c < |earlier.nodes|
  {
    && |earlier.nodes| <= |later.nodes|
    && (forall i :: 0 <= i < |earlier.nodes| && i != c ==> later.nodes[i] == earlier.nodes[i])
    && later.nodes[c].tag == earlier.nodes[c].tag && later.nodes[c].style == earlier.nodes[c].style
    && later.nodes[c].content.BSequence? == earlier.nodes[c].content.BSequence?
    && later.nodes[c].content.BMap? == earlier.nodes[c].content.BMap?
  }

  datatype Construct = Construct(mem: Memory, addr: Addr)

  // The direct construction: make the node, then its children in order, each added on return.
  function Build(m: Memory, t: Tree): (r: Construct)
    requires Sound(m) && WellFormed(t, |m.anchors|)
    ensures Sound(r.mem) && Extends(r.mem, m) && r.addr < |r.mem.nodes|
    ensures |r.mem.anchors| == |m.anchors| + Defined(t)
    decreases t, 0
  {
    match t
    case TAlias(a) => Construct(m, m.anchors[a])
    case TNull(a) => Construct(Alloc(m, BuiltNode("", Default, BNull), a), |m.nodes|)
    case TScalar(tag, a, text) => Construct(Alloc(m, BuiltNode(tag, Default, BScalar(text)), a), |m.nodes|)
    case TSequence(tag, a, style, items) =>
      Construct(BuildItems(Alloc(m, BuiltNode(tag, style, BSequence([])), a), |m.nodes|, items), |m.nodes|)
    case TMap(tag, a, style, pairs) =>
      Construct(BuildPairs(Alloc(m, BuiltNode(tag, style, BMap(map[])), a), |m.nodes|, pairs), |m.nodes|)
  }

  function BuildItems(m: Memory, c: Addr, ts: seq<Tree>): (r: Memory)
    requires Sound(m) && WellFormedAll(ts, |m.anchors|)
    requires c < |m.nodes| && m.nodes[c].content.BSequence?
    ensures Sound(r) && ExtendsBut(r, m, c)
    ensures |r.anchors| == |m.anchors| + DefinedAll(ts)
    decreases ts, 0
  {
    if ts == [] then m
    else
      var child := Build(m, ts[0]);
      BuildItems(AppendItem(child.mem, c, child.addr), c, ts[1..])
  }

  function BuildPairs(m: Memory, c: Addr, ps: seq<Pair>): (r: Memory)
    requires Sound(m) && WellFormedPairs(ps, |m.anchors|)
    requires c < |m.nodes| && m.nodes[c].content.BMap?
    ensures Sound(r) && ExtendsBut(r, m, c)
    ensures |r.anchors| == |m.anchors| + DefinedPairs(ps)
    decreases ps, 1
  {
    if ps == [] then m else BuildPairs(BuildEntry(m, c, ps[0]), c, ps[1..])
  }

  function BuildEntry(m: Memory, c: Addr, p: Pair): (r: Memory)
    requires Sound(m) && WellFormedPair(p, |m.anchors|)
    requires c < |m.nodes| && m.nodes[c].content.BMap?
    ensures Sound(r) && ExtendsBut(r, m, c)
    ensures |r.anchors| == |m.anchors| + DefinedPair(p)
    decreases p, 0
  {
    var key := Build(m, p.key);
    var value := Build(key.mem, p.value);
    InsertEntry(value.mem, c, key.addr, value.addr)
  }

  lemma BuildItemsUnrolled(m: Memory, c: Addr, t: Tree, ts: seq<Tree>)
    requires Sound(m) && WellFormed(t, |m.anchors|) && WellFormedAll(ts, |m.anchors| + Defined(t))
    requires c < |m.nodes| && m.nodes[c].content.BSequence?
    ensures WellFormedAll([t] + ts, |m.anchors|)
    ensures var child := Build(m, t);
            BuildItems(m, c, [t] + ts) == BuildItems(AppendItem(child.mem, c, child.addr), c, ts)
  {
    hide Build, WellFormed, Defined;
    assert ([t] + ts)[1..] == ts;
  }

  lemma BuildNothing(m: Memory, c: Addr)
    requires Sound(m) && c < |m.nodes|
    ensures m.nodes[c].content.BSequence? ==> BuildItems(m, c, []) == m
    ensures m.nodes[c].content.BMap? ==> BuildPairs(m, c, []) == m
  {
  }

  lemma BuildPairsUnrolled(m: Memory, c: Addr, p: Pair, ps: seq<Pair>)
    requires Sound(m) && WellFormedPair(p, |m.anchors|) && WellFormedPairs(ps, |m.anchors| + DefinedPair(p))
    requires c < |m.nodes| && m.nodes[c].content.BMap?
    ensures WellFormedPairs([p] + ps, |m.anchors|)
    ensures BuildPairs(m, c, [p] + ps) == BuildPairs(BuildEntry(m, c, p), c, ps)
  {
    hide BuildEntry, WellFormedPair, DefinedPair;
    assert ([p] + ps)[1..] == ps;
  }

  // Between the children of a node: the pending keys match the maps being built.
  predicate Ready(b: Builder)
  {
    && InMemory(b)
    && if b.stack == [] then |b.keys| == b.mapDepth
       else
         var top := b.stack[|b.stack| - 1];
         assert top in b.stack;
         match b.mem.nodes[top].content
         case BSequence(_) => |b.keys| == b.mapDepth
         case BMap(_) => |b.keys| + 1 == b.mapDepth || (|b.keys| == b.mapDepth > 0 && b.keys[|b.keys| - 1].1)
         case _ => false
  }

  // The child at r.addr, complete in r.mem, reaches the collection on top of b's stack.
  function Arrive(b: Builder, r: Construct): Option<Builder>
    requires InMemory(b) && Sound(r.mem) && |b.mem.nodes| <= |r.mem.nodes| && r.addr < |r.mem.nodes|
  {
    Pop(Push(b, r.addr).(mem := r.mem))
  }

  // A child of a sequence becomes its last item.
  lemma ArriveAtSequence(b: Builder, r: Construct, c: Addr)
    requires Ready(b) && Sound(r.mem) && Extends(r.mem, b.mem) && r.addr < |r.mem.nodes|
    requires b.stack != [] && b.stack[|b.stack| - 1] == c < |b.mem.nodes| && b.mem.nodes[c].content.BSequence?
    ensures c < |r.mem.nodes|
    ensures Arrive(b, r) == Some(b.(mem := AppendItem(r.mem, c, r.addr)))
    ensures Ready(b.(mem := AppendItem(r.mem, c, r.addr)))
  {
    assert (b.stack + [r.addr])[..|b.stack|] == b.stack;
    assert c in b.stack;
  }

  // A first child of a map waits on m_keys.
  lemma ArriveAsKey(b: Builder, r: Construct, c: Addr)
    requires Ready(b) && Sound(r.mem) && Extends(r.mem, b.mem) && r.addr < |r.mem.nodes|
    requires b.stack != [] && b.stack[|b.stack| - 1] == c < |b.mem.nodes| && b.mem.nodes[c].content.BMap?
    requires |b.keys| + 1 == b.mapDepth
    ensures Arrive(b, r) == Some(b.(mem := r.mem, keys := b.keys + [(r.addr, true)]))
    ensures Ready(b.(mem := r.mem, keys := b.keys + [(r.addr, true)]))
  {
    assert (b.stack + [r.addr])[..|b.stack|] == b.stack;
    assert (b.keys + [(r.addr, false)])[..|b.keys|] == b.keys;
    assert c in b.stack;
  }

  // The next child is inserted under exactly that key.
  lemma ArriveAsValue(b: Builder, k: Addr, r: Construct, c: Addr)
    requires Ready(b) && Sound(r.mem) && Extends(r.mem, b.mem) && r.addr < |r.mem.nodes|
    requires b.stack != [] && b.stack[|b.stack| - 1] == c < |b.mem.nodes| && b.mem.nodes[c].content.BMap?
    requires |b.keys| == b.mapDepth > 0 && b.keys[|b.keys| - 1] == (k, true)
    ensures c < |r.mem.nodes|
    ensures Arrive(b, r) == Some(b.(mem := InsertEntry(r.mem, c, k, r.addr), keys := b.keys[..|b.keys| - 1]))
    ensures Ready(b.(mem := InsertEntry(r.mem, c, k, r.addr), keys := b.keys[..|b.keys| - 1]))
  {
    assert (b.stack + [r.addr])[..|b.stack|] == b.stack;
    assert c in b.stack;
  }

  // A child that is complete where it is created arrives at once.
  lemma FeedLeaf(b: Builder, t: Tree)
    requires Ready(b) && WellFormed(t, |b.mem.anchors|) && !t.TSequence? && !t.TMap?
    ensures |Flatten(t)| == 1 && Step(b, Flatten(t)[0]) == Arrive(b, Build(b.mem, t))
  {
  }

  lemma ArriveSucceeds(b: Builder, r: Construct)
    requires Ready(b) && Sound(r.mem) && Extends(r.mem, b.mem) && r.addr < |r.mem.nodes|
    ensures Arrive(b, r).Some?
  {
    if b.stack != [] {
      var c := b.stack[|b.stack| - 1];
      assert c in b.stack;
      if b.mem.nodes[c].content.BSequence? {
        ArriveAtSequence(b, r, c);
      } else if |b.keys| + 1 == b.mapDepth {
        ArriveAsKey(b, r, c);
      } else {
        ArriveAsValue(b, b.keys[|b.keys| - 1].0, r, c);
      }
    }
  }

  // The state in which the children of a new collection are built.
  lemma Opened(b: Builder, node: BuiltNode, a: Anchor)
    requires Ready(b) && (a == 0 || a == |b.mem.anchors|)
    requires node.content.BSequence? || node.content.BMap?
    ensures var c := Create(b, node, a);
            c.Some? && c.value.mem == Alloc(b.mem, node, a) && c.value.stack == b.stack + [|b.mem.nodes|]
            && Ready(c.value.(mapDepth := if node.content.BMap? then b.mapDepth + 1 else b.mapDepth))
            && |c.value.keys| == c.value.mapDepth == b.mapDepth
  {
    if b.stack != [] { assert b.stack[|b.stack| - 1] in b.stack; }
    var c := Create(b, node, a).value;
    assert |c.keys| == b.mapDepth;
    assert c.stack[|c.stack| - 1] == |b.mem.nodes| && c.mem.nodes[|b.mem.nodes|] == node;
  }

  // Popping the collection delivers it: only its own subtree changed the memory.
  lemma Delivered(b: Builder, node: BuiltNode, a: Anchor, m: Memory)
    requires Ready(b) && (a == 0 || a == |b.mem.anchors|)
    requires Sound(m) && |b.mem.nodes| < |m.nodes| && Extends(m, b.mem)
    ensures Pop(Create(b, node, a).value.(mem := m)) == Arrive(b, Construct(m, |b.mem.nodes|))
  {
  }

  lemma {:induction false} FeedTree(b: Builder, t: Tree)
    requires Ready(b) && WellFormed(t, |b.mem.anchors|)
    ensures Feed(b, Flatten(t)) == Arrive(b, Build(b.mem, t))
    ensures Arrive(b, Build(b.mem, t)).Some?
    decreases t, 1
  {
    ArriveSucceeds(b, Build(b.mem, t));
    if t.TSequence? {
      FeedSequence(b, t);
    } else if t.TMap? {
      FeedMap(b, t);
    } else {
      FeedLeaf(b, t);
      FeedOne(b, Flatten(t)[0]);
    }
  }

  lemma {:induction false} FeedSequence(b: Builder, t: Tree)
    requires Ready(b) && WellFormed(t, |b.mem.anchors|) && t.TSequence?
    ensures Feed(b, Flatten(t)) == Arrive(b, Build(b.mem, t))
    decreases t, 0
  {
    var node := BuiltNode(t.tag, t.style, BSequence([]));
    Opened(b, node, t.anchor);
    FeedItems(Create(b, node, t.anchor).value, |b.mem.nodes|, t.items);
    CloseSequence(b, t, Build(b.mem, t).mem);
  }

  lemma {:induction false} FeedMap(b: Builder, t: Tree)
    requires Ready(b) && WellFormed(t, |b.mem.anchors|) && t.TMap?
    ensures Feed(b, Flatten(t)) == Arrive(b, Build(b.mem, t))
    decreases t, 0
  {
    var node := BuiltNode(t.tag, t.style, BMap(map[]));
    Opened(b, node, t.anchor);
    FeedPairs(Create(b, node, t.anchor).value.(mapDepth := b.mapDepth + 1), |b.mem.nodes|, t.pairs);
    CloseMap(b, t, Build(b.mem, t).mem);
  }

  lemma CloseSequence(b: Builder, t: Tree, m: Memory)
    requires Ready(b) && t.TSequence? && (t.anchor == 0 || t.anchor == |b.mem.anchors|)
    requires Sound(m) && |b.mem.nodes| < |m.nodes| && Extends(m, b.mem)
    requires var b1 := Create(b, BuiltNode(t.tag, t.style, BSequence([])), t.anchor).value;
             Feed(b1, FlattenAll(t.items)) == Some(b1.(mem := m))
    ensures Feed(b, Flatten(t)) == Arrive(b, Construct(m, |b.mem.nodes|))
  {
    hide Feed, Pop, Create, Arrive, FlattenAll, FlattenPairs;
    Opened(b, BuiltNode(t.tag, t.style, BSequence([])), t.anchor);
    var b1 := Create(b, BuiltNode(t.tag, t.style, BSequence([])), t.anchor).value;
    Delivered(b, BuiltNode(t.tag, t.style, BSequence([])), t.anchor, m);
    FeedBracketed(b, OnSequenceStart(t.tag, t.anchor, t.style), b1, FlattenAll(t.items), b1.(mem := m), OnSequenceEnd);
  }

  lemma CloseMap(b: Builder, t: Tree, m: Memory)
    requires Ready(b) && t.TMap? && (t.anchor == 0 || t.anchor == |b.mem.anchors|)
    requires Sound(m) && |b.mem.nodes| < |m.nodes| && Extends(m, b.mem)
    requires var b1 := Create(b, BuiltNode(t.tag, t.style, BMap(map[])), t.anchor).value.(mapDepth := b.mapDepth + 1);
             InMemory(b1) && Feed(b1, FlattenPairs(t.pairs)) == Some(b1.(mem := m))
    ensures Feed(b, Flatten(t)) == Arrive(b, Construct(m, |b.mem.nodes|))
  {
    hide Feed, Pop, Create, Arrive, FlattenAll, FlattenPairs;
    var node := BuiltNode(t.tag, t.style, BMap(map[]));
    Opened(b, node, t.anchor);
    var b1 := Create(b, node, t.anchor).value;
    var b2 := b1.(mapDepth := b.mapDepth + 1);
    Delivered(b, node, t.anchor, m);
    FeedBracketed(b, OnMapStart(t.tag, t.anchor, t.style), b2, FlattenPairs(t.pairs), b2.(mem := m), OnMapEnd);
    assert b2.(mem := m).(mapDepth := b.mapDepth) == b1.(mem := m);
  }

  lemma FeedOne(b: Builder, e: Event)
    requires InMemory(b)
    ensures Feed(b, [e]) == Step(b, e)
  {
    assert [e][1..] == [];
  }

  lemma FeedBracketed(b: Builder, s: Event, b1: Builder, es: seq<Event>, b2: Builder, e: Event)
    requires InMemory(b) && Step(b, s) == Some(b1) && Feed(b1, es) == Some(b2)
    ensures Feed(b, [s] + es + [e]) == Step(b2, e)
  {
    hide Step;
    FeedOne(b, s);
    FeedConcat(b, [s], es);
    FeedConcat(b, [s] + es, [e]);
    FeedOne(b2, e);
  }

  lemma {:induction false} FeedItems(b: Builder, c: Addr, ts: seq<Tree>)
    requires Ready(b) && WellFormedAll(ts, |b.mem.anchors|)
    requires b.stack != [] && b.stack[|b.stack| - 1] == c < |b.mem.nodes| && b.mem.nodes[c].content.BSequence?
    ensures Feed(b, FlattenAll(ts)) == Some(b.(mem := BuildItems(b.mem, c, ts)))
    decreases ts, 0
  {
    hide Step, Flatten, Build, WellFormed, Defined, Ready, Sound;
    ReadyIsSound(b);
    if ts != [] {
      var child := Build(b.mem, ts[0]);
      FeedItem(b, c, ts[0]);
      FeedItems(b.(mem := AppendItem(child.mem, c, child.addr)), c, ts[1..]);
      FeedConcat(b, Flatten(ts[0]), FlattenAll(ts[1..]));
    }
  }

  lemma {:induction false} FeedItem(b: Builder, c: Addr, t: Tree)
    requires Ready(b) && WellFormed(t, |b.mem.anchors|)
    requires b.stack != [] && b.stack[|b.stack| - 1] == c < |b.mem.nodes| && b.mem.nodes[c].content.BSequence?
    ensures var child := Build(b.mem, t);
            var b1 := b.(mem := AppendItem(child.mem, c, child.addr));
            Feed(b, Flatten(t)) == Some(b1) && Ready(b1)
            && |b1.mem.anchors| == |b.mem.anchors| + Defined(t)
            && c < |b1.mem.nodes| && b1.mem.nodes[c].content.BSequence?
    decreases t, 2
  {
    FeedTree(b, t);
    ArriveAtSequence(b, Build(b.mem, t), c);
  }

  lemma {:induction false} FeedPairs(b: Builder, c: Addr, ps: seq<Pair>)
    requires Ready(b) && WellFormedPairs(ps, |b.mem.anchors|) && |b.keys| + 1 == b.mapDepth
    requires b.stack != [] && b.stack[|b.stack| - 1] == c < |b.mem.nodes| && b.mem.nodes[c].content.BMap?
    ensures Feed(b, FlattenPairs(ps)) == Some(b.(mem := BuildPairs(b.mem, c, ps)))
    decreases ps, 1
  {
    hide Step;
    if ps != [] {
      FeedEntry(b, c, ps[0]);
      FeedPairs(b.(mem := BuildEntry(b.mem, c, ps[0])), c, ps[1..]);
      FeedConcat(b, FlattenPair(ps[0]), FlattenPairs(ps[1..]));
    }
  }

  lemma ReadyIsSound(b: Builder)
    requires Ready(b)
    ensures InMemory(b) && Sound(b.mem)
  {
  }

  lemma {:induction false} FeedEntry(b: Builder, c: Addr, p: Pair)
    requires Ready(b) && WellFormedPair(p, |b.mem.anchors|) && |b.keys| + 1 == b.mapDepth
    requires b.stack != [] && b.stack[|b.stack| - 1] == c < |b.mem.nodes| && b.mem.nodes[c].content.BMap?
    ensures var b1 := b.(mem := BuildEntry(b.mem, c, p));
            Feed(b, FlattenPair(p)) == Some(b1) && Ready(b1)
    decreases p, 2
  {
    hide Step, Arrive, Ready, Build, Flatten, WellFormed, Push, Pop;
    ReadyIsSound(b);
    var key := Build(b.mem, p.key);
    var b1 := b.(mem := key.mem, keys := b.keys + [(key.addr, true)]);
    FeedTree(b, p.key);
    ArriveAsKey(b, key, c);
    FeedTree(b1, p.value);
    ArriveAsValue(b1, key.addr, Build(key.mem, p.value), c);
    FeedConcat(b, Flatten(p.key), Flatten(p.value));
  }

  // Every balanced document is accepted from the initial state, and leaves stack, keys and depth empty.
  lemma DocumentAccepted(t: Tree)
    requires WellFormed(t, 1)
    ensures Feed(Empty, Document(t)) ==
            Some(Builder(Build(Empty.mem, t).mem, Some(Build(Empty.mem, t).addr), [], [], 0))
  {
    FeedTree(Empty, t);
    FeedBracketed(Empty, OnDocumentStart, Empty, Flatten(t), Feed(Empty, Flatten(t)).value, OnDocumentEnd);
  }
}
