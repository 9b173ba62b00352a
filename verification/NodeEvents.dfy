// NodeEvents: counts the references of a node graph, then emits it; and Clone on top of both.
module NodeEvents {
  import opened Common
  import opened NodeGraph
  import opened Events
  import opened BuilderModel
  import opened Emission
  import opened BuilderTheorem
  import opened CloneTheorem
  import opened NB = NodeBuilder

  class AliasManager {
    var anchorByIdentity: map<Id, Anchor>
    var curAnchor: Anchor
    ghost var order: seq<Id> // the registered nodes

    ghost predicate Valid()
      reads this
    {
      Distinct(order) && State() == RegisterAll(order)
    }

    function State(): Aliases
      reads this
    {
      Aliases(anchorByIdentity, curAnchor)
    }

    constructor ()
      ensures Valid() && order == [] && State() == Aliases(map[], 0)
    {
      anchorByIdentity, curAnchor, order := map[], 0, [];
    }

    method RegisterReference(n: Id)
      requires Valid() && n !in anchorByIdentity
      modifies this
      ensures Valid() && order == old(order) + [n] && State() == Register(old(State()), n)
    {
      AnchorIsPlace(order, n);
      RegisterNext(order, n);
      order := order + [n];
      curAnchor := curAnchor + 1;
      anchorByIdentity := anchorByIdentity[n := curAnchor];
    }

    // A node's anchor is its place in the order of registration; a node not registered has none.
    function LookupAnchor(n: Id): (a: Anchor)
      requires Valid()
      reads this
      ensures a == 0 <==> n !in order
      ensures a != 0 ==> a <= |order| && order[a - 1] == n
      ensures a == Lookup(State(), n)
    {
      AnchorIsPlace(order, n);
      assert forall i :: 0 <= i < |order| && order[i] == n ==> Lookup(State(), n) == i + 1;
      if n in anchorByIdentity then anchorByIdentity[n] else 0
    }
  }

  class NodeEvents {
    const g: Graph
    const root: Option<Id> // None is an invalid Node
    var refCount: map<Id, int>
    ghost var visits: multiset<Id>

    ghost predicate Valid()
      reads this
    {
      Closed(g) && (root.Some? ==> root.value in g) && refCount.Keys <= g.Keys && Counted()
    }

    // refCount is visits as a map.
    ghost predicate Counted()
      reads this
    {
      && (forall x :: x in visits <==> x in refCount)
      && (forall x :: x in refCount ==> refCount[x] == visits[x])
    }

    constructor (g: Graph, root: Option<Id>)
      requires Closed(g) && (root.Some? ==> root.value in g)
      ensures this.g == g && this.root == root && Valid()
      ensures root.Some? ==> visits == Walk(g, root.value, {}).visits
    {
      this.g, this.root := g, root;
      refCount, visits := map[], multiset{};
      new;
      if root.Some? {
        assert refCount.Keys == {};
        Setup(root.value);
        assert multiset{} + Walk(g, root.value, {}).visits == Walk(g, root.value, {}).visits;
      }
    }

    method CountReference(n: Id)
      requires Valid() && n in g
      modifies this
      ensures Valid() && visits == old(visits) + multiset{n}
      ensures refCount.Keys == old(refCount.Keys) + {n}
      ensures refCount[n] > 1 <==> n in old(refCount)
    {
      ghost var before := visits;
      var count := if n in refCount then refCount[n] else 0;
      refCount := refCount[n := count + 1];
      visits := visits + multiset{n};
      assert n in before ==> before[n] > 0;
      forall x ensures x in visits <==> x in refCount {
        assert visits[x] == before[x] + if x == n then 1 else 0;
        assert x in before <==> before[x] > 0;
      }
    }

    // Counts every edge of the walk, and expands each node once.
    method Setup(n: Id)
      requires Valid() && n in g
      modifies this
      ensures Valid()
      ensures refCount.Keys == Walk(g, n, old(refCount.Keys)).seen
      ensures visits == old(visits) + Walk(g, n, old(refCount.Keys)).visits
      decreases g.Keys - refCount.Keys
    {
      hide Walk, WalkAll, Flat, Counted;
      ghost var seen := refCount.Keys;
      ghost var w := Walk(g, n, seen);
      WalkOnce(g, n, seen);
      CountReference(n);
      if refCount[n] > 1 {
        return;
      }
      assert visits + (w.visits - multiset{n}) == old(visits) + w.visits;
      WalkNone(g, refCount.Keys);
      if g[n].content.Sequence? {
        var items := g[n].content.items;
        assert items[0..] == items;
        for i := 0 to |items|
          invariant Valid() && refCount.Keys >= seen + {n}
          invariant visits + WalkAll(g, items[i..], refCount.Keys).visits == old(visits) + w.visits
          invariant WalkAll(g, items[i..], refCount.Keys).seen == w.seen
        {
          assert items[i..][0] == items[i] && items[i..][1..] == items[i + 1..];
          WalkSome(g, items[i..], refCount.Keys);
          Setup(items[i]);
        }
        WalkNone(g, refCount.Keys);
      } else if g[n].content.Map? {
        var pairs := g[n].content.pairs;
        FlatMembers(pairs);
        assert pairs[0..] == pairs;
        for i := 0 to |pairs|
          invariant Valid() && refCount.Keys >= seen + {n}
          invariant forall c :: c in Flat(pairs[i..]) ==> c in g
          invariant visits + WalkAll(g, Flat(pairs[i..]), refCount.Keys).visits == old(visits) + w.visits
          invariant WalkAll(g, Flat(pairs[i..]), refCount.Keys).seen == w.seen
        {
          assert pairs[i..][0] == pairs[i] && pairs[i..][1..] == pairs[i + 1..];
          WalkPair(g, pairs[i..], refCount.Keys);
          Setup(pairs[i].0);
          Setup(pairs[i].1);
        }
        WalkNone(g, refCount.Keys);
      }
    }

    predicate IsAliased(n: Id)
      reads this
    {
      n in refCount && refCount[n] > 1
    }

    // The walk of EmitNode is the walk of Setup, so it ends, and what it sends is the tree of Emission.Emit.
    method EmitNode(n: Id, handler: NodeBuilder, am: AliasManager, ghost seen: set<Id>, ghost done: multiset<Id>)
      requires Valid() && n in g && seen <= g.Keys
      requires InCount(visits, done, Walk(g, n, seen).visits, seen)
      requires Assigned(AliasedNodes(visits), seen, am.State()) && am.Valid()
      requires InMemory(handler.State())
      requires Feed(handler.State(), Flatten(Emit(g, AliasedNodes(visits), n, seen, am.State()).tree)).Some?
      modifies handler, am
      ensures InMemory(handler.State()) && am.Valid()
      ensures var o := Emit(g, AliasedNodes(visits), n, seen, old(am.State()));
              am.State() == o.am && Some(handler.State()) == Feed(old(handler.State()), Flatten(o.tree))
              && handler.received == old(handler.received) + Flatten(o.tree)
      decreases g.Keys - seen, 1
    {
      hide Walk, WalkAll, InCount, Step, Feed, EmitAll, EmitPairs, FlattenAll, FlattenPairs, Counted, Assigned;
      hide InMemory, RegisterAll;
      ghost var before := handler.State();
      ghost var tree := Emit(g, AliasedNodes(visits), n, seen, am.State()).tree;
      AliasedExactly(n, seen, done, am.State());
      AssignedNext(AliasedNodes(visits), seen, am.State(), n);
      if |Flatten(tree)| == 1 { assert Flatten(tree) == [Flatten(tree)[0]]; FeedOne(before, Flatten(tree)[0]); }
      var anchor := 0;
      if IsAliased(n) {
        anchor := am.LookupAnchor(n);
        if anchor != 0 {
          handler.OnAlias(anchor);
          return;
        }
        am.RegisterReference(n);
        anchor := am.LookupAnchor(n);
      }
      ExpandCount(g, visits, done, n, seen);
      match g[n].content
      case Null => handler.OnNull(anchor);
      case Scalar(text) => handler.OnScalar(g[n].tag, anchor, text);
      case Sequence(items) =>
        ghost var start := Event.OnSequenceStart(tree.tag, anchor, tree.style);
        FeedStart(before, start, FlattenAll(tree.items), Event.OnSequenceEnd);
        Bracketed(handler.received, start, FlattenAll(tree.items), Event.OnSequenceEnd);
        handler.OnSequenceStart(g[n].tag, anchor, g[n].style);
        EmitSequence(items, handler, am, seen + {n}, done + multiset{n});
      case Map(pairs) =>
        ghost var start := Event.OnMapStart(tree.tag, anchor, tree.style);
        FeedStart(before, start, FlattenPairs(tree.pairs), Event.OnMapEnd);
        Bracketed(handler.received, start, FlattenPairs(tree.pairs), Event.OnMapEnd);
        handler.OnMapStart(g[n].tag, anchor, g[n].style);
        FlatMembers(pairs);
        EmitMap(pairs, handler, am, seen + {n}, done + multiset{n});
    }

    // The node is aliased if it comes again, and has an anchor if it is aliased and came before.
    lemma AliasedExactly(n: Id, seen: set<Id>, done: multiset<Id>, am: Aliases)
      requires Valid() && n in g && seen <= g.Keys
      requires InCount(visits, done, Walk(g, n, seen).visits, seen) && Assigned(AliasedNodes(visits), seen, am)
      ensures IsAliased(n) <==> n in AliasedNodes(visits)
      ensures n in seen ==> n in AliasedNodes(visits)
      ensures n in AliasedNodes(visits) ==> (Lookup(am, n) != 0 <==> n in seen) && (n in am.byId <==> n in seen)
    {
      assert AliasedIn(AliasedNodes(visits), visits);
      if n in seen {
        WalkOnce(g, n, seen);
        Revisited(AliasedNodes(visits), visits, done, n, seen);
      }
      assert n in seen * AliasedNodes(visits) <==> n in am.byId.Keys;
    }

    // The loop over the items of a sequence, and its end event.
    method EmitSequence(
        items: seq<Id>, handler: NodeBuilder, am: AliasManager, ghost seen: set<Id>, ghost done: multiset<Id>)
      requires Valid() && (forall x :: x in items ==> x in g) && seen <= g.Keys
      requires InCount(visits, done, WalkAll(g, items, seen).visits, seen)
      requires Assigned(AliasedNodes(visits), seen, am.State()) && am.Valid()
      requires InMemory(handler.State())
      requires var o := EmitAll(g, AliasedNodes(visits), items, seen, am.State());
               Feed(handler.State(), FlattenAll(o.trees) + [Event.OnSequenceEnd]).Some?
      modifies handler, am
      ensures InMemory(handler.State()) && am.Valid()
      ensures var o := EmitAll(g, AliasedNodes(visits), items, seen, old(am.State()));
              am.State() == o.am
              && Some(handler.State()) == Feed(old(handler.State()), FlattenAll(o.trees) + [Event.OnSequenceEnd])
              && handler.received == old(handler.received) + (FlattenAll(o.trees) + [Event.OnSequenceEnd])
      decreases g.Keys - seen, 2
    {
      hide Walk, InCount, Step, Feed, Emit, Flatten, Counted, Assigned;
      ghost var al := AliasedNodes(visits);
      ghost var s, d := seen, done;
      ghost var o := EmitAll(g, al, items, seen, am.State());
      ghost var goal := Feed(handler.State(), FlattenAll(o.trees) + [Event.OnSequenceEnd]);
      ghost var all := handler.received + (FlattenAll(o.trees) + [Event.OnSequenceEnd]);
      assert items[0..] == items;
      for i := 0 to |items|
        invariant seen <= s <= g.Keys && Assigned(al, s, am.State()) && am.Valid() && InMemory(handler.State())
        invariant InCount(visits, d, WalkAll(g, items[i..], s).visits, s)
        invariant var r := EmitAll(g, al, items[i..], s, am.State());
                  r.am == o.am && Feed(handler.State(), FlattenAll(r.trees) + [Event.OnSequenceEnd]) == goal
                  && handler.received + (FlattenAll(r.trees) + [Event.OnSequenceEnd]) == all
      {
        var rest := items[i..];
        assert rest[0] == items[i] && rest[1..] == items[i + 1..];
        ghost var w := Walk(g, items[i], s);
        SplitCount(g, visits, d, items[i], WalkAll(g, rest[1..], w.seen).visits, s);
        ghost var t := Emit(g, al, items[i], s, am.State());
        FeedFirst(handler.State(), t.tree, EmitAll(g, al, rest[1..], t.seen, t.am).trees, Event.OnSequenceEnd);
        EmitNode(items[i], handler, am, s, d);
        s, d := t.seen, d + w.visits;
      }
      assert FlattenAll([]) + [Event.OnSequenceEnd] == [Event.OnSequenceEnd];
      FeedOne(handler.State(), Event.OnSequenceEnd);
      handler.OnSequenceEnd();
    }

    // The loop over the pairs of a map, and its end event.
    method EmitMap(
        pairs: seq<(Id, Id)>, handler: NodeBuilder, am: AliasManager, ghost seen: set<Id>, ghost done: multiset<Id>)
      requires Ahead(pairs, handler, am, seen, done)
      modifies handler, am
      ensures InMemory(handler.State()) && am.Valid()
      ensures var o := EmitPairs(g, AliasedNodes(visits), pairs, seen, old(am.State()));
              am.State() == o.am
              && Some(handler.State()) == Feed(old(handler.State()), FlattenPairs(o.pairs) + [Event.OnMapEnd])
              && handler.received == old(handler.received) + (FlattenPairs(o.pairs) + [Event.OnMapEnd])
      decreases g.Keys - seen, 3
    {
      hide Walk, WalkAll, Flat, InCount, Step, Feed, Emit, Flatten, Counted, Assigned;
      ghost var s, d := seen, done;
      ghost var goal := Outcome(pairs, handler, am, seen);
      assert pairs[0..] == pairs;
      for i := 0 to |pairs|
        invariant seen <= s && Ahead(pairs[i..], handler, am, s, d)
        invariant goal == Outcome(pairs[i..], handler, am, s)
      {
        assert pairs[i..][1..] == pairs[i + 1..] && pairs[i..][0] == pairs[i];
        s, d := EmitPair(pairs[i..], handler, am, s, d);
      }
      assert FlattenPairs([]) + [Event.OnMapEnd] == [Event.OnMapEnd];
      FeedOne(handler.State(), Event.OnMapEnd);
      handler.OnMapEnd();
    }

    // What EmitMap needs in front of the pairs that are still to come.
    ghost predicate Ahead(
        pairs: seq<(Id, Id)>, handler: NodeBuilder, am: AliasManager, seen: set<Id>, done: multiset<Id>)
      reads this, handler, am
    {
      && Valid() && (forall p :: p in pairs ==> p.0 in g && p.1 in g) && seen <= g.Keys
      && (forall x :: x in Flat(pairs) ==> x in g)
      && InCount(visits, done, WalkAll(g, Flat(pairs), seen).visits, seen)
      && Assigned(AliasedNodes(visits), seen, am.State()) && am.Valid()
      && InMemory(handler.State())
      && var o := EmitPairs(g, AliasedNodes(visits), pairs, seen, am.State());
         Feed(handler.State(), FlattenPairs(o.pairs) + [Event.OnMapEnd]).Some?
    }

    // Where EmitMap will have led: anchors, builder and events, taken from here.
    ghost function Outcome(pairs: seq<(Id, Id)>, handler: NodeBuilder, am: AliasManager, seen: set<Id>)
      : (Aliases, Option<Builder>, seq<Event>)
      requires Valid() && (forall p :: p in pairs ==> p.0 in g && p.1 in g) && seen <= g.Keys
      requires InMemory(handler.State())
      reads this, handler, am
    {
      var o := EmitPairs(g, AliasedNodes(visits), pairs, seen, am.State());
      var es := FlattenPairs(o.pairs) + [Event.OnMapEnd];
      (o.am, Feed(handler.State(), es), handler.received + es)
    }

    // One pair of the rest.
    method EmitPair(
        rest: seq<(Id, Id)>, handler: NodeBuilder, am: AliasManager, ghost seen: set<Id>, ghost done: multiset<Id>)
      returns (ghost s: set<Id>, ghost d: multiset<Id>)
      requires rest != [] && Ahead(rest, handler, am, seen, done)
      modifies handler, am
      ensures seen <= s && Ahead(rest[1..], handler, am, s, d)
      ensures Outcome(rest[1..], handler, am, s) == old(Outcome(rest, handler, am, seen))
      decreases g.Keys - seen, 2
    {
      hide Walk, WalkAll, Flat, InCount, Step, Feed, Emit, Flatten, Counted, Assigned;
      ghost var al := AliasedNodes(visits);
      WalkPair(g, rest, seen);
      ghost var wk := Walk(g, rest[0].0, seen);
      ghost var wv := Walk(g, rest[0].1, wk.seen);
      ghost var ahead := WalkAll(g, Flat(rest[1..]), wv.seen).visits;
      SplitCount(g, visits, done, rest[0].0, wv.visits + ahead, seen);
      SplitCount(g, visits, done + wk.visits, rest[0].1, ahead, wk.seen);
      ghost var k := Emit(g, al, rest[0].0, seen, am.State());
      ghost var v := Emit(g, al, rest[0].1, k.seen, k.am);
      ghost var pairs := EmitPairs(g, al, rest[1..], v.seen, v.am).pairs;
      FeedFirstPair(handler.State(), k.tree, v.tree, pairs, Event.OnMapEnd);
      InTurn(handler.received, Flatten(k.tree), Flatten(v.tree), FlattenPairs(pairs) + [Event.OnMapEnd]);
      EmitNode(rest[0].0, handler, am, seen, done);
      EmitNode(rest[0].1, handler, am, k.seen, done + wk.visits);
      s, d := v.seen, done + wk.visits + wv.visits;
    }

    method EmitDocument(handler: NodeBuilder)
      requires Valid() && handler.State() == Empty
      requires root.Some? ==> visits == Walk(g, root.value, {}).visits
      modifies handler
      ensures if root.Some? then Some(handler.State()) == Feed(Empty, Document(CloneTree(g, root.value)))
              else handler.State() == Empty
      ensures handler.received == old(handler.received)
              + if root.Some? then Document(CloneTree(g, root.value)) else [Event.OnDocumentStart, Event.OnDocumentEnd]
    {
      hide Walk, Emit, Flatten, Feed, CloneTree, InCount, Assigned, InMemory, AliasedNodes, Closed;
      var am := new AliasManager();
      handler.OnDocumentStart();
      if root.Some? {
        AtStart(g, root.value, visits);
        EmitNode(root.value, handler, am, {}, multiset{});
      }
      handler.OnDocumentEnd();
    }

    // Before the first node nothing is counted off and no anchor is assigned; document events change nothing.
    static lemma AtStart(g: Graph, root: Id, visits: multiset<Id>)
      requires Closed(g) && root in g && visits == Walk(g, root, {}).visits
      ensures InCount(visits, multiset{}, Walk(g, root, {}).visits, {})
      ensures Assigned(AliasedNodes(visits), {}, Aliases(map[], 0)) && InMemory(Empty)
      ensures CloneTree(g, root) == Emit(g, AliasedNodes(visits), root, {}, Aliases(map[], 0)).tree
      ensures Feed(Empty, Flatten(CloneTree(g, root))).Some?
      ensures Feed(Empty, Document(CloneTree(g, root))) == Feed(Empty, Flatten(CloneTree(g, root)))
    {
      hide Walk, Emit, Flatten, Feed, Closed;
      assert multiset{} + visits == visits;
      DocumentFed(g, root);
    }

    static lemma DocumentFed(g: Graph, root: Id)
      requires Closed(g) && root in g
      ensures Feed(Empty, Flatten(CloneTree(g, root))).Some?
      ensures Feed(Empty, Document(CloneTree(g, root))) == Feed(Empty, Flatten(CloneTree(g, root)))
    {
      hide Walk, Emit, Flatten, Feed, CloneTree, Isomorphic;
      var t := CloneTree(g, root);
      var c := CloneIsIsomorphic(g, root);
      FeedStart(Empty, Event.OnDocumentStart, Flatten(t), Event.OnDocumentEnd);
      FeedConcat(Empty, Flatten(t), [Event.OnDocumentEnd]);
      FeedOne(Feed(Empty, Flatten(t)).value, Event.OnDocumentEnd);
    }
  }

  lemma FeedStart(b: Builder, s: Event, es: seq<Event>, e: Event)
    requires InMemory(b)
    ensures Feed(b, [s] + es + [e]).Some? ==>
              Step(b, s).Some? && Feed(b, [s] + es + [e]) == Feed(Step(b, s).value, es + [e])
  {
    assert ([s] + es + [e])[1..] == es + [e];
  }

  lemma Bracketed(before: seq<Event>, s: Event, es: seq<Event>, e: Event)
    ensures (before + [s]) + (es + [e]) == before + ([s] + es + [e])
  {
  }

  lemma InTurn(before: seq<Event>, es: seq<Event>, fs: seq<Event>, rest: seq<Event>)
    ensures before + es + fs + rest == before + (es + (fs + rest))
  {
  }

  lemma FeedFirst(b: Builder, t: Tree, ts: seq<Tree>, e: Event)
    requires InMemory(b)
    ensures var all := Feed(b, FlattenAll([t] + ts) + [e]);
            all.Some? ==> Feed(b, Flatten(t)).Some? && all == Feed(Feed(b, Flatten(t)).value, FlattenAll(ts) + [e])
    ensures FlattenAll([t] + ts) + [e] == Flatten(t) + (FlattenAll(ts) + [e])
  {
    hide Step;
    assert FlattenAll([t] + ts) + [e] == Flatten(t) + (FlattenAll(ts) + [e]) by { assert ([t] + ts)[1..] == ts; }
    FeedConcat(b, Flatten(t), FlattenAll(ts) + [e]);
  }

  lemma FeedFirstPair(b: Builder, k: Tree, v: Tree, ps: seq<Pair>, e: Event)
    requires InMemory(b)
    ensures var all := Feed(b, FlattenPairs([Pair(k, v)] + ps) + [e]);
            all.Some? ==>
              Feed(b, Flatten(k)).Some?
              && var b1 := Feed(b, Flatten(k)).value;
              Feed(b1, Flatten(v)).Some?
              && all == Feed(Feed(b1, Flatten(v)).value, FlattenPairs(ps) + [e])
    ensures FlattenPairs([Pair(k, v)] + ps) + [e] == Flatten(k) + (Flatten(v) + (FlattenPairs(ps) + [e]))
  {
    hide Step;
    var es := FlattenPairs(ps) + [e];
    assert FlattenPairs([Pair(k, v)] + ps) + [e] == Flatten(k) + (Flatten(v) + es) by {
      assert ([Pair(k, v)] + ps)[1..] == ps;
    }
    FeedConcat(b, Flatten(k), Flatten(v) + es);
    if Feed(b, Flatten(k)).Some? { FeedConcat(Feed(b, Flatten(k)).value, Flatten(v), es); }
  }

  // Clone: the graph is walked twice, and the builder ends with an isomorphic copy.
  method Clone(g: Graph, root: Option<Id>) returns (nodes: seq<BuiltNode>, copy: Option<Addr>)
    requires Closed(g) && (root.Some? ==> root.value in g)
    ensures root.None? ==> nodes == [] && copy.None?
    ensures root.Some? ==> copy.Some? && exists c :: Isomorphic(g, root.value, nodes, copy.value, c)
  {
    var events := new NodeEvents(g, root);
    var builder := new NodeBuilder();
    events.EmitDocument(builder);
    if root.Some? {
      ghost var c := CloneIsIsomorphic(g, root.value);
      assert Isomorphic(g, root.value, builder.State().mem.nodes, builder.State().root.value, c);
    }
    nodes, copy := builder.nodes, builder.root;
  }
}
