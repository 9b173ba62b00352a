// The event tree NodeEvents emits for a node graph, and why it is well formed.
module Emission {
  import opened Common
  import opened NodeGraph
  import opened Events

  // AliasManager: the anchors given so far and the counter they come from.
  datatype Aliases = Aliases(byId: map<Id, Anchor>, cur: Anchor)

  function Register(am: Aliases, n: Id): Aliases
  {
    Aliases(am.byId[n := am.cur + 1], am.cur + 1)
  }

  function Lookup(am: Aliases, n: Id): Anchor
  {
    if n in am.byId then am.byId[n] else 0
  }

  // The state after registering nodes in order.
  function RegisterAll(order: seq<Id>): Aliases
  {
    if order == [] then Aliases(map[], 0) else Register(RegisterAll(order[..|order| - 1]), order[|order| - 1])
  }

  lemma RegisterNext(order: seq<Id>, n: Id)
    ensures RegisterAll(order + [n]) == Register(RegisterAll(order), n)
  {
    assert (order + [n])[..|order|] == order;
  }

  // A node's anchor is its place in the order of registration, so no two nodes share one; a node that was
  // not registered has none.
  lemma {:induction false} AnchorIsPlace(order: seq<Id>, n: Id)
    requires Distinct(order)
    ensures RegisterAll(order).cur == |order|
    ensures forall i :: 0 <= i < |order| ==> Lookup(RegisterAll(order), order[i]) == i + 1
    ensures Lookup(RegisterAll(order), n) == 0 <==> n !in order
    ensures n in RegisterAll(order).byId <==> n in order
  {
    if order != [] {
      AnchorIsPlace(order[..|order| - 1], n);
      assert order == order[..|order| - 1] + [order[|order| - 1]];
    }
  }

  datatype Emitted = Emitted(tree: Tree, seen: set<Id>, am: Aliases)
  datatype EmittedAll = EmittedAll(trees: seq<Tree>, seen: set<Id>, am: Aliases)
  datatype EmittedPairs = EmittedPairs(pairs: seq<Pair>, seen: set<Id>, am: Aliases)

  // Exactly the aliased nodes seen so far have an anchor.
  ghost predicate Assigned(aliased: set<Id>, seen: set<Id>, am: Aliases)
  {
    am.byId.Keys == seen * aliased && forall x :: x in am.byId ==> am.byId[x] != 0
  }

  lemma AssignedNext(aliased: set<Id>, seen: set<Id>, am: Aliases, n: Id)
    requires Assigned(aliased, seen, am)
    ensures Assigned(aliased, seen + {n}, if n in aliased && n !in seen then Register(am, n) else am)
  {
    assert (seen + {n}) * aliased == if n in aliased then seen * aliased + {n} else seen * aliased;
    if n in aliased && n in seen { assert n in seen * aliased; }
  }

  // Aliased nodes get an anchor where they are expanded and an alias wherever they come again.
  function Emit(g: Graph, aliased: set<Id>, n: Id, seen: set<Id>, am: Aliases): (o: Emitted)
    requires Closed(g) && n in g && seen <= g.Keys
    ensures o.seen == Walk(g, n, seen).seen
    ensures Assigned(aliased, seen, am) ==> Assigned(aliased, o.seen, o.am)
    decreases g.Keys - seen, 0
  {
    if n in seen then Emitted(TAlias(Lookup(am, n)), seen, am)
    else
      var a := if n in aliased then am.cur + 1 else 0;
      var am1 := if n in aliased then Register(am, n) else am;
      assert (seen + {n}) * aliased == if n in aliased then seen * aliased + {n} else seen * aliased;
      var node := g[n];
      match node.content
      case Null => Emitted(TNull(a), seen + {n}, am1)
      case Scalar(text) => Emitted(TScalar(node.tag, a, text), seen + {n}, am1)
      case Sequence(items) =>
        var o := EmitAll(g, aliased, items, seen + {n}, am1);
        Emitted(TSequence(node.tag, a, node.style, o.trees), o.seen, o.am)
      case Map(pairs) =>
        FlatMembers(pairs);
        var o := EmitPairs(g, aliased, pairs, seen + {n}, am1);
        Emitted(TMap(node.tag, a, node.style, o.pairs), o.seen, o.am)
  }

  function EmitAll(g: Graph, aliased: set<Id>, ns: seq<Id>, seen: set<Id>, am: Aliases): (o: EmittedAll)
    requires Closed(g) && (forall c :: c in ns ==> c in g) && seen <= g.Keys
    ensures o.seen == WalkAll(g, ns, seen).seen
    ensures Assigned(aliased, seen, am) ==> Assigned(aliased, o.seen, o.am)
    decreases g.Keys - seen, |ns|
  {
    if ns == [] then EmittedAll([], seen, am)
    else
      var o := Emit(g, aliased, ns[0], seen, am);
      var r := EmitAll(g, aliased, ns[1..], o.seen, o.am);
      EmittedAll([o.tree] + r.trees, r.seen, r.am)
  }

  function EmitPairs(g: Graph, aliased: set<Id>, ps: seq<(Id, Id)>, seen: set<Id>, am: Aliases)
    : (o: EmittedPairs)
    requires Closed(g) && (forall p :: p in ps ==> p.0 in g && p.1 in g) && seen <= g.Keys
    ensures (forall c :: c in Flat(ps) ==> c in g) && o.seen == WalkAll(g, Flat(ps), seen).seen
    ensures Assigned(aliased, seen, am) ==> Assigned(aliased, o.seen, o.am)
    decreases g.Keys - seen, |ps|
  {
    FlatMembers(ps);
    if ps == [] then EmittedPairs([], seen, am)
    else
      WalkPair(g, ps, seen);
      var k := Emit(g, aliased, ps[0].0, seen, am);
      var v := Emit(g, aliased, ps[0].1, k.seen, k.am);
      var r := EmitPairs(g, aliased, ps[1..], v.seen, v.am);
      EmittedPairs([Pair(k.tree, v.tree)] + r.pairs, r.seen, r.am)
  }

  lemma {:induction false} FlatMembers(ps: seq<(Id, Id)>)
    ensures forall c :: c in Flat(ps) <==> exists p :: p in ps && (c == p.0 || c == p.1)
    ensures forall p :: p in ps ==> p.0 in Flat(ps) && p.1 in Flat(ps)
    decreases |ps|
  {
    if ps != [] {
      FlatMembers(ps[1..]);
      forall p | p in ps ensures p.0 in Flat(ps) && p.1 in Flat(ps) {
        assert p == ps[0] || p in ps[1..];
        assert Flat(ps)[0] == ps[0].0 && Flat(ps)[1] == ps[0].1;
      }
      forall c | c in Flat(ps) ensures exists p :: p in ps && (c == p.0 || c == p.1) {
        if c in Flat(ps[1..]) {
          var p :| p in ps[1..] && (c == p.0 || c == p.1);
          assert p in ps;
        } else {
          assert ps[0] in ps && (c == ps[0].0 || c == ps[0].1);
        }
      }
    }
  }

  lemma WalkPair(g: Graph, ps: seq<(Id, Id)>, seen: set<Id>)
    requires Closed(g) && ps != [] && (forall c :: c in Flat(ps) ==> c in g) && seen <= g.Keys
    ensures ps[0].0 in g && ps[0].1 in g && forall c :: c in Flat(ps[1..]) ==> c in g
    ensures var k := Walk(g, ps[0].0, seen);
            var v := Walk(g, ps[0].1, k.seen);
            var r := WalkAll(g, Flat(ps[1..]), v.seen);
            WalkAll(g, Flat(ps), seen) == Walked(k.visits + (v.visits + r.visits), r.seen)
  {
    var f := Flat(ps);
    assert f[0] == ps[0].0 && f[1] == ps[0].1 && f[2..] == Flat(ps[1..]);
    assert forall c :: c in f[1..] ==> c in f;
    assert f[1..][1..] == f[2..] && f[1..][0] == f[1];
    var k := Walk(g, f[0], seen);
    assert WalkAll(g, f[1..], k.seen).seen == WalkAll(g, f[2..], Walk(g, f[1], k.seen).seen).seen;
  }

  // Setup counted total visits; done of them lie behind. Each node seen was visited, and the
  // visits still ahead fit, so any node that comes again was counted at least twice.
  ghost predicate InCount(total: multiset<Id>, done: multiset<Id>, ahead: multiset<Id>, seen: set<Id>)
  {
    done + ahead <= total && forall x :: x in seen ==> x in done
  }

  ghost predicate AliasedIn(aliased: set<Id>, total: multiset<Id>)
  {
    forall x :: x in aliased <==> total[x] > 1
  }

  lemma Revisited(aliased: set<Id>, total: multiset<Id>, done: multiset<Id>, n: Id, seen: set<Id>)
    requires AliasedIn(aliased, total) && InCount(total, done, multiset{n}, seen) && n in seen
    ensures n in aliased
  {
    assert (done + multiset{n})[n] == done[n] + 1;
  }

  // Visits of the first part, then visits of the rest.
  lemma SplitCount(
      g: Graph, total: multiset<Id>, done: multiset<Id>, n: Id, rest: multiset<Id>, seen: set<Id>)
    requires Closed(g) && n in g && seen <= g.Keys
    requires InCount(total, done, Walk(g, n, seen).visits + rest, seen)
    ensures var w := Walk(g, n, seen);
            InCount(total, done, w.visits, seen) && InCount(total, done + w.visits, rest, w.seen)
  {
    var w := Walk(g, n, seen);
    assert done + (w.visits + rest) == done + w.visits + rest;
    assert done + w.visits <= done + w.visits + rest;
    forall x | x in w.seen ensures x in done + w.visits {
      WalkVisits(g, n, seen, x);
      if x in seen { assert x in done; }
    }
  }

  // Expanding a node not seen before.
  lemma ExpandCount(g: Graph, total: multiset<Id>, done: multiset<Id>, n: Id, seen: set<Id>)
    requires Closed(g) && n in g && seen <= g.Keys && n !in seen
    requires InCount(total, done, Walk(g, n, seen).visits, seen)
    ensures InCount(total, done + multiset{n}, WalkAll(g, Children(g[n]), seen + {n}).visits, seen + {n})
  {
    var v := WalkAll(g, Children(g[n]), seen + {n}).visits;
    assert done + (multiset{n} + v) == done + multiset{n} + v;
    forall x | x in seen + {n} ensures x in done + multiset{n} {
      if x in seen { assert x in done; }
    }
  }
}
