// The node graphs of yaml-cpp and the depth-first walk that NodeEvents performs over them.
module NodeGraph {
  // Identity of a node: the address of its node_ref.
  type Id = nat

  datatype Style = Default | Block | Flow

  // Map pairs are listed in the iteration order of the map; two pairs may have keys that
  // share one node_ref.
  datatype Content =
    | Null
    | Scalar(text: string)
    | Sequence(items: seq<Id>)
    | Map(pairs: seq<(Id, Id)>)

  datatype Node = Node(tag: string, style: Style, content: Content)

  type Graph = map<Id, Node>

  function Flat(pairs: seq<(Id, Id)>): (ids: seq<Id>)
  {
    if pairs == [] then [] else [pairs[0].0, pairs[0].1] + Flat(pairs[1..])
  }

  function Children(n: Node): seq<Id>
  {
    match n.content
    case Sequence(items) => items
    case Map(pairs) => Flat(pairs)
    case _ => []
  }

  // Every child of a node of the graph is in the graph: there are no dangling references.
  ghost predicate Closed(g: Graph)
  {
    forall n, c :: n in g && c in Children(g[n]) ==> c in g
  }

  // s contains root and all that root leads to, and nothing else.
  ghost predicate IsReachableSet(g: Graph, root: Id, s: set<Id>)
  {
    && ClosedFrom(g, root, s)
    && forall t: set<Id> :: ClosedFrom(g, root, t) ==> s <= t
  }

  ghost predicate ClosedFrom(g: Graph, root: Id, s: set<Id>)
  {
    && root in s && s <= g.Keys
    && forall n, c :: n in s && c in Children(g[n]) ==> c in s
  }

  // The result of a walk: how often each node was visited, and which nodes were expanded.
  datatype Walked = Walked(visits: multiset<Id>, seen: set<Id>)

  function Walk(g: Graph, n: Id, seen: set<Id>): (w: Walked)
    requires Closed(g) && n in g && seen <= g.Keys
    ensures seen <= w.seen <= g.Keys && n in w.seen
    ensures n in w.visits
    decreases g.Keys - seen, 0
  {
    if n in seen then Walked(multiset{n}, seen)
    else
      var w := WalkAll(g, Children(g[n]), seen + {n});
      Walked(multiset{n} + w.visits, w.seen)
  }

  function WalkAll(g: Graph, ns: seq<Id>, seen: set<Id>): (w: Walked)
    requires Closed(g) && (forall c :: c in ns ==> c in g) && seen <= g.Keys
    ensures seen <= w.seen <= g.Keys
    ensures forall c :: c in ns ==> c in w.seen
    decreases g.Keys - seen, |ns|
  {
    if ns == [] then Walked(multiset{}, seen)
    else
      var w := Walk(g, ns[0], seen);
      var v := WalkAll(g, ns[1..], w.seen);
      assert forall c :: c in ns ==> c == ns[0] || c in ns[1..];
      Walked(w.visits + v.visits, v.seen)
  }

  lemma WalkOnce(g: Graph, n: Id, seen: set<Id>)
    requires Closed(g) && n in g && seen <= g.Keys
    ensures Walk(g, n, seen) ==
            if n in seen then Walked(multiset{n}, seen)
            else var w := WalkAll(g, Children(g[n]), seen + {n}); Walked(multiset{n} + w.visits, w.seen)
  {
  }

  lemma WalkNone(g: Graph, seen: set<Id>)
    requires Closed(g) && seen <= g.Keys
    ensures WalkAll(g, [], seen) == Walked(multiset{}, seen) && Flat([]) == []
  {
  }

  lemma WalkSome(g: Graph, ns: seq<Id>, seen: set<Id>)
    requires Closed(g) && ns != [] && (forall c :: c in ns ==> c in g) && seen <= g.Keys
    ensures var w := Walk(g, ns[0], seen);
            var v := WalkAll(g, ns[1..], w.seen);
            WalkAll(g, ns, seen) == Walked(w.visits + v.visits, v.seen)
  {
  }

  // A walk visits what it newly expands, and visits only nodes it has seen.
  lemma {:induction false} WalkVisits(g: Graph, n: Id, seen: set<Id>, x: Id)
    requires Closed(g) && n in g && seen <= g.Keys
    ensures x in Walk(g, n, seen).seen - seen ==> x in Walk(g, n, seen).visits
    ensures x in Walk(g, n, seen).visits ==> x in Walk(g, n, seen).seen
    decreases g.Keys - seen, 0
  {
    if n !in seen { WalkAllVisits(g, Children(g[n]), seen + {n}, x); }
  }

  lemma {:induction false} WalkAllVisits(g: Graph, ns: seq<Id>, seen: set<Id>, x: Id)
    requires Closed(g) && (forall c :: c in ns ==> c in g) && seen <= g.Keys
    ensures x in WalkAll(g, ns, seen).seen - seen ==> x in WalkAll(g, ns, seen).visits
    ensures x in WalkAll(g, ns, seen).visits ==> x in WalkAll(g, ns, seen).seen
    decreases g.Keys - seen, |ns|
  {
    if ns != [] {
      WalkVisits(g, ns[0], seen, x);
      WalkAllVisits(g, ns[1..], Walk(g, ns[0], seen).seen, x);
    }
  }
}
