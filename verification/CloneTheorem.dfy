// Feeding the emitted events to the builder copies the graph.
module CloneTheorem {
  import opened NodeGraph
  import opened Events
  import opened BuilderModel
  import opened BuilderTheorem
  import opened Emission

  // A one-to-one correspondence: f maps source nodes to addresses, order maps back.
  datatype Copy = Copy(f: map<Id, Addr>, order: seq<Id>)

  ghost predicate OneToOne(c: Copy)
  {
    && (forall x :: x in c.f ==> c.f[x] < |c.order| && c.order[c.f[x]] == x)
    && (forall j :: 0 <= j < |c.order| ==> c.order[j] in c.f && c.f[c.order[j]] == j)
  }

  ghost predicate Grows(c: Copy, d: Copy)
  {
    c.order <= d.order && forall x :: x in c.f ==> x in d.f && d.f[x] == c.f[x]
  }

  function ImageItems(items: seq<Id>, f: map<Id, Addr>): (r: seq<Addr>)
    requires forall x :: x in items ==> x in f
    ensures |r| == |items| && forall i :: 0 <= i < |r| ==> r[i] == f[items[i]]
  {
    seq(|items|, i requires 0 <= i < |items| && items[i] in f => f[items[i]])
  }

  function ImageEntries(ps: seq<(Id, Id)>, f: map<Id, Addr>): map<Addr, Addr>
    requires forall p :: p in ps ==> p.0 in f && p.1 in f
  {
    if ps == [] then map[]
    else ImageEntries(ps[..|ps| - 1], f)[f[ps[|ps| - 1].0] := f[ps[|ps| - 1].1]]
  }

  ghost predicate ChildrenIn(node: Node, f: map<Id, Addr>)
  {
    match node.content
    case Sequence(items) => forall x :: x in items ==> x in f
    case Map(pairs) => forall p :: p in pairs ==> p.0 in f && p.1 in f
    case _ => true
  }

  // What a copy keeps: everything but the tag of a null node and the style of null and scalar nodes,
  // for which the events have no room.
  function Image(node: Node, f: map<Id, Addr>): BuiltNode
    requires ChildrenIn(node, f)
  {
    match node.content
    case Null => BuiltNode("", Default, BNull)
    case Scalar(text) => BuiltNode(node.tag, Default, BScalar(text))
    case Sequence(items) => BuiltNode(node.tag, node.style, BSequence(ImageItems(items, f)))
    case Map(pairs) => BuiltNode(node.tag, node.style, BMap(ImageEntries(pairs, f)))
  }

  ghost predicate Complete(g: Graph, m: Memory, c: Copy, x: Id)
  {
    && x in g && x in c.f && c.f[x] < |m.nodes|
    && ChildrenIn(g[x], c.f)
    && m.nodes[c.f[x]] == Image(g[x], c.f)
  }

  // Between two nodes of the walk: one new node for each node seen, and an anchor for each aliased one.
  ghost predicate Copying(
    aliased: set<Id>, seen: set<Id>, am: Aliases, count: nat, anchors: seq<Addr>, c: Copy)
  {
    && OneToOne(c) && |c.order| == count && c.f.Keys == seen
    && am.byId.Keys == seen * aliased && |anchors| == am.cur + 1
    && forall x :: x in am.byId ==> 0 < am.byId[x] < |anchors| && x in c.f && anchors[am.byId[x]] == c.f[x]
  }

  lemma NewAddresses(c: Copy, d: Copy, x: Id)
    requires OneToOne(c) && OneToOne(d) && Grows(c, d) && x in d.f && x !in c.f
    ensures d.f[x] >= |c.order|
  {
  }

  lemma {:induction false} ImageEntriesAgree(ps: seq<(Id, Id)>, f: map<Id, Addr>, h: map<Id, Addr>)
    requires forall p :: p in ps ==> p.0 in f && p.1 in f
    requires forall x :: x in f ==> x in h && h[x] == f[x]
    ensures ImageEntries(ps, f) == ImageEntries(ps, h)
    decreases |ps|
  {
    if ps != [] { ImageEntriesAgree(ps[..|ps| - 1], f, h); }
  }

  lemma EmptyEntries(f: map<Id, Addr>)
    ensures ImageEntries([], f) == map[]
  {
  }

  lemma ImageAgrees(node: Node, f: map<Id, Addr>, h: map<Id, Addr>)
    requires ChildrenIn(node, f)
    requires forall x :: x in f ==> x in h && h[x] == f[x]
    ensures ChildrenIn(node, h) && Image(node, f) == Image(node, h)
  {
    match node.content
    case Map(pairs) => ImageEntriesAgree(pairs, f, h);
    case Sequence(items) => assert ImageItems(items, f) == ImageItems(items, h);
    case _ =>
  }

  lemma CompleteKept(g: Graph, m: Memory, c: Copy, m': Memory, d: Copy, x: Id)
    requires Complete(g, m, c, x) && Grows(c, d)
    requires c.f[x] < |m'.nodes| && m'.nodes[c.f[x]] == m.nodes[c.f[x]]
    ensures Complete(g, m', d, x)
  {
    ImageAgrees(g[x], c.f, d.f);
  }

  lemma ExtendOneToOne(c: Copy, n: Id) returns (d: Copy)
    requires OneToOne(c) && n !in c.f
    ensures d == Copy(c.f[n := |c.order|], c.order + [n]) && OneToOne(d) && Grows(c, d)
  {
    d := Copy(c.f[n := |c.order|], c.order + [n]);
  }

  // Creating the copy of n, with an anchor if n is aliased.
  lemma Opening(
    aliased: set<Id>, n: Id, seen: set<Id>, am: Aliases, m: Memory, c: Copy, node: BuiltNode)
    returns (d: Copy)
    requires Copying(aliased, seen, am, |m.nodes|, m.anchors, c) && n !in seen
    ensures var a := if n in aliased then am.cur + 1 else 0;
            var m1 := Alloc(m, node, a);
            (a == 0 || a == |m.anchors|)
            && Copying(aliased, seen + {n}, if n in aliased then Register(am, n) else am, |m1.nodes|, m1.anchors, d)
    ensures Grows(c, d) && n in d.f && d.f[n] == |m.nodes|
  {
    d := ExtendOneToOne(c, n);
    hide OneToOne, Grows;
    assert (seen + {n}) * aliased == if n in aliased then seen * aliased + {n} else seen * aliased;
  }

  lemma {:induction false} CopyNode(
      g: Graph, aliased: set<Id>, total: multiset<Id>, done: multiset<Id>,
      n: Id, seen: set<Id>, am: Aliases, m: Memory, c: Copy) returns (d: Copy)
    requires Closed(g) && n in g && seen <= g.Keys && AliasedIn(aliased, total)
    requires InCount(total, done, Walk(g, n, seen).visits, seen)
    requires Sound(m) && Copying(aliased, seen, am, |m.nodes|, m.anchors, c)
    ensures var o := Emit(g, aliased, n, seen, am);
            WellFormed(o.tree, |m.anchors|)
            && var r := Build(m, o.tree);
            Copying(aliased, o.seen, o.am, |r.mem.nodes|, r.mem.anchors, d) && n in d.f && d.f[n] == r.addr
            && forall x :: x in o.seen - seen ==> Complete(g, r.mem, d, x)
    ensures Grows(c, d)
    decreases g.Keys - seen, 0, 1
  {
    hide Copying, InCount, AliasedIn, Complete, Grows, Emit, Build, WellFormed;
    if n in seen {
      assert Walk(g, n, seen).visits == multiset{n};
      Revisited(aliased, total, done, n, seen);
      d := CopyAlias(g, aliased, n, seen, am, m, c);
    } else {
      ExpandCount(g, total, done, n, seen);
      if g[n].content.Sequence? {
        d := CopySequence(g, aliased, total, done, n, seen, am, m, c);
      } else if g[n].content.Map? {
        d := CopyMap(g, aliased, total, done, n, seen, am, m, c);
      } else {
        d := CopyLeaf(g, aliased, n, seen, am, m, c);
      }
    }
  }

  lemma CopyAlias(
      g: Graph, aliased: set<Id>, n: Id, seen: set<Id>, am: Aliases, m: Memory, c: Copy) returns (d: Copy)
    requires Closed(g) && n in g && seen <= g.Keys && n in seen && n in aliased
    requires Sound(m) && Copying(aliased, seen, am, |m.nodes|, m.anchors, c)
    ensures var o := Emit(g, aliased, n, seen, am);
            WellFormed(o.tree, |m.anchors|)
            && var r := Build(m, o.tree);
            Copying(aliased, o.seen, o.am, |r.mem.nodes|, r.mem.anchors, d) && n in d.f && d.f[n] == r.addr
            && forall x :: x in o.seen - seen ==> Complete(g, r.mem, d, x)
    ensures Grows(c, d)
  {
    d := c;
    assert n in seen * aliased && Lookup(am, n) == am.byId[n];
  }

  lemma CopyLeaf(
      g: Graph, aliased: set<Id>, n: Id, seen: set<Id>, am: Aliases, m: Memory, c: Copy) returns (d: Copy)
    requires Closed(g) && n in g && seen <= g.Keys && n !in seen && (g[n].content.Null? || g[n].content.Scalar?)
    requires Sound(m) && Copying(aliased, seen, am, |m.nodes|, m.anchors, c)
    ensures var o := Emit(g, aliased, n, seen, am);
            WellFormed(o.tree, |m.anchors|)
            && var r := Build(m, o.tree);
            Copying(aliased, o.seen, o.am, |r.mem.nodes|, r.mem.anchors, d) && n in d.f && d.f[n] == r.addr
            && forall x :: x in o.seen - seen ==> Complete(g, r.mem, d, x)
    ensures Grows(c, d)
  {
    d := Opening(aliased, n, seen, am, m, c, Image(g[n], map[]));
    hide Copying, Grows;
  }

  // A collection is complete when its children are all there.
  lemma CollectionComplete(g: Graph, n: Id, m: Memory, m1: Memory, c1: Copy, d: Copy)
    requires n in g && n in c1.f && Grows(c1, d) && c1.f[n] < |m1.nodes| && ExtendsBut(m, m1, c1.f[n])
    requires m1.nodes[c1.f[n]].tag == g[n].tag && m1.nodes[c1.f[n]].style == g[n].style && ChildrenIn(g[n], d.f)
    requires (g[n].content.Sequence? && m.nodes[c1.f[n]].content == BSequence(ImageItems(g[n].content.items, d.f)))
             || (g[n].content.Map? && m.nodes[c1.f[n]].content == BMap(ImageEntries(g[n].content.pairs, d.f)))
    ensures Complete(g, m, d, n) && n in d.f && d.f[n] == c1.f[n]
  {
  }

  lemma {:induction false} CopySequence(
      g: Graph, aliased: set<Id>, total: multiset<Id>, done: multiset<Id>,
      n: Id, seen: set<Id>, am: Aliases, m: Memory, c: Copy) returns (d: Copy)
    requires Closed(g) && n in g && seen <= g.Keys && AliasedIn(aliased, total) && n !in seen
    requires g[n].content.Sequence?
    requires InCount(total, done + multiset{n}, WalkAll(g, Children(g[n]), seen + {n}).visits, seen + {n})
    requires Sound(m) && Copying(aliased, seen, am, |m.nodes|, m.anchors, c)
    ensures var o := Emit(g, aliased, n, seen, am);
            WellFormed(o.tree, |m.anchors|)
            && var r := Build(m, o.tree);
            Copying(aliased, o.seen, o.am, |r.mem.nodes|, r.mem.anchors, d) && n in d.f && d.f[n] == r.addr
            && forall x :: x in o.seen - seen ==> Complete(g, r.mem, d, x)
    ensures Grows(c, d)
    decreases g.Keys - seen, 0, 0
  {
    hide Copying, InCount, AliasedIn, Walk, WalkAll, EmitAll, BuildItems, WellFormedAll, Grows, Complete, OneToOne;
    var items := g[n].content.items;
    var a := if n in aliased then am.cur + 1 else 0;
    var am1 := if n in aliased then Register(am, n) else am;
    var shell := BuiltNode(g[n].tag, g[n].style, BSequence([]));
    var m1 := Alloc(m, shell, a);
    var c1 := Opening(aliased, n, seen, am, m, c, shell);
    assert ImageItems([], c1.f) == [];
    d := CopyItems(g, aliased, total, done + multiset{n}, items, seen + {n}, am1, m1, c1, |m.nodes|, []);
    assert [] + items == items;
    GrowsTransitive(c, c1, d);
    CollectionComplete(g, n, Build(m, Emit(g, aliased, n, seen, am).tree).mem, m1, c1, d);
  }

  lemma {:induction false} CopyMap(
      g: Graph, aliased: set<Id>, total: multiset<Id>, done: multiset<Id>,
      n: Id, seen: set<Id>, am: Aliases, m: Memory, c: Copy) returns (d: Copy)
    requires Closed(g) && n in g && seen <= g.Keys && AliasedIn(aliased, total) && n !in seen
    requires g[n].content.Map?
    requires InCount(total, done + multiset{n}, WalkAll(g, Children(g[n]), seen + {n}).visits, seen + {n})
    requires Sound(m) && Copying(aliased, seen, am, |m.nodes|, m.anchors, c)
    ensures var o := Emit(g, aliased, n, seen, am);
            WellFormed(o.tree, |m.anchors|)
            && var r := Build(m, o.tree);
            Copying(aliased, o.seen, o.am, |r.mem.nodes|, r.mem.anchors, d) && n in d.f && d.f[n] == r.addr
            && forall x :: x in o.seen - seen ==> Complete(g, r.mem, d, x)
    ensures Grows(c, d)
    decreases g.Keys - seen, 0, 0
  {
    hide Copying, InCount, AliasedIn, Walk, WalkAll, EmitPairs, BuildPairs, WellFormedPairs, Flat, Grows, Complete,
      OneToOne, ImageEntries;
    var pairs := g[n].content.pairs;
    FlatMembers(pairs);
    var a := if n in aliased then am.cur + 1 else 0;
    var am1 := if n in aliased then Register(am, n) else am;
    var shell := BuiltNode(g[n].tag, g[n].style, BMap(map[]));
    var m1 := Alloc(m, shell, a);
    var c1 := Opening(aliased, n, seen, am, m, c, shell);
    EmptyEntries(c1.f);
    d := CopyPairs(g, aliased, total, done + multiset{n}, pairs, seen + {n}, am1, m1, c1, |m.nodes|, []);
    assert [] + pairs == pairs;
    GrowsTransitive(c, c1, d);
    CollectionComplete(g, n, Build(m, Emit(g, aliased, n, seen, am).tree).mem, m1, c1, d);
  }

  lemma GrowsTransitive(c: Copy, d: Copy, e: Copy)
    requires Grows(c, d) && Grows(d, e)
    ensures Grows(c, e)
  {
  }

  // Nodes completed under e stay complete while only node a and later nodes change.
  lemma AllKept(g: Graph, xs: set<Id>, c: Copy, m: Memory, e: Copy, a: Addr, m': Memory, d: Copy)
    requires forall x :: x in xs ==> x !in c.f && Complete(g, m, e, x)
    requires OneToOne(c) && OneToOne(e) && Grows(c, e) && Grows(e, d) && a < |c.order| && |m.nodes| == |e.order|
    requires |m.nodes| <= |m'.nodes| && forall i :: 0 <= i < |m.nodes| && i != a ==> m'.nodes[i] == m.nodes[i]
    ensures forall x :: x in xs ==> Complete(g, m', d, x)
  {
    forall x | x in xs ensures Complete(g, m', d, x) {
      assert x in e.f && e.f[x] < |m.nodes|;
      NewAddresses(c, e, x);
      CompleteKept(g, m, e, m', d, x);
    }
  }

  lemma GrowsReflexive(c: Copy)
    ensures Grows(c, c)
  {
  }

  lemma ItemAdded(pre: seq<Id>, x: Id, c: Copy, e: Copy, m: Memory, a: Addr, b: Addr)
    requires Grows(c, e) && (forall y :: y in pre ==> y in c.f) && x in e.f && e.f[x] == b
    requires a < |m.nodes| && m.nodes[a].content == BSequence(ImageItems(pre, c.f))
    ensures forall y :: y in pre + [x] ==> y in e.f
    ensures AppendItem(m, a, b).nodes[a].content == BSequence(ImageItems(pre + [x], e.f))
  {
    assert ImageItems(pre + [x], e.f) == ImageItems(pre, c.f) + [b];
  }

  lemma EntryAdded(
    pre: seq<(Id, Id)>, p: (Id, Id), c: Copy, ck: Copy, cv: Copy, m: Memory, a: Addr, k: Addr, v: Addr)
    requires Grows(c, ck) && Grows(ck, cv) && (forall q :: q in pre ==> q.0 in c.f && q.1 in c.f)
    requires p.0 in ck.f && ck.f[p.0] == k && p.1 in cv.f && cv.f[p.1] == v
    requires a < |m.nodes| && m.nodes[a].content == BMap(ImageEntries(pre, c.f))
    ensures forall q :: q in pre + [p] ==> q.0 in cv.f && q.1 in cv.f
    ensures InsertEntry(m, a, k, v).nodes[a].content == BMap(ImageEntries(pre + [p], cv.f))
  {
    GrowsTransitive(c, ck, cv);
    ImageEntriesAgree(pre, c.f, cv.f);
    assert (pre + [p])[..|pre|] == pre;
  }

  lemma EmitAllOnce(g: Graph, aliased: set<Id>, ns: seq<Id>, seen: set<Id>, am: Aliases)
    requires Closed(g) && (forall c :: c in ns ==> c in g) && seen <= g.Keys
    ensures ns == [] ==> EmitAll(g, aliased, ns, seen, am) == EmittedAll([], seen, am)
    ensures ns != [] ==>
              var o := Emit(g, aliased, ns[0], seen, am);
              var r := EmitAll(g, aliased, ns[1..], o.seen, o.am);
              EmitAll(g, aliased, ns, seen, am) == EmittedAll([o.tree] + r.trees, r.seen, r.am)
  {
  }

  lemma {:induction false} CopyItems(
      g: Graph, aliased: set<Id>, total: multiset<Id>, done: multiset<Id>,
      ns: seq<Id>, seen: set<Id>, am: Aliases, m: Memory, c: Copy, a: Addr, pre: seq<Id>) returns (d: Copy)
    requires Closed(g) && (forall x :: x in ns ==> x in g) && seen <= g.Keys && AliasedIn(aliased, total)
    requires InCount(total, done, WalkAll(g, ns, seen).visits, seen)
    requires Sound(m) && Copying(aliased, seen, am, |m.nodes|, m.anchors, c)
    requires a < |m.nodes| && (forall x :: x in pre ==> x in c.f)
    requires m.nodes[a].content == BSequence(ImageItems(pre, c.f))
    ensures var o := EmitAll(g, aliased, ns, seen, am);
            WellFormedAll(o.trees, |m.anchors|)
            && var r := BuildItems(m, a, o.trees);
            Copying(aliased, o.seen, o.am, |r.nodes|, r.anchors, d)
            && (forall x :: x in pre + ns ==> x in d.f)
            && r.nodes[a].content == BSequence(ImageItems(pre + ns, d.f))
            && forall x :: x in o.seen - seen ==> Complete(g, r, d, x)
    ensures Grows(c, d)
    decreases g.Keys - seen, |ns|
  {
    hide OneToOne, Grows, InCount, AliasedIn, Walk, WalkAll, Emit, EmitAll, Build, BuildItems, WellFormed, Complete;
    EmitAllOnce(g, aliased, ns, seen, am);
    if ns != [] { WalkSome(g, ns, seen); } else { WalkNone(g, seen); }
    if ns == [] {
      d := c;
      GrowsReflexive(c);
      BuildNothing(m, a);
      assert pre + ns == pre;
    } else {
      var w := Walk(g, ns[0], seen);
      var rest := ns[1..];
      SplitCount(g, total, done, ns[0], WalkAll(g, rest, w.seen).visits, seen);
      var o := Emit(g, aliased, ns[0], seen, am);
      var e := CopyNode(g, aliased, total, done, ns[0], seen, am, m, c);
      var r := Build(m, o.tree);
      var m1 := AppendItem(r.mem, a, r.addr);
      ItemAdded(pre, ns[0], c, e, r.mem, a, r.addr);
      d := CopyItems(g, aliased, total, done + w.visits, rest, o.seen, o.am, m1, e, a, pre + [ns[0]]);
      assert pre + [ns[0]] + rest == pre + ns;
      var tail := EmitAll(g, aliased, rest, o.seen, o.am).trees;
      BuildItemsUnrolled(m, a, o.tree, tail);
      var last := BuildItems(m1, a, tail);
      AllKept(g, o.seen - seen, c, r.mem, e, a, last, d);
      GrowsTransitive(c, e, d);
    }
  }

  lemma {:induction false} CopyPair(
      g: Graph, aliased: set<Id>, total: multiset<Id>, done: multiset<Id>, x: Id, y: Id, ahead: multiset<Id>,
      seen: set<Id>, am: Aliases, m: Memory, c: Copy) returns (ck: Copy, cv: Copy)
    requires Closed(g) && x in g && y in g && seen <= g.Keys && AliasedIn(aliased, total)
    requires var wk := Walk(g, x, seen);
             InCount(total, done, wk.visits + (Walk(g, y, wk.seen).visits + ahead), seen)
    requires Sound(m) && Copying(aliased, seen, am, |m.nodes|, m.anchors, c)
    ensures var k := Emit(g, aliased, x, seen, am);
            WellFormed(k.tree, |m.anchors|)
            && var rk := Build(m, k.tree);
            var v := Emit(g, aliased, y, k.seen, k.am);
            WellFormed(v.tree, |rk.mem.anchors|)
            && var rv := Build(rk.mem, v.tree);
            Copying(aliased, k.seen, k.am, |rk.mem.nodes|, rk.mem.anchors, ck)
            && Copying(aliased, v.seen, v.am, |rv.mem.nodes|, rv.mem.anchors, cv)
            && x in ck.f && ck.f[x] == rk.addr && y in cv.f && cv.f[y] == rv.addr
            && (forall z :: z in k.seen - seen ==> Complete(g, rk.mem, ck, z))
            && (forall z :: z in v.seen - k.seen ==> Complete(g, rv.mem, cv, z))
    ensures Grows(c, ck) && Grows(ck, cv)
    ensures var wk := Walk(g, x, seen);
            var wv := Walk(g, y, wk.seen);
            InCount(total, done + wk.visits + wv.visits, ahead, wv.seen)
    decreases g.Keys - seen, 1, 0
  {
    hide OneToOne, Grows, InCount, AliasedIn, Walk, Emit, Build, WellFormed, Complete, Copying;
    var wk := Walk(g, x, seen);
    var wv := Walk(g, y, wk.seen);
    SplitCount(g, total, done, x, wv.visits + ahead, seen);
    SplitCount(g, total, done + wk.visits, y, ahead, wk.seen);
    var k := Emit(g, aliased, x, seen, am);
    ck := CopyNode(g, aliased, total, done, x, seen, am, m, c);
    cv := CopyNode(g, aliased, total, done + wk.visits, y, k.seen, k.am, Build(m, k.tree).mem, ck);
  }

  lemma NoPairs(next: Anchor)
    ensures WellFormedPairs([], next)
  {
  }

  lemma PairsOnce(m: Memory, a: Addr, k: Tree, v: Tree, tail: seq<Pair>)
    requires Sound(m) && WellFormed(k, |m.anchors|) && a < |m.nodes| && m.nodes[a].content.BMap?
    requires var rk := Build(m, k);
             WellFormed(v, |rk.mem.anchors|) && WellFormedPairs(tail, |Build(rk.mem, v).mem.anchors|)
    ensures WellFormedPairs([Pair(k, v)] + tail, |m.anchors|)
    ensures var rk := Build(m, k);
            var rv := Build(rk.mem, v);
            var m1 := InsertEntry(rv.mem, a, rk.addr, rv.addr);
            Sound(m1) && BuildPairs(m, a, [Pair(k, v)] + tail) == BuildPairs(m1, a, tail)
  {
    hide Build, WellFormed, Defined, BuildPairs, WellFormedPairs;
    BuildPairsUnrolled(m, a, Pair(k, v), tail);
  }

  lemma {:induction false} CopyPairs(
      g: Graph, aliased: set<Id>, total: multiset<Id>, done: multiset<Id>,
      ps: seq<(Id, Id)>, seen: set<Id>, am: Aliases, m: Memory, c: Copy, a: Addr, pre: seq<(Id, Id)>)
    returns (d: Copy)
    requires Closed(g) && (forall p :: p in ps ==> p.0 in g && p.1 in g) && seen <= g.Keys && AliasedIn(aliased, total)
    requires (forall x :: x in Flat(ps) ==> x in g) && InCount(total, done, WalkAll(g, Flat(ps), seen).visits, seen)
    requires Sound(m) && Copying(aliased, seen, am, |m.nodes|, m.anchors, c)
    requires a < |m.nodes| && (forall p :: p in pre ==> p.0 in c.f && p.1 in c.f)
    requires m.nodes[a].content == BMap(ImageEntries(pre, c.f))
    ensures var o := EmitPairs(g, aliased, ps, seen, am);
            WellFormedPairs(o.pairs, |m.anchors|)
            && var r := BuildPairs(m, a, o.pairs);
            Copying(aliased, o.seen, o.am, |r.nodes|, r.anchors, d)
            && (forall p :: p in pre + ps ==> p.0 in d.f && p.1 in d.f)
            && r.nodes[a].content == BMap(ImageEntries(pre + ps, d.f))
            && forall x :: x in o.seen - seen ==> Complete(g, r, d, x)
    ensures Grows(c, d)
    decreases g.Keys - seen, |ps|, 1
  {
    hide OneToOne, Grows, InCount, AliasedIn, Walk, WalkAll, Flat, Emit, Build, BuildPairs, BuildEntry, WellFormed,
      WellFormedPair, WellFormedPairs, Complete, ImageEntries, Assigned;
    if ps == [] {
      d := c;
      GrowsReflexive(c);
      BuildNothing(m, a);
      NoPairs(|m.anchors|);
      assert pre + ps == pre;
    } else {
      WalkPair(g, ps, seen);
      var rest := ps[1..];
      var wk := Walk(g, ps[0].0, seen);
      var wv := Walk(g, ps[0].1, wk.seen);
      var k := Emit(g, aliased, ps[0].0, seen, am);
      var v := Emit(g, aliased, ps[0].1, k.seen, k.am);
      var ck, cv := CopyPair(
        g, aliased, total, done, ps[0].0, ps[0].1, WalkAll(g, Flat(rest), wv.seen).visits, seen, am, m, c);
      var rk := Build(m, k.tree);
      var rv := Build(rk.mem, v.tree);
      var m1 := InsertEntry(rv.mem, a, rk.addr, rv.addr);
      EntryAdded(pre, ps[0], c, ck, cv, rv.mem, a, rk.addr, rv.addr);
      d := CopyPairs(g, aliased, total, done + wk.visits + wv.visits, rest, v.seen, v.am, m1, cv, a, pre + [ps[0]]);
      assert pre + [ps[0]] + rest == pre + ps;
      var tail := EmitPairs(g, aliased, rest, v.seen, v.am).pairs;
      PairsOnce(m, a, k.tree, v.tree, tail);
      var last := BuildPairs(m1, a, tail);
      GrowsTransitive(ck, cv, d);
      AllKept(g, k.seen - seen, c, rk.mem, ck, a, last, d);
      AllKept(g, v.seen - k.seen, ck, rv.mem, cv, a, last, d);
      GrowsTransitive(c, ck, d);
    }
  }

  lemma {:induction false} WalkStays(g: Graph, n: Id, seen: set<Id>, t: set<Id>)
    requires Closed(g) && n in g && seen <= g.Keys && seen <= t && ClosedFrom(g, n, t)
    ensures Walk(g, n, seen).seen <= t
    decreases g.Keys - seen, 0
  {
    if n !in seen { WalkAllStays(g, n, Children(g[n]), seen + {n}, t); }
  }

  lemma {:induction false} WalkAllStays(g: Graph, root: Id, ns: seq<Id>, seen: set<Id>, t: set<Id>)
    requires Closed(g) && seen <= g.Keys && seen <= t && ClosedFrom(g, root, t)
    requires forall x :: x in ns ==> x in g && x in t
    ensures WalkAll(g, ns, seen).seen <= t
    decreases g.Keys - seen, |ns|
  {
    if ns != [] {
      assert ClosedFrom(g, ns[0], t);
      WalkStays(g, ns[0], seen, t);
      WalkAllStays(g, root, ns[1..], Walk(g, ns[0], seen).seen, t);
    }
  }

  // The nodes counted more than once in a walk of the whole graph.
  function AliasedNodes(total: multiset<Id>): set<Id>
  {
    set x | x in total && total[x] > 1
  }

  function CloneTree(g: Graph, root: Id): Tree
    requires Closed(g) && root in g
  {
    Emit(g, AliasedNodes(Walk(g, root, {}).visits), root, {}, Aliases(map[], 0)).tree
  }

  // nodes copies exactly the part of g that root leads to, node for node.
  ghost predicate Isomorphic(g: Graph, root: Id, nodes: seq<BuiltNode>, r: Addr, c: Copy)
  {
    && OneToOne(c) && |c.order| == |nodes|
    && IsReachableSet(g, root, c.f.Keys)
    && c.f[root] == r
    && forall x :: x in c.f ==> x in g && ChildrenIn(g[x], c.f) && nodes[c.f[x]] == Image(g[x], c.f)
  }

  // Cloning any finite graph, shared or cyclic, rebuilds an isomorphic graph.
  lemma CloneIsIsomorphic(g: Graph, root: Id) returns (c: Copy)
    requires Closed(g) && root in g
    ensures var b := Feed(Empty, Document(CloneTree(g, root)));
            b.Some? && b.value.root.Some? && b.value.stack == []
            && Isomorphic(g, root, b.value.mem.nodes, b.value.root.value, c)
  {
    hide Walk, Emit, Build, Feed, Step, WellFormed;
    var total := Walk(g, root, {}).visits;
    var aliased := AliasedNodes(total);
    var am := Aliases(map[], 0);
    assert multiset{} + total == total;
    c := CopyNode(g, aliased, total, multiset{}, root, {}, am, Empty.mem, Copy(map[], []));
    var o := Emit(g, aliased, root, {}, am);
    DocumentAccepted(o.tree);
    Reached(g, root, Build(Empty.mem, o.tree).mem, o.seen, c);
  }

  lemma Reached(g: Graph, root: Id, m: Memory, s: set<Id>, c: Copy)
    requires Closed(g) && root in g && s == Walk(g, root, {}).seen
    requires c.f.Keys == s && forall x :: x in s ==> Complete(g, m, c, x)
    ensures IsReachableSet(g, root, s)
  {
    hide Complete, Walk, Image, Children;
    forall n, x | n in s && x in Children(g[n]) ensures x in s {
      ChildReached(g, m, c, n, x);
    }
    forall t: set<Id> | ClosedFrom(g, root, t) ensures s <= t {
      WalkStays(g, root, {}, t);
    }
  }

  lemma ChildReached(g: Graph, m: Memory, c: Copy, n: Id, x: Id)
    requires Complete(g, m, c, n) && x in Children(g[n])
    ensures x in c.f
  {
    match g[n].content
    case Map(pairs) => FlatMembers(pairs);
    case _ =>
  }

  // A map copy keeps every pair exactly when pairs whose keys share a node_ref also share the value;
  // otherwise a later pair replaces an earlier one.
  lemma {:induction false} EntriesLastWins(ps: seq<(Id, Id)>, c: Copy, a: Addr) returns (i: nat)
    requires OneToOne(c) && forall p :: p in ps ==> p.0 in c.f && p.1 in c.f
    ensures a in ImageEntries(ps, c.f) ==>
              LastOf(ps, i) && ps[i] in ps && a == c.f[ps[i].0] && ImageEntries(ps, c.f)[a] == c.f[ps[i].1]
    decreases |ps|
  {
    i := 0;
    if ps != [] {
      var n := |ps| - 1;
      if a == c.f[ps[n].0] {
        i := n;
      } else if a in ImageEntries(ps[..n], c.f) {
        i := EntriesLastWins(ps[..n], c, a);
        assert ps[i] == ps[..n][i] && c.order[a] == ps[i].0;
      }
    }
  }

  lemma {:induction false} EntriesPresent(ps: seq<(Id, Id)>, f: map<Id, Addr>, i: nat)
    requires (forall p :: p in ps ==> p.0 in f && p.1 in f) && i < |ps|
    ensures f[ps[i].0] in ImageEntries(ps, f)
    decreases |ps|
  {
    if i < |ps| - 1 { EntriesPresent(ps[..|ps| - 1], f, i); }
  }

  // No later pair has the same key.
  predicate LastOf(ps: seq<(Id, Id)>, i: nat)
  {
    i < |ps| && forall j :: i < j < |ps| ==> ps[j].0 != ps[i].0
  }

  predicate Functional(ps: seq<(Id, Id)>)
  {
    forall i, j :: 0 <= i < |ps| && 0 <= j < |ps| && ps[i].0 == ps[j].0 ==> ps[i].1 == ps[j].1
  }

  predicate Keeps(ps: seq<(Id, Id)>, f: map<Id, Addr>, i: nat)
    requires (forall p :: p in ps ==> p.0 in f && p.1 in f) && i < |ps|
  {
    var es := ImageEntries(ps, f);
    f[ps[i].0] in es && es[f[ps[i].0]] == f[ps[i].1]
  }

  lemma MapKeptIffFunctional(ps: seq<(Id, Id)>, c: Copy)
    requires OneToOne(c) && forall p :: p in ps ==> p.0 in c.f && p.1 in c.f
    ensures (forall i :: 0 <= i < |ps| ==> Keeps(ps, c.f, i)) <==> Functional(ps)
  {
    if Functional(ps) {
      forall i | 0 <= i < |ps| ensures Keeps(ps, c.f, i) {
        EntriesPresent(ps, c.f, i);
        var j := EntriesLastWins(ps, c, c.f[ps[i].0]);
        assert ps[i] in ps && c.order[c.f[ps[i].0]] == ps[i].0 == ps[j].0;
      }
    }
    if forall i :: 0 <= i < |ps| ==> Keeps(ps, c.f, i) {
      forall i, j | 0 <= i < |ps| && 0 <= j < |ps| && ps[i].0 == ps[j].0 ensures ps[i].1 == ps[j].1 {
        assert Keeps(ps, c.f, i) && Keeps(ps, c.f, j) && ps[i] in ps && ps[j] in ps;
        assert c.order[c.f[ps[i].1]] == ps[i].1 && c.order[c.f[ps[j].1]] == ps[j].1;
      }
    }
  }

  // The built map has every pair.
  ghost predicate PairsKept(ps: seq<(Id, Id)>, built: BuiltNode, f: map<Id, Addr>)
    requires forall p :: p in ps ==> p.0 in f && p.1 in f
  {
    built.content.BMap?
    && forall p :: p in ps ==> f[p.0] in built.content.entries && built.content.entries[f[p.0]] == f[p.1]
  }

  lemma EntriesKeptIff(ps: seq<(Id, Id)>, built: BuiltNode, c: Copy)
    requires OneToOne(c) && forall p :: p in ps ==> p.0 in c.f && p.1 in c.f
    requires built.content == BMap(ImageEntries(ps, c.f))
    ensures PairsKept(ps, built, c.f) <==> Functional(ps)
  {
    hide ImageEntries, OneToOne, Functional;
    MapKeptIffFunctional(ps, c);
    if PairsKept(ps, built, c.f) {
      forall i | 0 <= i < |ps| ensures Keeps(ps, c.f, i) { assert ps[i] in ps; }
    }
    if Functional(ps) {
      forall p | p in ps ensures c.f[p.0] in built.content.entries && built.content.entries[c.f[p.0]] == c.f[p.1] {
        var i :| 0 <= i < |ps| && ps[i] == p;
        assert Keeps(ps, c.f, i);
      }
    }
  }

  // In the clone of any graph exactly those maps have all their pairs in which one key node has one value.
  lemma CloneKeepsMapIff(g: Graph, root: Id, x: Id) returns (c: Copy)
    requires Closed(g) && root in g
    ensures var b := Feed(Empty, Document(CloneTree(g, root)));
            b.Some? && b.value.root.Some? && Isomorphic(g, root, b.value.mem.nodes, b.value.root.value, c)
            && (x in c.f && g[x].content.Map? ==>
                  (PairsKept(g[x].content.pairs, b.value.mem.nodes[c.f[x]], c.f) <==> Functional(g[x].content.pairs)))
  {
    c := CloneIsIsomorphic(g, root);
    hide Feed, CloneTree, IsReachableSet, Document, PairsKept, Functional, ImageEntries;
    if x in c.f && g[x].content.Map? {
      EntriesKeptIff(g[x].content.pairs, Feed(Empty, Document(CloneTree(g, root))).value.mem.nodes[c.f[x]], c);
    }
  }

  // A map whose two pairs have one key node.
  const SharedKey: Graph :=
    map[
      0 := Node("", Default, Map([(1, 2), (1, 3)])), 1 := Node("", Default, Scalar("k")),
      2 := Node("", Default, Scalar("v")), 3 := Node("", Default, Scalar("w"))
    ]

  // Its clone has the second value only.
  lemma SharedKeyLost() returns (c: Copy)
    ensures Closed(SharedKey)
    ensures var b := Feed(Empty, Document(CloneTree(SharedKey, 0)));
            && b.Some? && b.value.root.Some? && Isomorphic(SharedKey, 0, b.value.mem.nodes, b.value.root.value, c)
            && 0 in c.f && 1 in c.f && 2 in c.f && 3 in c.f && c.f[2] != c.f[3]
            && b.value.mem.nodes[c.f[0]].content == BMap(map[c.f[1] := c.f[3]])
  {
    SharedKeyClosed();
    c := CloneIsIsomorphic(SharedKey, 0);
    SharedKeyEntries(c);
    hide Feed, CloneTree, Document, OneToOne, ImageEntries;
  }

  lemma SharedKeyClosed()
    ensures Closed(SharedKey)
  {
    var ps: seq<(Id, Id)> := [(1, 2), (1, 3)];
    assert ps[1..] == [(1, 3)] && Flat([(1, 3)]) == [1, 3];
    assert Children(SharedKey[0]) == Flat(ps) == [1, 2, 1, 3];
  }

  lemma SharedKeyEntries(c: Copy)
    requires OneToOne(c) && 0 in c.f && ChildrenIn(SharedKey[0], c.f)
    ensures 1 in c.f && 2 in c.f && 3 in c.f && c.f[2] != c.f[3]
    ensures ImageEntries(SharedKey[0].content.pairs, c.f) == map[c.f[1] := c.f[3]]
  {
    var ps: seq<(Id, Id)> := [(1, 2), (1, 3)];
    assert SharedKey[0].content.pairs == ps && (1, 2) in ps && (1, 3) in ps;
    assert ps[..1] == [(1, 2)] && |ps[..1][..0]| == 0;
    assert c.order[c.f[2]] == 2 && c.order[c.f[3]] == 3;
    assert ImageEntries(ps[..1], c.f) == map[c.f[1] := c.f[2]];
  }
}
