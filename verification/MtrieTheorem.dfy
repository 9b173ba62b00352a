// The trie is a set of (prefix, pipe) pairs in a canonical form.
module MtrieTheorem {
  import opened Common
  import opened MtrieModel

  // ---------- the table ----------

  lemma {:induction false} LiveConcat(a: seq<Option<Trie>>, b: seq<Option<Trie>>)
    ensures Live(a + b) == Live(a) + Live(b)
    decreases |a|
  {
    if a == [] {
      assert a + b == b;
    } else {
      assert (a + b)[1..] == a[1..] + b;
      LiveConcat(a[1..], b);
    }
  }

  lemma {:induction false} LiveNone(a: seq<Option<Trie>>)
    ensures Live(a) == 0 <==> forall i :: 0 <= i < |a| ==> a[i].None?
    decreases |a|
  {
    if a != [] {
      LiveNone(a[1..]);
      if forall i :: 0 <= i < |a[1..]| ==> a[1..][i].None? {
        forall i | 1 <= i < |a| ensures a[i].None? { assert a[i] == a[1..][i - 1]; }
      } else {
        var i :| 0 <= i < |a[1..]| && a[1..][i].Some?;
        assert a[i + 1].Some?;
      }
    }
  }

  lemma LiveUpdate(a: seq<Option<Trie>>, i: nat, link: Option<Trie>)
    requires i < |a|
    ensures Live(a[i := link]) == Live(a) - (if a[i].Some? then 1 else 0) + (if link.Some? then 1 else 0)
  {
    assert a == a[..i] + ([a[i]] + a[i + 1..]);
    assert a[i := link] == a[..i] + ([link] + a[i + 1..]);
    LiveConcat(a[..i], [a[i]] + a[i + 1..]);
    LiveConcat(a[..i], [link] + a[i + 1..]);
    assert ([a[i]] + a[i + 1..])[1..] == a[i + 1..] == ([link] + a[i + 1..])[1..];
  }

  // The same children at the same characters.
  ghost predicate SameChildren(t: Trie, u: Trie)
  {
    && (forall c: Byte :: HasChild(t, c) <==> HasChild(u, c))
    && (forall c: Byte :: HasChild(t, c) ==> Child(t, c) == Child(u, c))
  }

  lemma GrowKeepsChildren(t: Trie, c: Byte)
    requires Canonical(t)
    ensures var u := Grow(t, c);
            SameChildren(t, u) && InTable(u, c) && u.min + |u.next| <= 256 && Live(u.next) == t.live
            && u.pipes == t.pipes && u.live == t.live
            && (u.next[0].Some? || u.min == c) && (u.next[|u.next| - 1].Some? || u.min + |u.next| - 1 == c)
  {
    CanonicalEnds(t);
    hide Grow, Live, Canonical;
    var u := Grow(t, c);
    GrowKeepsLive(t, c);
    if InTable(t, c) {
      GrowInTable(t, c);
    } else {
      GrowAt(t, c);
      forall d: Byte ensures HasChild(t, d) <==> HasChild(u, d) {}
      forall d: Byte | HasChild(t, d) ensures Child(t, d) == Child(u, d) {}
    }
  }

  lemma CanonicalEnds(t: Trie)
    requires Canonical(t)
    ensures t.min + |t.next| <= 256 && t.live == Live(t.next) && t.pipes != Some({})
    ensures t.next != [] ==> t.next[0].Some? && t.next[|t.next| - 1].Some?
  {
  }

  // Where the links of a grown table come from.
  lemma GrowAt(t: Trie, c: Byte)
    requires t.min + |t.next| <= 256 && !InTable(t, c)
    ensures var u := Grow(t, c);
            u.min == (if t.next == [] || c < t.min then c else t.min)
            && |u.next| == (if t.next == [] then 1 else if c < t.min then t.min - c + |t.next| else c + 1 - t.min)
            && u == t.(min := u.min, next := u.next) && InTable(u, c)
            && forall i :: 0 <= i < |u.next| ==>
                 u.next[i] == if t.min <= u.min + i < t.min + |t.next| then t.next[u.min + i - t.min] else None
  {
  }

  lemma GrowInTable(t: Trie, c: Byte)
    requires t.min + |t.next| <= 256 && InTable(t, c)
    ensures Grow(t, c) == t
  {
  }

  lemma InTableAt(t: Trie, c: Byte)
    ensures InTable(t, c) <==> t.min <= c < t.min + |t.next|
  {
  }

  // add, one step: the grown table, the child for the character, and the rest below it.
  lemma AddStep(t: Trie, key: Key, p: Pipe)
    requires Canonical(t) && key != []
    ensures var u := Grow(t, key[0]);
            InTable(u, key[0])
            && var child := ChildOrFresh(u, key[0]);
            var v := PutChild(u, key[0], child);
            var i := key[0] - v.min;
            InTable(v, key[0]) && v.next[i] == Some(child) && Canonical(child)
            && v.(next := v.next[i := Some(Add(child, key[1..], p))]) == Add(t, key, p)
            && (NewTopic(child, key[1..]) <==> NewTopic(t, key))
  {
    GrowKeepsChildren(t, key[0]);
    CanonicalBelow(t, key[0]);
    assert ChildOrFresh(Grow(t, key[0]), key[0]) == ChildOrFresh(t, key[0]);
    hide Canonical, Grow;
    if !HasChild(t, key[0]) { FreshTopic(key[1..]); }
  }

  lemma FreshTopic(key: Key)
    ensures NewTopic(Fresh, key)
  {
  }

  lemma GrowKeepsLive(t: Trie, c: Byte)
    requires t.min + |t.next| <= 256
    ensures Live(Grow(t, c).next) == Live(t.next)
  {
    LiveNone(Nulls(1));
    if t.next != [] && c < t.min {
      LiveConcat(Nulls(t.min - c), t.next);
      LiveNone(Nulls(t.min - c));
    } else if t.next != [] && c >= t.min + |t.next| {
      LiveConcat(t.next, Nulls(c + 1 - t.min - |t.next|));
      LiveNone(Nulls(c + 1 - t.min - |t.next|));
    }
  }

  lemma {:induction false} TrimLeftShape(min: nat, next: seq<Option<Trie>>)
    ensures var r := TrimLeft(min, next);
            min <= r.0 <= min + |next| && r.1 == next[r.0 - min..]
            && (forall i :: 0 <= i < r.0 - min ==> next[i].None?)
            && (r.1 != [] ==> r.1[0].Some?) && Live(r.1) == Live(next)
    decreases |next|
  {
    if next != [] && next[0].None? {
      TrimLeftShape(min + 1, next[1..]);
      var r := TrimLeft(min, next);
      forall i | 0 <= i < r.0 - min ensures next[i].None? {
        if i > 0 { assert next[i] == next[1..][i - 1]; }
      }
    }
  }

  lemma {:induction false} TrimRightShape(next: seq<Option<Trie>>)
    ensures var r := TrimRight(next);
            r <= next && (forall i :: |r| <= i < |next| ==> next[i].None?)
            && (r != [] ==> r[|r| - 1].Some?) && Live(r) == Live(next)
    decreases |next|
  {
    if next != [] && next[|next| - 1].None? {
      TrimRightShape(next[..|next| - 1]);
      assert next == next[..|next| - 1] + [None];
      LiveConcat(next[..|next| - 1], [None]);
    }
  }

  lemma TrimKeepsChildren(t: Trie)
    requires t.min + |t.next| <= 256
    ensures var u := Trim(t);
            SameChildren(t, u) && u.min + |u.next| <= 256 && Live(u.next) == Live(t.next)
            && u.pipes == t.pipes && u.live == t.live
            && (u.next == [] ==> u.min == 0)
            && (u.next != [] ==> u.next[0].Some? && u.next[|u.next| - 1].Some?)
  {
    TrimLeftShape(t.min, t.next);
    var l := TrimLeft(t.min, t.next);
    TrimRightShape(l.1);
    var r := TrimRight(l.1);
    var u := Trim(t);
    var d := l.0 - t.min;
    forall c: Byte ensures HasChild(t, c) <==> HasChild(u, c) {
      if HasChild(t, c) { assert l.1[c - t.min - d] == t.next[c - t.min]; }
    }
  }

  // Trimming, given where the first and last children are.
  lemma TrimExactly(t: Trie, lo: nat, hi: nat)
    requires lo < hi <= |t.next| && t.next[lo].Some? && t.next[hi - 1].Some?
    requires forall i :: 0 <= i < lo || hi <= i < |t.next| ==> t.next[i].None?
    ensures Trim(t) == t.(min := t.min + lo, next := t.next[lo..hi])
  {
    TrimLeftTo(t.min, t.next, lo);
    TrimRightTo(t.next[lo..], hi - lo);
    assert t.next[lo..][..hi - lo] == t.next[lo..hi];
  }

  lemma {:induction false} TrimLeftTo(min: nat, next: seq<Option<Trie>>, lo: nat)
    requires lo < |next| && next[lo].Some? && forall i :: 0 <= i < lo ==> next[i].None?
    ensures TrimLeft(min, next) == (min + lo, next[lo..])
    decreases lo
  {
    if lo > 0 {
      TrimLeftTo(min + 1, next[1..], lo - 1);
      assert next[1..][lo - 1..] == next[lo..];
    }
  }

  lemma {:induction false} TrimRightTo(next: seq<Option<Trie>>, hi: nat)
    requires 0 < hi <= |next| && next[hi - 1].Some? && forall i :: hi <= i < |next| ==> next[i].None?
    ensures TrimRight(next) == next[..hi]
    decreases |next|
  {
    if hi < |next| {
      TrimRightTo(next[..|next| - 1], hi);
      assert next[..|next| - 1][..hi] == next[..hi];
    } else {
      assert next[..hi] == next;
    }
  }

  lemma TrimNothing(t: Trie)
    requires forall i :: 0 <= i < |t.next| ==> t.next[i].None?
    ensures Trim(t) == t.(min := 0, next := [])
  {
    TrimLeftShape(t.min, t.next);
    TrimRightShape(TrimLeft(t.min, t.next).1);
  }

  lemma {:induction false} LiveOne(a: seq<Option<Trie>>, i: nat)
    requires i < |a| && a[i].Some? && Live(a) == 1
    ensures forall j :: 0 <= j < |a| && j != i ==> a[j].None?
    decreases |a|
  {
    if i == 0 {
      LiveNone(a[1..]);
      forall j | 1 <= j < |a| ensures a[j].None? { assert a[j] == a[1..][j - 1]; }
    } else {
      LiveNone(a[1..]);
      assert a[1..][i - 1].Some?;
      LiveOne(a[1..], i - 1);
      forall j | 0 <= j < |a| && j != i ensures a[j].None? { if j > 0 { assert a[j] == a[1..][j - 1]; } }
    }
  }

  lemma LiveSingle(a: seq<Option<Trie>>)
    requires |a| == 1
    ensures Live(a) <= 1
  {
  }

  // Two ends that are children, or an end and another child, are two children.
  lemma LiveEnds(a: seq<Option<Trie>>, i: nat)
    requires |a| > 1 && i < |a| && a[0].Some? && a[|a| - 1].Some? && a[i].Some?
    ensures Live(a) > 1 && exists k :: 0 <= k < |a| && k != i && a[k].Some?
  {
    var k := if i == 0 then |a| - 1 else 0;
    assert a[k].Some?;
    if Live(a) <= 1 {
      LiveNone(a);
      LiveOne(a, i);
    }
  }

  // rm, one step: the child replaced, or unlinked and the table trimmed.
  lemma RemoveStep(t: Trie, key: Key, p: Pipe)
    requires Canonical(t) && key != []
    ensures HasChild(t, key[0]) ==>
              var i := key[0] - t.min;
              var child := Child(t, key[0]);
              var u := t.(next := t.next[i := Some(Remove(child, key[1..], p))]);
              Canonical(child) && t.next[0].Some? && t.next[|t.next| - 1].Some? && t.live == Live(t.next) > 0
              && t.min + |t.next| <= 256
              && (NewTopic(t, key) || Has(t, key, p) ==> NewTopic(child, key[1..]) || Has(child, key[1..], p))
              && Dropped(t, key, p) == Dropped(child, key[1..], p)
              && Live(u.next) == t.live
              && Remove(t, key, p) ==
                 if Redundant(Remove(child, key[1..], p)) then Trim(u.(live := u.live - 1, next := u.next[i := None]))
                 else u
    ensures !HasChild(t, key[0]) ==> Remove(t, key, p) == t && !Dropped(t, key, p)
  {
    hide Trim, Live;
    if HasChild(t, key[0]) {
      var i := key[0] - t.min;
      LiveNone(t.next);
      var link := Some(Remove(Child(t, key[0]), key[1..], p));
      LiveUpdate(t.next, i, link);
      assert t.next[i := link][i := None] == t.next[i := None];
    }
  }

  // Canonical form, read off the children.
  lemma CanonicalChild(t: Trie, c: Byte)
    requires Canonical(t) && HasChild(t, c)
    ensures Canonical(Child(t, c)) && !Redundant(Child(t, c))
  {
  }

  lemma CanonicalBelow(t: Trie, c: Byte)
    requires Canonical(t)
    ensures Canonical(ChildOrFresh(t, c)) && t.min + |t.next| <= 256
  {
  }

  // A trie that has no node below and no pipes is redundant, and only such a trie.
  lemma {:induction false} NotRedundant(t: Trie) returns (key: Key, p: Pipe)
    requires Canonical(t) && !Redundant(t)
    ensures Has(t, key, p)
    decreases t
  {
    if t.pipes.Some? {
      assert t.pipes.value != {};
      p :| p in t.pipes.value;
      key := [];
    } else {
      LiveNone(t.next);
      var i :| 0 <= i < |t.next| && t.next[i].Some?;
      var c: Byte := t.min + i;
      assert HasChild(t, c) && Child(t, c) == t.next[i].value;
      key, p := NotRedundant(Child(t, c));
      key := [c] + key;
    }
  }

  // ---------- add ----------

  lemma FreshHas(key: Key, p: Pipe)
    ensures !Has(Fresh, key, p) && Canonical(Fresh)
  {
  }

  lemma {:induction false} AddCanonical(t: Trie, key: Key, p: Pipe)
    requires Canonical(t)
    ensures Canonical(Add(t, key, p)) && !Redundant(Add(t, key, p))
    decreases key
  {
    if key != [] {
      var c := key[0];
      var u := Grow(t, c);
      GrowKeepsChildren(t, c);
      FreshHas([], p);
      AddCanonical(ChildOrFresh(t, c), key[1..], p);
      var child := Add(ChildOrFresh(t, c), key[1..], p);
      PutChildCanonical(t, c, child);
    }
  }

  lemma ChildOfSame(t: Trie, u: Trie, i: nat)
    requires Canonical(t) && SameChildren(t, u) && u.min + |u.next| <= 256 && i < |u.next| && u.next[i].Some?
    ensures !Redundant(u.next[i].value) && Canonical(u.next[i].value)
  {
    var d: Byte := u.min + i;
    assert HasChild(u, d) && Child(u, d) == u.next[i].value;
    hide Canonical, Redundant;
    CanonicalChild(t, d);
  }

  lemma PutChildCanonical(t: Trie, c: Byte, child: Trie)
    requires Canonical(t) && Canonical(child) && !Redundant(child)
    ensures var u := Grow(t, c);
            InTable(u, c) && var r := PutChild(u, c, child); Canonical(r) && !Redundant(r)
  {
    GrowKeepsChildren(t, c);
    CanonicalEnds(t);
    hide Grow, Canonical, SameChildren, Live;
    var u := Grow(t, c);
    PutLive(u, c, child);
    PutChildren(t, u, c, child);
    IsCanonical(PutChild(u, c, child));
  }

  lemma PutLive(u: Trie, c: Byte, child: Trie)
    requires InTable(u, c) && u.live == Live(u.next)
    ensures var r := PutChild(u, c, child); r.live == Live(r.next) && r.live > 0
  {
    var r := PutChild(u, c, child);
    LiveUpdate(u.next, c - u.min, Some(child));
    assert r.next[c - u.min].Some?;
    LiveNone(r.next);
  }

  lemma PutChildren(t: Trie, u: Trie, c: Byte, child: Trie)
    requires Canonical(t) && SameChildren(t, u) && u.min + |u.next| <= 256 && InTable(u, c)
    requires Canonical(child) && !Redundant(child)
    ensures var next := PutChild(u, c, child).next;
            forall i :: 0 <= i < |next| && next[i].Some? ==> !Redundant(next[i].value) && Canonical(next[i].value)
  {
    hide Canonical, SameChildren, Redundant;
    forall i | 0 <= i < |u.next| && u.next[i].Some? ensures !Redundant(u.next[i].value) && Canonical(u.next[i].value) {
      ChildOfSame(t, u, i);
    }
  }

  lemma IsCanonical(r: Trie)
    requires r.pipes != Some({}) && r.live == Live(r.next) && r.min + |r.next| <= 256
    requires r.next != [] && r.next[0].Some? && r.next[|r.next| - 1].Some?
    requires forall i :: 0 <= i < |r.next| && r.next[i].Some? ==>
               !Redundant(r.next[i].value) && Canonical(r.next[i].value)
    ensures Canonical(r)
  {
  }

  // add makes exactly one pair a member.
  lemma {:induction false} AddHas(t: Trie, key: Key, p: Pipe, k: Key, q: Pipe)
    requires Canonical(t)
    ensures Has(Add(t, key, p), k, q) <==> Has(t, k, q) || (k == key && q == p)
    decreases key
  {
    hide Live;
    if key != [] {
      var c := key[0];
      var u := Grow(t, c);
      GrowKeepsChildren(t, c);
      var r := Add(t, key, p);
      if k != [] {
        if k[0] == c {
          CanonicalBelow(t, c);
          assert HasChild(r, c) && Child(r, c) == Add(ChildOrFresh(t, c), key[1..], p);
          FreshHas(k[1..], q);
          AddHas(ChildOrFresh(t, c), key[1..], p, k[1..], q);
          assert k == key <==> k[1..] == key[1..] by {
            assert k == [c] + k[1..] && key == [c] + key[1..];
          }
        } else {
          assert HasChild(r, k[0]) <==> HasChild(u, k[0]);
          assert HasChild(u, k[0]) <==> HasChild(t, k[0]);
        }
      }
    }
  }

  // ---------- rm of one subscription ----------

  lemma {:induction false} RemoveCanonical(t: Trie, key: Key, p: Pipe)
    requires Canonical(t)
    ensures Canonical(Remove(t, key, p))
    decreases key
  {
    if key != [] && HasChild(t, key[0]) {
      RemoveCanonical(Child(t, key[0]), key[1..], p);
      RelinkCanonical(t, key[0] - t.min, Prune(Remove(Child(t, key[0]), key[1..], p)));
    }
  }

  lemma RelinkCanonical(t: Trie, i: nat, link: Option<Trie>)
    requires Canonical(t) && i < |t.next| && t.next[i].Some?
    requires link.Some? ==> Canonical(link.value) && !Redundant(link.value)
    ensures link.Some? ==> Canonical(t.(next := t.next[i := link]))
    ensures link.None? ==> t.live > 0 && Canonical(Trim(t.(live := t.live - 1, next := t.next[i := link])))
  {
    LiveUpdate(t.next, i, link);
    LiveNone(t.next);
    if link.None? { CanonicalFrom(t.(live := t.live - 1, next := t.next[i := link])); }
  }

  // A trimmed trie is canonical when its children are.
  lemma CanonicalFrom(u: Trie)
    requires u.pipes != Some({}) && u.live == Live(u.next) && u.min + |u.next| <= 256
    requires forall i :: 0 <= i < |u.next| && u.next[i].Some? ==>
              !Redundant(u.next[i].value) && Canonical(u.next[i].value)
    ensures Canonical(Trim(u))
  {
    TrimKeepsChildren(u);
    var r := Trim(u);
    forall i | 0 <= i < |r.next| && r.next[i].Some? ensures !Redundant(r.next[i].value) && Canonical(r.next[i].value) {
      var c: Byte := r.min + i;
      assert HasChild(r, c) && Child(r, c) == r.next[i].value;
      assert HasChild(u, c) && Child(u, c) == u.next[c - u.min].value;
    }
  }

  // rm makes exactly one pair a non-member.
  lemma {:induction false} RemoveHas(t: Trie, key: Key, p: Pipe, k: Key, q: Pipe)
    requires Canonical(t)
    ensures Has(Remove(t, key, p), k, q) <==> Has(t, k, q) && !(k == key && q == p)
    decreases key
  {
    hide Canonical, Trim, Prune, Live;
    if key != [] && HasChild(t, key[0]) {
      CanonicalChild(t, key[0]);
      var child := Remove(Child(t, key[0]), key[1..], p);
      RemoveCanonical(Child(t, key[0]), key[1..], p);
      LinkReplaced(t, key[0], key[1..], p);
      if k != [] && k[0] == key[0] {
        RemoveHas(Child(t, key[0]), key[1..], p, k[1..], q);
        assert k == [k[0]] + k[1..] && key == [key[0]] + key[1..];
        if Redundant(child) { RedundantEmpty(child, k[1..], q); }
      }
    }
  }

  // Removing below c changes the child at c only.
  lemma LinkReplaced(t: Trie, c: Byte, rest: Key, p: Pipe)
    requires Canonical(t) && HasChild(t, c)
    ensures var child := Remove(Child(t, c), rest, p);
            var r := Remove(t, [c] + rest, p);
            r.pipes == t.pipes
            && (HasChild(r, c) <==> !Redundant(child)) && (HasChild(r, c) ==> Child(r, c) == child)
            && forall d: Byte :: d != c ==>
                (HasChild(r, d) <==> HasChild(t, d)) && (HasChild(t, d) ==> Child(r, d) == Child(t, d))
  {
    hide Live, Has, Canonical, Trim;
    assert ([c] + rest)[1..] == rest;
    var link := Prune(Remove(Child(t, c), rest, p));
    var u := t.(live := if t.live > 0 then t.live - 1 else 0, next := t.next[c - t.min := link]);
    CanonicalRange(t);
    TrimKeepsChildren(u);
    OthersStay(t, u, c);
  }

  lemma OthersStay(t: Trie, u: Trie, c: Byte)
    requires InTable(t, c) && u.min == t.min && |u.next| == |t.next|
    requires forall i :: 0 <= i < |t.next| && i != c - t.min ==> u.next[i] == t.next[i]
    ensures forall d: Byte :: d != c ==>
              (HasChild(u, d) <==> HasChild(t, d)) && (HasChild(t, d) ==> Child(u, d) == Child(t, d))
  {
  }

  lemma CanonicalRange(t: Trie)
    requires Canonical(t)
    ensures t.min + |t.next| <= 256
  {
  }

  lemma RedundantEmpty(t: Trie, k: Key, q: Pipe)
    requires Canonical(t) && Redundant(t)
    ensures !Has(t, k, q)
  {
    LiveNone(t.next);
  }

  // ---------- rm of a pipe ----------

  lemma {:induction false} RemovePipeCanonical(t: Trie, p: Pipe)
    requires Canonical(t)
    ensures Canonical(RemovePipe(t, p))
    decreases t
  {
    var next := RemoveLinks(t.next, p);
    forall i | 0 <= i < |next| && next[i].Some? ensures !Redundant(next[i].value) && Canonical(next[i].value) {
      RemovePipeCanonical(t.next[i].value, p);
    }
    CanonicalFrom(t.(pipes := WithoutPipe(t.pipes, p), live := Live(next), next := next));
  }

  // Every subscription of p goes, at every depth, and no other.
  lemma {:induction false} RemovePipeHas(t: Trie, p: Pipe, k: Key, q: Pipe)
    requires Canonical(t)
    ensures Has(RemovePipe(t, p), k, q) <==> Has(t, k, q) && q != p
    decreases t
  {
    var next := RemoveLinks(t.next, p);
    var u := t.(pipes := WithoutPipe(t.pipes, p), live := Live(next), next := next);
    TrimKeepsChildren(u);
    if k != [] {
      if HasChild(t, k[0]) {
        var child := Child(t, k[0]);
        RemovePipeHas(child, p, k[1..], q);
        RemovePipeCanonical(child, p);
        assert next[k[0] - t.min] == Prune(RemovePipe(child, p));
        if Redundant(RemovePipe(child, p)) { RedundantEmpty(RemovePipe(child, p), k[1..], q); }
      } else {
        assert InTable(t, k[0]) ==> next[k[0] - t.min] == None;
      }
    }
  }

  // RemovePipe, one child at a time: the first c links are done.
  function Visited(t: Trie, p: Pipe, c: nat): (u: Trie)
    requires c <= |t.next|
    ensures |u.next| == |t.next| && u.min == t.min && u.live == Live(u.next)
    ensures forall i :: c <= i < |t.next| ==> u.next[i] == t.next[i]
  {
    var next := RemoveLinks(t.next[..c], p) + t.next[c..];
    t.(pipes := WithoutPipe(t.pipes, p), live := Live(next), next := next)
  }

  lemma VisitedFirst(t: Trie, p: Pipe, path: Key)
    requires Canonical(t)
    ensures Visited(t, p, 0) == t.(pipes := WithoutPipe(t.pipes, p))
    ensures AbandonedBelow(t.min, t.next[..0], p, path) == []
  {
    assert t.next[..0] == [] && RemoveLinks([], p) + t.next[0..] == t.next;
  }

  lemma LinkNone(t: Trie, p: Pipe, c: nat, path: Key)
    requires c < |t.next| && t.min + |t.next| <= 256
    ensures t.next[c].None? ==> RemoveLink(t.next[c], p) == None && AbandonedAt(t.min + c, t.next[c], p, path) == []
  {
  }

  lemma VisitedNext(t: Trie, p: Pipe, c: nat, path: Key)
    requires Canonical(t) && c < |t.next|
    ensures var u := Visited(t, p, c);
            var next := u.next[c := RemoveLink(t.next[c], p)];
            Visited(t, p, c + 1) == u.(live := Live(next), next := next)
    ensures t.next[c].None? ==> RemoveLink(t.next[c], p) == None && AbandonedAt(t.min + c, t.next[c], p, path) == []
    ensures AbandonedBelow(t.min, t.next[..c + 1], p, path) ==
            AbandonedBelow(t.min, t.next[..c], p, path) + AbandonedAt(t.min + c, t.next[c], p, path)
  {
    CanonicalRange(t);
    LinkNone(t, p, c, path);
    hide Canonical, RemoveLinks, RemoveLink, AbandonedBelow, AbandonedAt, Live;
    LinkDone(t, p, c);
    assert t.next[..c + 1] == t.next[..c] + [t.next[c]];
    AbandonedBelowSnoc(t.min, t.next[..c], t.next[c], p, path);
  }

  lemma LinkDone(t: Trie, p: Pipe, c: nat)
    requires c < |t.next|
    ensures var u := Visited(t, p, c);
            var next := u.next[c := RemoveLink(t.next[c], p)];
            Visited(t, p, c + 1) == u.(live := Live(next), next := next)
  {
    hide RemoveLinks, RemoveLink, Live;
    assert t.next[..c + 1] == t.next[..c] + [t.next[c]];
    RemoveLinksSnoc(t.next[..c], t.next[c], p);
    ReplaceAt(RemoveLinks(t.next[..c], p), t.next[c], t.next[c + 1..], RemoveLink(t.next[c], p));
    assert t.next[c..] == [t.next[c]] + t.next[c + 1..];
  }

  lemma ReplaceAt<T>(a: seq<T>, x: T, b: seq<T>, y: T)
    ensures (a + ([x] + b))[|a| := y] == a + [y] + b
  {
  }

  lemma VisitedLast(t: Trie, p: Pipe, path: Key)
    requires Canonical(t)
    ensures RemovePipe(t, p) == Trim(Visited(t, p, |t.next|))
    ensures Abandoned(t, p, path) ==
            (if t.pipes == Some({p}) then [path] else []) + AbandonedBelow(t.min, t.next[..|t.next|], p, path)
  {
    assert t.next[..|t.next|] == t.next && RemoveLinks(t.next, p) + t.next[|t.next|..] == RemoveLinks(t.next, p);
  }

  lemma {:induction false} RemoveLinksSnoc(a: seq<Option<Trie>>, link: Option<Trie>, p: Pipe)
    ensures RemoveLinks(a + [link], p) == RemoveLinks(a, p) + [RemoveLink(link, p)]
    decreases |a|
  {
    if a == [] {
      assert a + [link] == [link] && RemoveLinks([], p) == [];
    } else {
      assert (a + [link])[1..] == a[1..] + [link];
      RemoveLinksSnoc(a[1..], link, p);
    }
  }

  lemma {:induction false} AbandonedBelowSnoc(min: nat, a: seq<Option<Trie>>, link: Option<Trie>, p: Pipe, path: Key)
    requires min + |a| < 256 && (link.Some? ==> Canonical(link.value))
    requires forall i :: 0 <= i < |a| && a[i].Some? ==> Canonical(a[i].value)
    ensures AbandonedBelow(min, a + [link], p, path) ==
            AbandonedBelow(min, a, p, path) + AbandonedAt(min + |a|, link, p, path)
    decreases |a|
  {
    if a == [] {
      assert a + [link] == [link];
    } else {
      assert (a + [link])[1..] == a[1..] + [link];
      AbandonedBelowSnoc(min + 1, a[1..], link, p, path);
    }
  }

  // lo and hi bound the children among the first c links, as the table is scanned from the left.
  ghost predicate Bounds(next: seq<Option<Trie>>, c: nat, lo: int, hi: int)
    requires c <= |next|
  {
    && (forall i :: 0 <= i < c && next[i].Some? ==> lo <= i <= hi)
    && ((lo == |next| - 1 && hi == 0 && forall i :: 0 <= i < c ==> next[i].None?)
        || (0 <= lo < c && 0 <= hi < c && next[lo].Some? && next[hi].Some?))
  }

  lemma BoundsStart(next: seq<Option<Trie>>)
    ensures Bounds(next, 0, |next| - 1, 0)
  {
  }

  lemma BoundsNext(next: seq<Option<Trie>>, c: nat, link: Option<Trie>, lo: int, hi: int)
    requires c < |next| && Bounds(next, c, lo, hi)
    ensures var lo', hi' := if link.Some? && c < lo then c else lo, if link.Some? && c > hi then c else hi;
            Bounds(next[c := link], c + 1, lo', hi')
  {
  }

  // With all links scanned, the bounds are the ends of the trimmed table.
  lemma BoundsAreEnds(next: seq<Option<Trie>>, lo: int, hi: int)
    requires Bounds(next, |next|, lo, hi)
    ensures Live(next) == 0 ==> forall i :: 0 <= i < |next| ==> next[i].None?
    ensures Live(next) > 0 ==>
              0 <= lo <= hi < |next| && next[lo].Some? && next[hi].Some?
              && forall i :: 0 <= i < lo || hi < i < |next| ==> next[i].None?
    ensures Live(next) == 1 ==> lo == hi
    ensures Live(next) > 1 ==> lo < hi
  {
    LiveNone(next);
    if Live(next) == 1 { LiveOne(next, lo); }
    if Live(next) > 0 && lo == hi {
      LiveUpdate(next, lo, None);
      LiveNone(next[lo := None]);
    }
  }

  lemma CanonicalOnly(t: Trie)
    requires Canonical(t) && |t.next| == 1
    ensures t.next[0].Some? && Canonical(t.next[0].value) && t.min + 1 <= 256
  {
  }

  lemma CanonicalLinks(t: Trie)
    requires Canonical(t)
    ensures t.pipes != Some({}) && t.live == Live(t.next)
    ensures forall i :: 0 <= i < |t.next| && t.next[i].Some? ==> Canonical(t.next[i].value)
  {
  }

  // The path buffer with the child's character written behind the path.
  lemma AbandonedPath(c: Byte, link: Option<Trie>, p: Pipe, buff: Key, buff': Key, n: nat)
    requires link.Some? && Canonical(link.value) && n < |buff| && buff' == buff[n := c]
    ensures AbandonedAt(c, link, p, buff[..n]) == Abandoned(link.value, p, buff'[..n + 1])
    ensures buff'[..n] == buff[..n]
    ensures forall b: Key :: n < |b| && b[..n + 1] == buff'[..n + 1] ==> b[..n] == buff[..n]
  {
    assert buff'[..n + 1] == buff[..n] + [c];
    forall b: Key | n < |b| && b[..n + 1] == buff'[..n + 1] ensures b[..n] == buff[..n] {
      assert b[..n] == b[..n + 1][..n] && buff'[..n] == buff'[..n + 1][..n];
    }
  }

  lemma LinkLive(next: seq<Option<Trie>>, c: nat, p: Pipe)
    requires c < |next| && next[c].Some?
    ensures Live(next) > 0
    ensures var r := RemovePipe(next[c].value, p);
            if Redundant(r) then RemoveLink(next[c], p) == None && Live(next[c := None]) == Live(next) - 1
            else RemoveLink(next[c], p) == Some(r) && Live(next[c := Some(r)]) == Live(next)
  {
    LiveNone(next);
    LiveUpdate(next, c, RemoveLink(next[c], p));
  }

  lemma LastOut(pipes: set<Pipe>, p: Pipe)
    ensures pipes - {p} == {} <==> pipes <= {p}
    ensures p in pipes && pipes - {p} == {} <==> pipes == {p}
    ensures pipes != {} && pipes - {p} == {} ==> p in pipes
  {
    if pipes - {p} == {} {
      forall x | x in pipes ensures x == p { assert x !in pipes - {p}; }
      if pipes != {} { var x :| x in pipes; }
    }
  }

  // p is the one pipe subscribed to key.
  ghost predicate Sole(t: Trie, key: Key, p: Pipe)
  {
    Has(t, key, p) && forall q :: Has(t, key, q) ==> q == p
  }

  lemma SoleBelow(t: Trie, key: Key, p: Pipe)
    requires key != []
    ensures Sole(t, key, p) <==> HasChild(t, key[0]) && Sole(Child(t, key[0]), key[1..], p)
  {
    if HasChild(t, key[0]) {
      forall q ensures Has(t, key, q) <==> Has(Child(t, key[0]), key[1..], q) {}
    }
  }

  lemma SoleHere(t: Trie, p: Pipe)
    ensures Sole(t, [], p) <==> t.pipes == Some({p})
  {
    if Sole(t, [], p) {
      forall q ensures q in t.pipes.value <==> q == p { assert Has(t, [], q) <==> q in t.pipes.value; }
      assert t.pipes.value == {p};
    }
    if t.pipes == Some({p}) { assert Has(t, [], p); }
  }

  lemma {:induction false} AbandonedBelowPath(t: Trie, p: Pipe, path: Key, x: Key)
    requires Canonical(t) && x in Abandoned(t, p, path)
    ensures path <= x
    decreases t, 1
  {
    if x in AbandonedBelow(t.min, t.next, p, path) { AbandonedBelowPaths(t.min, t.next, p, path, x); }
  }

  lemma {:induction false} AbandonedBelowPaths(min: nat, next: seq<Option<Trie>>, p: Pipe, path: Key, x: Key)
    requires min + |next| <= 256
    requires forall i :: 0 <= i < |next| && next[i].Some? ==> Canonical(next[i].value)
    requires x in AbandonedBelow(min, next, p, path)
    ensures path < x && min <= x[|path|] < min + |next|
    decreases next, 0
  {
    if x in AbandonedAt(min, next[0], p, path) {
      AbandonedAtPath(min, next[0], p, path, x);
    } else {
      AbandonedBelowPaths(min + 1, next[1..], p, path, x);
    }
  }

  lemma {:induction false} AbandonedAtPath(c: Byte, link: Option<Trie>, p: Pipe, path: Key, x: Key)
    requires (link.Some? ==> Canonical(link.value)) && x in AbandonedAt(c, link, p, path)
    ensures path < x && x[|path|] == c
    decreases link, 2
  {
    AbandonedBelowPath(link.value, p, path + [c], x);
    assert x[|path|] == (path + [c])[|path|];
  }

  lemma NotBelow(min: nat, next: seq<Option<Trie>>, p: Pipe, path: Key, key: Key)
    requires min + |next| <= 256 && key != [] && key[0] < min
    requires forall i :: 0 <= i < |next| && next[i].Some? ==> Canonical(next[i].value)
    ensures path + key !in AbandonedBelow(min, next, p, path)
  {
    hide Canonical, AbandonedBelow;
    forall x | x in AbandonedBelow(min, next, p, path) ensures x != path + key {
      AbandonedBelowPaths(min, next, p, path, x);
      assert (path + key)[|path|] == key[0];
    }
  }

  lemma NotAt(c: Byte, link: Option<Trie>, p: Pipe, path: Key, key: Key)
    requires (link.Some? ==> Canonical(link.value)) && key != [] && key[0] != c
    ensures path + key !in AbandonedAt(c, link, p, path)
  {
    hide Canonical, AbandonedAt;
    forall x | x in AbandonedAt(c, link, p, path) ensures x != path + key {
      AbandonedAtPath(c, link, p, path, x);
      assert (path + key)[|path|] == key[0];
    }
  }

  // The callback is invoked once for each topic whose last subscriber p was, with the topic's bytes,
  // and for no other.
  lemma {:induction false} AbandonedExactly(t: Trie, p: Pipe, path: Key, key: Key)
    requires Canonical(t)
    ensures multiset(Abandoned(t, p, path))[path + key] == if Sole(t, key, p) then 1 else 0
    decreases t, 1
  {
    hide Sole, AbandonedBelow, Has;
    var below := AbandonedBelow(t.min, t.next, p, path);
    SoleHere(t, p);
    if key == [] {
      assert path + key == path;
      if path in below { AbandonedBelowPaths(t.min, t.next, p, path, path); }
    } else {
      SoleBelow(t, key, p);
      assert path + key != path;
      AbandonedBelowExactly(t.min, t.next, p, path, key);
    }
  }

  lemma CountSum(a: seq<Key>, b: seq<Key>, x: Key)
    ensures multiset(a + b)[x] == multiset(a)[x] + multiset(b)[x]
    ensures x !in a ==> multiset(a)[x] == 0
    ensures x !in b ==> multiset(b)[x] == 0
  {
    assert multiset(a + b) == multiset(a) + multiset(b);
  }

  // Whether p is the sole subscriber of key in the child for its first character.
  ghost predicate SoleIn(min: nat, next: seq<Option<Trie>>, p: Pipe, key: Key)
    requires key != []
  {
    min <= key[0] < min + |next| && next[key[0] - min].Some? && Sole(next[key[0] - min].value, key[1..], p)
  }

  lemma SoleInRest(min: nat, next: seq<Option<Trie>>, p: Pipe, key: Key)
    requires key != [] && key[0] != min && next != []
    ensures SoleIn(min, next, p, key) <==> SoleIn(min + 1, next[1..], p, key)
  {
    assert min < key[0] < min + |next| ==> next[1..][key[0] - (min + 1)] == next[key[0] - min];
  }

  lemma SoleInFirst(min: nat, next: seq<Option<Trie>>, p: Pipe, key: Key)
    requires key != [] && key[0] == min && next != []
    ensures SoleIn(min, next, p, key) <==> next[0].Some? && Sole(next[0].value, key[1..], p)
    ensures !SoleIn(min + 1, next[1..], p, key)
  {
  }

  lemma AbandonedBelowFirst(min: nat, next: seq<Option<Trie>>, p: Pipe, path: Key)
    requires next != [] && min + |next| <= 256
    requires forall i :: 0 <= i < |next| && next[i].Some? ==> Canonical(next[i].value)
    ensures AbandonedBelow(min, next, p, path)
         == AbandonedAt(min, next[0], p, path) + AbandonedBelow(min + 1, next[1..], p, path)
  {
  }

  lemma {:induction false} AbandonedBelowExactly(min: nat, next: seq<Option<Trie>>, p: Pipe, path: Key, key: Key)
    requires min + |next| <= 256 && key != []
    requires forall i :: 0 <= i < |next| && next[i].Some? ==> Canonical(next[i].value)
    ensures multiset(AbandonedBelow(min, next, p, path))[path + key] == if SoleIn(min, next, p, key) then 1 else 0
    decreases next, 0
  {
    if next != [] {
      hide *;
      AbandonedBelowFirst(min, next, p, path);
      var here := AbandonedAt(min, next[0], p, path);
      var rest := AbandonedBelow(min + 1, next[1..], p, path);
      CountSum(here, rest, path + key);
      AbandonedBelowExactly(min + 1, next[1..], p, path, key);
      if key[0] == min {
        AbandonedAtExactly(min, next[0], p, path, key);
        SoleInFirst(min, next, p, key);
        NotBelow(min + 1, next[1..], p, path, key);
      } else {
        NotAt(min, next[0], p, path, key);
        SoleInRest(min, next, p, key);
      }
    }
  }

  lemma {:induction false} AbandonedAtExactly(c: Byte, link: Option<Trie>, p: Pipe, path: Key, key: Key)
    requires (link.Some? ==> Canonical(link.value)) && key != [] && key[0] == c
    ensures multiset(AbandonedAt(c, link, p, path))[path + key] ==
            if link.Some? && Sole(link.value, key[1..], p) then 1 else 0
    decreases link, 2
  {
    if link.Some? {
      assert path + key == path + [c] + key[1..];
      AbandonedExactly(link.value, p, path + [c], key[1..]);
    }
  }

  // ---------- match ----------

  // How many of the prefixes of data up to length n p is subscribed to.
  function Hits(t: Trie, data: Key, p: Pipe, n: nat): nat
    requires n <= |data|
  {
    (if Has(t, data[..n], p) then 1 else 0) + (if n == 0 then 0 else Hits(t, data, p, n - 1))
  }

  lemma {:induction false} HitsBelow(t: Trie, data: Key, p: Pipe, n: nat)
    requires 0 < n <= |data|
    ensures Hits(t, data, p, n) ==
            (if Has(t, [], p) then 1 else 0)
            + (if HasChild(t, data[0]) then Hits(Child(t, data[0]), data[1..], p, n - 1) else 0)
    decreases n
  {
    assert data[..n][1..] == data[1..][..n - 1];
    if n == 1 {
      assert data[..0] == [] && data[1..][..0] == [];
    } else {
      HitsBelow(t, data, p, n - 1);
    }
  }

  // match reports each pipe once for each prefix of data it is subscribed to.
  lemma {:induction false} MatchCounts(t: Trie, data: Key, p: Pipe)
    ensures Match(t, data)[p] == Hits(t, data, p, |data|)
    decreases data
  {
    if data == [] {
      assert data[..0] == [];
    } else {
      HitsBelow(t, data, p, |data|);
      if HasChild(t, data[0]) { MatchCounts(Child(t, data[0]), data[1..], p); }
    }
  }

  lemma MatchAll(t: Trie, data: Key)
    ensures forall p :: Match(t, data)[p] == Hits(t, data, p, |data|)
  {
    forall p ensures Match(t, data)[p] == Hits(t, data, p, |data|) { MatchCounts(t, data, p); }
  }

  lemma MatchStep(t: Trie, data: Key)
    ensures var here := if t.pipes.Some? then multiset(t.pipes.value) else multiset{};
            Match(t, data) ==
            here + if data != [] && HasChild(t, data[0]) then Match(Child(t, data[0]), data[1..]) else multiset{}
  {
  }

  // ---------- results ----------

  lemma {:induction false} NewTopicIff(t: Trie, key: Key)
    requires Canonical(t)
    ensures NewTopic(t, key) ==> forall q :: !Has(t, key, q)
    ensures (forall q :: !Has(t, key, q)) ==> NewTopic(t, key)
    decreases key
  {
    if key == [] {
      if t.pipes.Some? {
        assert t.pipes.value != {};
        var q :| q in t.pipes.value;
        assert Has(t, key, q);
      }
    } else if HasChild(t, key[0]) {
      NewTopicIff(Child(t, key[0]), key[1..]);
      assert NewTopic(t, key) == NewTopic(Child(t, key[0]), key[1..]);
      if NewTopic(t, key) {
        forall q ensures !Has(t, key, q) { assert !Has(Child(t, key[0]), key[1..], q); }
      } else {
        var q :| Has(Child(t, key[0]), key[1..], q);
        assert Has(t, key, q);
      }
    }
  }

  lemma {:induction false} DroppedIff(t: Trie, key: Key, p: Pipe)
    ensures Dropped(t, key, p) ==> NodeAt(t, key) && forall q :: Has(t, key, q) ==> q == p
    ensures NodeAt(t, key) && (forall q :: Has(t, key, q) ==> q == p) ==> Dropped(t, key, p)
    decreases key
  {
    if key == [] {
      if t.pipes.Some? {
        forall q ensures Has(t, key, q) && q != p <==> q in t.pipes.value - {p} {}
        if t.pipes.value - {p} != {} {
          var q :| q in t.pipes.value - {p};
          assert Has(t, key, q);
        }
      }
    } else if HasChild(t, key[0]) {
      DroppedIff(Child(t, key[0]), key[1..], p);
      assert Dropped(t, key, p) == Dropped(Child(t, key[0]), key[1..], p);
      if Dropped(t, key, p) {
        forall q | Has(t, key, q) ensures q == p { assert Has(Child(t, key[0]), key[1..], q); }
      } else if NodeAt(t, key) {
        var q :| Has(Child(t, key[0]), key[1..], q) && q != p;
        assert Has(t, key, q);
      }
    }
  }

  // Nobody is subscribed to key, which is empty or the beginning of a longer topic that somebody is
  // subscribed to.
  ghost predicate InnerTopic(t: Trie, key: Key)
  {
    (forall q :: !Has(t, key, q)) && (key == [] || exists k, q :: key < k && Has(t, k, q))
  }

  // rm's result means "the last subscription was removed" unless key is an inner topic: there it is true
  // although nothing was removed.
  lemma DroppedMeansRemovedIff(t: Trie, key: Key, p: Pipe)
    requires Canonical(t)
    ensures (Dropped(t, key, p) <==> Sole(t, key, p)) <==> !InnerTopic(t, key)
  {
    hide Canonical, Dropped, NodeAt;
    DroppedIff(t, key, p);
    HasNode(t, key, p);
    if forall q :: !Has(t, key, q) {
      InnerIff(t, key);
    }
  }

  lemma InnerIff(t: Trie, key: Key)
    requires Canonical(t) && forall q :: !Has(t, key, q)
    ensures NodeAt(t, key) <==> InnerTopic(t, key)
  {
    hide Canonical;
    if key != [] && NodeAt(t, key) {
      var k, q := TopicBelow(t, key);
      assert k != key;
    }
    if k, q :| key < k && Has(t, k, q) {
      NodeOnTheWay(t, key, k, q);
    }
  }

  // In a canonical trie the nodes are the root and the beginnings of the subscribed topics.
  lemma {:induction false} NodeOnTheWay(t: Trie, key: Key, k: Key, q: Pipe)
    requires key <= k && Has(t, k, q)
    ensures NodeAt(t, key)
    decreases key
  {
    if key != [] {
      NodeOnTheWay(Child(t, key[0]), key[1..], k[1..], q);
    }
  }

  lemma {:induction false} TopicBelow(t: Trie, key: Key) returns (k: Key, q: Pipe)
    requires Canonical(t) && NodeAt(t, key) && key != []
    ensures key <= k && Has(t, k, q)
    decreases key
  {
    CanonicalChild(t, key[0]);
    if |key| == 1 {
      k, q := NotRedundant(Child(t, key[0]));
    } else {
      k, q := TopicBelow(Child(t, key[0]), key[1..]);
    }
    k := [key[0]] + k;
  }

  lemma {:induction false} HasNode(t: Trie, key: Key, p: Pipe)
    ensures Has(t, key, p) ==> NodeAt(t, key)
    decreases key
  {
    if key != [] && HasChild(t, key[0]) { HasNode(Child(t, key[0]), key[1..], p); }
  }

  // The empty topic of an empty trie is reported as removed.
  lemma DroppedWithoutSubscription(p: Pipe)
    ensures Dropped(Fresh, [], p) && !Sole(Fresh, [], p)
  {
    FreshHas([], p);
  }

  // With one subscription to a topic of two characters, so is the topic of its first character.
  lemma DroppedInTheMiddle(p: Pipe, q: Pipe)
    ensures var t := Run([AddOp([1, 2], p)]);
            Dropped(t, [1], q) && !Sole(t, [1], q) && Has(t, [1, 2], p)
  {
    var ops := [AddOp([1, 2], p)];
    var t := Run(ops);
    assert ops[..0] == [];
    forall k, r ensures Has(t, k, r) <==> k == [1, 2] && r == p {
      RunRefinesSet(ops, k, r);
    }
    NodeOnTheWay(t, [1], [1, 2], p);
    DroppedIff(t, [1], q);
  }

  // Somebody is subscribed to key.
  ghost predicate Watched(t: Trie, key: Key)
  {
    exists q :: Has(t, key, q)
  }

  lemma WatchedBy(t: Trie, key: Key, q: Pipe)
    ensures Has(t, key, q) ==> Watched(t, key)
  {
  }

  lemma WatchedIff(t: Trie, key: Key)
    requires Canonical(t)
    ensures Watched(t, key) <==> !NewTopic(t, key)
  {
    hide NewTopic, Canonical;
    NewTopicIff(t, key);
  }

  // The assertion in rm fails exactly when somebody is subscribed to the topic and this pipe is not.
  lemma ErasesIff(t: Trie, key: Key, p: Pipe)
    requires Canonical(t)
    ensures !Erases(t, key, p) <==> Watched(t, key) && !Has(t, key, p)
  {
    hide *;
    WatchedIff(t, key);
    ErasesWhere(t, key, p);
  }

  lemma {:induction false} ErasesWhere(t: Trie, key: Key, p: Pipe)
    requires Canonical(t)
    ensures Erases(t, key, p) <==> NewTopic(t, key) || Has(t, key, p)
    decreases key
  {
    if key != [] && HasChild(t, key[0]) {
      CanonicalChild(t, key[0]);
      ErasesWhere(Child(t, key[0]), key[1..], p);
    }
  }

  ghost predicate WatchedAfter(ops: seq<Op>, key: Key)
  {
    exists q :: Subscribed(ops, key, q)
  }

  lemma RunWatched(ops: seq<Op>, key: Key)
    ensures Watched(Run(ops), key) <==> WatchedAfter(ops, key)
  {
    if Watched(Run(ops), key) {
      var q :| Has(Run(ops), key, q);
      RunRefinesSet(ops, key, q);
    }
    if WatchedAfter(ops, key) {
      var q :| Subscribed(ops, key, q);
      RunRefinesSet(ops, key, q);
      WatchedBy(Run(ops), key, q);
    }
  }

  // After any run of operations, in terms of the subscriptions that it leaves.
  lemma RunErasesIff(ops: seq<Op>, key: Key, p: Pipe)
    ensures !Erases(Run(ops), key, p) <==> WatchedAfter(ops, key) && !Subscribed(ops, key, p)
  {
    hide *;
    ErasesIff(Run(ops), key, p);
    RunWatched(ops, key);
    RunRefinesSet(ops, key, p);
  }

  // One pipe is subscribed, another one unsubscribes: the assertion fails.
  lemma OtherPipeFails(key: Key, p: Pipe, q: Pipe)
    requires p != q
    ensures !Erases(Run([AddOp(key, p)]), key, q)
  {
    var ops := [AddOp(key, p)];
    assert Subscribed(ops, key, p) && !Subscribed(ops[..0], key, q);
    assert !Subscribed(ops, key, q) && WatchedAfter(ops, key);
    hide *;
    RunErasesIff(ops, key, q);
  }

  // ---------- canonical form ----------

  // Two canonical tries with the same subscriptions are the same, node for node.
  lemma {:induction false} ShapeUnique(t: Trie, u: Trie)
    requires Canonical(t) && Canonical(u) && forall k, q :: Has(t, k, q) <==> Has(u, k, q)
    ensures t == u
    decreases t
  {
    SamePipes(t, u);
    forall c: Byte ensures HasChild(t, c) <==> HasChild(u, c) {
      ChildFollows(t, u, c);
      ChildFollows(u, t, c);
    }
    SameEnds(t, u);
    forall i | 0 <= i < |t.next| ensures t.next[i] == u.next[i] {
      var c: Byte := t.min + i;
      assert HasChild(t, c) <==> HasChild(u, c);
      if HasChild(t, c) {
        forall k, q ensures Has(Child(t, c), k, q) <==> Has(Child(u, c), k, q) {
          assert ([c] + k)[1..] == k;
          assert Has(t, [c] + k, q) <==> Has(u, [c] + k, q);
        }
        ShapeUnique(Child(t, c), Child(u, c));
      }
    }
    assert t.next == u.next;
  }

  lemma SamePipes(t: Trie, u: Trie)
    requires Canonical(t) && Canonical(u) && forall k, q :: Has(t, k, q) <==> Has(u, k, q)
    ensures t.pipes == u.pipes
  {
    var a := if t.pipes.Some? then t.pipes.value else {};
    var b := if u.pipes.Some? then u.pipes.value else {};
    forall q ensures q in a <==> q in b { assert Has(t, [], q) <==> Has(u, [], q); }
    assert a == b;
  }

  lemma ChildFollows(t: Trie, u: Trie, c: Byte)
    requires Canonical(t) && forall k, q :: Has(t, k, q) ==> Has(u, k, q)
    ensures HasChild(t, c) ==> HasChild(u, c)
  {
    if HasChild(t, c) {
      var k, q := NotRedundant(Child(t, c));
      assert ([c] + k)[1..] == k;
      assert Has(t, [c] + k, q);
    }
  }

  lemma SameEnds(t: Trie, u: Trie)
    requires Canonical(t) && Canonical(u) && forall c: Byte :: HasChild(t, c) <==> HasChild(u, c)
    ensures t.min == u.min && |t.next| == |u.next|
  {
    EndsWithin(t, u);
    EndsWithin(u, t);
  }

  lemma EndsWithin(t: Trie, u: Trie)
    requires Canonical(t) && forall c: Byte :: HasChild(t, c) ==> HasChild(u, c)
    ensures t.next != [] ==> u.next != [] && u.min <= t.min && t.min + |t.next| <= u.min + |u.next|
    ensures t.next == [] ==> t.min == 0
  {
    if t.next != [] {
      var lo: Byte := t.min;
      var hi: Byte := t.min + |t.next| - 1;
      assert HasChild(t, lo) && HasChild(t, hi);
    }
  }

  // ---------- runs ----------

  function Run(ops: seq<Op>): (t: Trie)
    ensures Canonical(t)
  {
    if ops == [] then Fresh
    else
      var t := Run(ops[..|ops| - 1]);
      ApplyCanonical(t, ops[|ops| - 1]);
      Apply(t, ops[|ops| - 1])
  }

  lemma ApplyCanonical(t: Trie, op: Op)
    requires Canonical(t)
    ensures Canonical(Apply(t, op))
  {
    match op
    case AddOp(key, p) => AddCanonical(t, key, p);
    case RemoveOp(key, p) => RemoveCanonical(t, key, p);
    case RemovePipeOp(p) => RemovePipeCanonical(t, p);
  }

  // After any run of add and rm calls the trie holds exactly the pairs the reference holds.
  lemma {:induction false} RunRefinesSet(ops: seq<Op>, key: Key, p: Pipe)
    ensures Has(Run(ops), key, p) <==> Subscribed(ops, key, p)
    decreases |ops|
  {
    if ops == [] {
      FreshHas(key, p);
    } else {
      var before := ops[..|ops| - 1];
      RunRefinesSet(before, key, p);
      match ops[|ops| - 1]
      case AddOp(k, q) => AddHas(Run(before), k, q, key, p);
      case RemoveOp(k, q) => RemoveHas(Run(before), k, q, key, p);
      case RemovePipeOp(q) => RemovePipeHas(Run(before), q, key, p);
    }
  }

  // Runs that leave the same subscriptions leave the same trie.
  lemma RunShapeDependsOnSetOnly(ops: seq<Op>, others: seq<Op>)
    requires forall k, q :: Subscribed(ops, k, q) <==> Subscribed(others, k, q)
    ensures Run(ops) == Run(others)
  {
    forall k, q ensures Has(Run(ops), k, q) <==> Has(Run(others), k, q) {
      RunRefinesSet(ops, k, q);
      RunRefinesSet(others, k, q);
    }
    ShapeUnique(Run(ops), Run(others));
  }

  // How many prefixes of data up to length n the pipe is subscribed to after the run.
  function SubscribedPrefixes(ops: seq<Op>, data: Key, p: Pipe, n: nat): nat
    requires n <= |data|
  {
    (if Subscribed(ops, data[..n], p) then 1 else 0) + (if n == 0 then 0 else SubscribedPrefixes(ops, data, p, n - 1))
  }

  // After any run match reports each pipe once for each prefix that the run leaves it subscribed to.
  lemma RunMatches(ops: seq<Op>, data: Key, p: Pipe)
    ensures Match(Run(ops), data)[p] == SubscribedPrefixes(ops, data, p, |data|)
  {
    MatchCounts(Run(ops), data, p);
    RunHits(ops, data, p, |data|);
  }

  lemma {:induction false} RunHits(ops: seq<Op>, data: Key, p: Pipe, n: nat)
    requires n <= |data|
    ensures Hits(Run(ops), data, p, n) == SubscribedPrefixes(ops, data, p, n)
    decreases n
  {
    RunRefinesSet(ops, data[..n], p);
    if n > 0 { RunHits(ops, data, p, n - 1); }
  }
}
