// mtrie_t: a node of the subscription trie, changed in place.
module Mtrie {
  import opened Common
  import opened MtrieModel
  import opened MtrieTheorem

  class MtrieNode {
    var pipes: Option<set<Pipe>>
    var min: Byte
    var live: nat
    // The union: next.node when it has one entry, next.table when it has more. Its length is count.
    var next: seq<MtrieNode?>

    ghost var Repr: set<MtrieNode>
    ghost var T: Trie // the trie as a value

    ghost predicate Valid()
      reads this, Repr
      ensures Valid() ==> this in Repr
    {
      && this in Repr
      && ChildrenOwned()
      && (forall i :: 0 <= i < |next| && next[i] != null ==> next[i].Valid())
      && T == Trie(pipes, if next == [] then 0 else min, live, T.next)
      && ChildrenMirrored()
    }

    // Each child is a tree of its own within this one.
    ghost predicate ChildrenOwned()
      reads this, Repr
    {
      && (forall i :: 0 <= i < |next| && next[i] != null ==>
            next[i] in Repr && next[i].Repr <= Repr && next[i] in next[i].Repr && this !in next[i].Repr)
      && (forall i, j :: 0 <= i < j < |next| && next[i] != null && next[j] != null ==> next[i].Repr !! next[j].Repr)
    }

    ghost predicate ChildrenMirrored()
      reads this, Repr
      requires forall i :: 0 <= i < |next| && next[i] != null ==> next[i] in Repr
    {
      |T.next| == |next|
      && forall i :: 0 <= i < |next| ==> T.next[i] == if next[i] == null then None else Some(next[i].T)
    }

    constructor ()
      ensures Valid() && fresh(Repr) && T == Fresh
    {
      pipes, min, live, next := None, 0, 0, [];
      Repr, T := {this}, Fresh;
    }

    // Makes room for c in the table.
    method GrowTable(c: Byte)
      requires Valid() && Canonical(T)
      modifies this`min, this`next, this`T
      ensures Valid() && T == Grow(old(T), c) && InTable(T, c) && min == T.min
    {
      hide *;
      CanonicalRange(T);
      Mirrored();
      InTableAt(T, c);
      if c < min || c >= min + |next| {
        GrowAt(T, c);
        ghost var u := Grow(T, c);
        InTableAt(u, c);
        var lowest, table := Reach(c);
        SetTable(lowest, table, u);
      } else {
        GrowInTable(T, c);
      }
    }

    // The table replaced by one with the same children at the same characters.
    method SetTable(lowest: Byte, table: seq<MtrieNode?>, ghost u: Trie)
      requires Valid() && table != [] && |table| == |u.next| && u == T.(min := lowest, next := u.next)
      requires forall i :: 0 <= i < |table| ==>
                 table[i] == if min <= lowest + i < min + |next| then next[lowest + i - min] else null
      requires forall i :: 0 <= i < |table| ==>
                 u.next[i] == if T.min <= lowest + i < T.min + |T.next| then T.next[lowest + i - T.min] else None
      modifies this`min, this`next, this`T
      ensures Valid() && T == u && min == T.min
    {
      Mirrored();
      ghost var d, n := lowest - min, |next|;
      assert forall i :: 0 <= i < |table| ==> table[i] == if 0 <= i + d < n then next[i + d] else null;
      assert forall i :: 0 <= i < |table| ==> u.next[i] == if 0 <= i + d < n then T.next[i + d] else None;
      T := u;
      min, next := lowest, table;
      Shifted(d);
    }

    // The table moved by d places, perhaps with some entries nulled: the children in it are as they were.
    twostate lemma Shifted(d: int)
      requires old(Valid()) && Repr == old(Repr) && forall o :: o in old(Repr) && o != this ==> unchanged(o)
      requires forall i :: 0 <= i < |next| && next[i] != null ==>
                0 <= i + d < |old(next)| && next[i] == old(next)[i + d]
      ensures ChildrenOwned()
      ensures forall i :: 0 <= i < |next| && next[i] != null ==>
                var n := next[i]; n.Valid() && n.T == old(n.T)
    {
    }

    // The characters from lowest on, with the children where they belong and null elsewhere.
    method Reach(c: Byte) returns (lowest: Byte, table: seq<MtrieNode?>)
      requires (c < min || c >= min + |next|) && min + |next| <= 256
      ensures lowest == if |next| == 0 || c < min then c else min
      ensures |table| == if |next| == 0 then 1 else if c < min then min - c + |next| else c + 1 - min
      ensures forall i :: 0 <= i < |table| ==>
                table[i] == if min <= lowest + i < min + |next| then next[lowest + i - min] else null
    {
      if |next| == 0 {
        lowest, table := c, [null];
      } else if |next| == 1 {
        table := NullTable((if min < c then c - min else min - c) + 1);
        lowest := if min < c then min else c;
        table := table[min - lowest := next[0]];
      } else if min < c {
        var more := NullTable(c - min + 1 - |next|);
        lowest, table := min, next + more;
      } else {
        var more := NullTable(min - c);
        lowest, table := c, more + next;
      }
    }

    static method NullTable(n: nat) returns (table: seq<MtrieNode?>)
      ensures |table| == n && forall i :: 0 <= i < n ==> table[i] == null
    {
      table := [];
      for i := 0 to n
        invariant |table| == i && forall j :: 0 <= j < i ==> table[j] == null
      {
        table := table + [null];
      }
    }

    method AddHelper(prefix: Key, pipe: Pipe) returns (unique: bool)
      requires Valid() && Canonical(T)
      modifies Repr
      ensures Valid() && fresh(Repr - old(Repr))
      ensures T == Add(old(T), prefix, pipe)
      ensures unique <==> NewTopic(old(T), prefix)
      decreases |prefix|, 0
    {
      if prefix == [] {
        unique := AddHere(pipe);
      } else {
        unique := AddBelow(prefix, pipe);
      }
    }

    method AddBelow(prefix: Key, pipe: Pipe) returns (unique: bool)
      requires Valid() && Canonical(T) && prefix != []
      modifies Repr
      ensures Valid() && fresh(Repr - old(Repr))
      ensures T == Add(old(T), prefix, pipe)
      ensures unique <==> NewTopic(old(T), prefix)
      decreases |prefix| - 1, 2
    {
      hide *;
      AddStep(T, prefix, pipe);
      var c := prefix[0];
      GrowTable(c);
      CreateChild(c);
      unique := AddToChild(c - min, prefix[1..], pipe);
    }

    method AddHere(pipe: Pipe) returns (unique: bool)
      requires Valid()
      modifies this`pipes, this`T
      ensures Valid() && T == old(T).(pipes := Some((if old(T).pipes.Some? then old(T).pipes.value else {}) + {pipe}))
      ensures unique <==> old(T).pipes.None?
    {
      unique := pipes.None?;
      if pipes.None? {
        pipes := Some({});
      }
      pipes := Some(pipes.value + {pipe});
      T := T.(pipes := pipes);
    }

    method AddToChild(i: nat, rest: Key, pipe: Pipe) returns (unique: bool)
      requires Valid() && i < |T.next| && T.next[i].Some? && Canonical(T.next[i].value)
      modifies Repr
      ensures Valid() && fresh(Repr - old(Repr))
      ensures var child := old(T).next[i].value;
              T == old(T).(next := old(T).next[i := Some(Add(child, rest, pipe))])
              && (unique <==> NewTopic(child, rest))
      decreases |rest|, 1
    {
      hide Canonical, Add, NewTopic;
      unique := next[i].AddHelper(rest, pipe);
      ChildChanged(i);
      Repr := Repr + next[i].Repr;
      T := T.(next := T.next[i := Some(next[i].T)]);
    }

    // After a call on one child, its siblings are as they were and still apart from it.
    twostate lemma ChildChanged(i: nat)
      requires old(Valid()) && unchanged(this) && i < |next| && next[i] != null
      requires forall o :: o in old(Repr) && o !in old(next[i].Repr) ==> unchanged(o)
      requires next[i].Valid() && fresh(next[i].Repr - old(next[i].Repr))
      ensures forall j :: 0 <= j < |next| && j != i && next[j] != null ==>
                next[j].Valid() && next[j].T == old(next[j].T) && next[j].Repr == old(next[j].Repr)
                && next[j].Repr !! next[i].Repr
      ensures this !in next[i].Repr
    {
    }

    // If there is no child for c yet, an empty one is created.
    method CreateChild(c: Byte)
      requires Valid() && InTable(T, c)
      modifies this
      ensures Valid() && fresh(Repr - old(Repr)) && min == T.min
      ensures T == PutChild(old(T), c, ChildOrFresh(old(T), c)) && InTable(T, c)
    {
      if next[c - min] == null {
        var node := new MtrieNode();
        next := next[c - min := node];
        live := live + 1;
        Repr := Repr + node.Repr;
        T := PutChild(T, c, Fresh);
      }
    }

    predicate IsRedundant()
      requires Valid()
      reads this, Repr
      ensures IsRedundant() == Redundant(T)
    {
      pipes.None? && live == 0
    }

    // Removes one subscription. Somebody else's subscription to the same topic alone is not enough.
    method RmHelper(prefix: Key, pipe: Pipe) returns (ret: bool)
      requires Valid() && Canonical(T) && (NewTopic(T, prefix) || Has(T, prefix, pipe))
      modifies Repr
      ensures Valid() && Repr == old(Repr)
      ensures T == Remove(old(T), prefix, pipe)
      ensures ret <==> Dropped(old(T), prefix, pipe)
      decreases |prefix|, 0
    {
      if prefix == [] {
        ret := RmHere(pipe);
      } else {
        ret := RmBelow(prefix, pipe);
      }
    }

    method RmBelow(prefix: Key, pipe: Pipe) returns (ret: bool)
      requires Valid() && Canonical(T) && (NewTopic(T, prefix) || Has(T, prefix, pipe)) && prefix != []
      modifies Repr
      ensures Valid() && Repr == old(Repr)
      ensures T == Remove(old(T), prefix, pipe)
      ensures ret <==> Dropped(old(T), prefix, pipe)
      decreases |prefix| - 1, 2
    {
      hide *;
      var c := prefix[0];
      RemoveStep(T, prefix, pipe);
      ChildHere(c);
      ret := false;
      if |next| > 0 && min <= c < min + |next| && next[c - min] != null {
        var redundant;
        ret, redundant := RmFromChild(c - min, prefix[1..], pipe);
        if redundant {
          Unlink(c - min);
        }
      }
    }

    lemma ChildHere(c: Byte)
      requires Valid()
      ensures |next| == 0 || c < min || c >= min + |next| || next[c - min] == null <==> !HasChild(T, c)
      ensures HasChild(T, c) ==> 0 <= c - min < |T.next| && T.min == min && T.next[c - min] == Some(Child(T, c))
      ensures HasChild(T, c) ==>
                0 <= c - min < |next| && next[c - min] != null && next[c - min].Valid()
                && next[c - min].T == Child(T, c)
    {
    }

    method RmHere(pipe: Pipe) returns (ret: bool)
      requires Valid() && (pipes.Some? ==> pipe in pipes.value)
      modifies this`pipes, this`T
      ensures Valid() && T == old(T).(pipes := WithoutPipe(old(T).pipes, pipe)) && (ret <==> T.pipes.None?)
    {
      if pipes.Some? {
        assert pipe in pipes.value; // erased == 1
        pipes := Some(pipes.value - {pipe});
        if pipes.value == {} {
          pipes := None;
        }
      }
      ret := pipes.None?;
      T := T.(pipes := pipes);
    }

    method RmFromChild(i: nat, rest: Key, pipe: Pipe) returns (ret: bool, redundant: bool)
      requires Valid() && i < |T.next| && T.next[i].Some? && Canonical(T.next[i].value)
      requires NewTopic(T.next[i].value, rest) || Has(T.next[i].value, rest, pipe)
      modifies Repr
      ensures Valid() && Repr == old(Repr) && min == old(min)
      ensures var child := old(T).next[i].value;
              T == old(T).(next := old(T).next[i := Some(Remove(child, rest, pipe))])
              && (ret <==> Dropped(child, rest, pipe)) && (redundant <==> Redundant(Remove(child, rest, pipe)))
      decreases |rest|, 1
    {
      hide Canonical, Remove, Dropped, NewTopic, Has;
      ret := next[i].RmHelper(rest, pipe);
      redundant := next[i].IsRedundant();
      ChildChanged(i);
      T := T.(next := T.next[i := Some(next[i].T)]);
    }

    // Drops a redundant child and compacts the table.
    method Unlink(i: nat)
      requires Valid() && i < |T.next| && T.next[i].Some? && T.live == Live(T.next) > 0 && T.min + |T.next| <= 256
      requires T.next[0].Some? && T.next[|T.next| - 1].Some?
      modifies this`next, this`min, this`live, this`T
      ensures Valid()
      ensures T == Trim(old(T).(live := old(T).live - 1, next := old(T).next[i := None]))
    {
      hide *;
      var lo, hi := Ends(i);
      DropChild(i);
      Crop(lo, hi);
    }

    lemma Mirrored()
      requires Valid()
      ensures |T.next| == |next| && T.live == live && T.pipes == pipes && (next != [] ==> T.min == min)
      ensures forall k :: 0 <= k < |next| ==> (next[k] == null <==> T.next[k].None?)
    {
    }

    // Where the table begins and ends once entry i is null.
    method Ends(i: nat) returns (lo: nat, hi: nat)
      requires Valid() && i < |T.next| && T.next[i].Some? && T.live == Live(T.next)
      requires T.next[0].Some? && T.next[|T.next| - 1].Some?
      ensures lo <= hi <= |T.next|
      ensures lo < hi ==> lo != i && hi - 1 != i && T.next[lo].Some? && T.next[hi - 1].Some?
      ensures forall k :: 0 <= k < lo || hi <= k < |T.next| ==> k == i || T.next[k].None?
    {
      hide *;
      Mirrored();
      lo, hi := 0, |next|;
      if |next| == 1 {
        LiveSingle(T.next);
        assert live - 1 <= 0;
        lo := 1;
      } else {
        LiveEnds(T.next, i);
        LiveUpdate(T.next, i, None);
        ghost var k :| 0 <= k < |T.next| && k != i && T.next[k].Some?;
        assert next[k] != null && live > 1;
        if live - 1 == 1 {
          lo := FirstChild(0, i);
          hi := lo + 1;
          LiveOne(T.next[i := None], lo);
          assert forall k :: 0 <= k < |next| && k != i ==> T.next[i := None][k] == T.next[k];
        } else if i == 0 {
          lo := FirstChild(1, i);
        } else if i == |next| - 1 {
          hi := LastChild(i);
        }
      }
    }

    // The loops that look for the new end of the table, with entry i taken as null.
    method FirstChild(from: nat, i: nat) returns (j: nat)
      requires exists k :: from <= k < |next| && k != i && next[k] != null
      ensures from <= j < |next| && j != i && next[j] != null
      ensures forall k :: from <= k < j && k != i ==> next[k] == null
    {
      j := from;
      while j == i || next[j] == null
        invariant from <= j < |next| && forall k :: from <= k < j && k != i ==> next[k] == null
        decreases |next| - j
      {
        j := j + 1;
      }
    }

    method LastChild(i: nat) returns (hi: nat)
      requires i == |next| - 1 && exists k :: 0 <= k < i && next[k] != null
      ensures 0 < hi <= i && next[hi - 1] != null && forall k :: hi <= k < i ==> next[k] == null
    {
      hi := i;
      while next[hi - 1] == null
        invariant 0 < hi <= i && forall k :: hi <= k < i ==> next[k] == null
        decreases hi
      {
        hi := hi - 1;
      }
    }

    // Removes every subscription of a pipe. buff holds the path to this node in its first buffsize
    // bytes and is at least maxbuffsize long; log lists the topics passed to the callback.
    method RmPipe(pipe: Pipe, buff: seq<Byte>, buffsize: nat, maxbuffsize: nat, log: seq<Key>)
      returns (buff': seq<Byte>, log': seq<Key>)
      requires Valid() && Canonical(T) && buffsize <= |buff| && maxbuffsize <= |buff|
      modifies Repr
      ensures Valid() && Repr == old(Repr)
      ensures T == RemovePipe(old(T), pipe)
      ensures log' == log + Abandoned(old(T), pipe, buff[..buffsize])
      ensures maxbuffsize <= |buff'| && buffsize <= |buff'| && buff'[..buffsize] == buff[..buffsize]
      decreases T.next, 3
    {
      hide *;
      ghost var t := T;
      var path := buff[..buffsize];
      CanonicalLinks(t);
      log' := RmPipeHere(pipe, path, log);
      var room := maxbuffsize;
      buff' := buff;
      if buffsize >= room {
        room := buffsize + 256;
        buff' := Realloc(buff, buffsize, room);
      }
      VisitedFirst(t, pipe, path);
      VisitedLast(t, pipe, path);
      Mirrored();
      if |next| == 0 {
        Crop(0, 0);
      } else if |next| == 1 {
        buff', log' := RmPipeChild(t, pipe, buff', buffsize, room, log');
      } else {
        buff', log' := RmPipeTable(t, pipe, buff', buffsize, room, log');
      }
    }

    method RmPipeHere(pipe: Pipe, path: Key, log: seq<Key>) returns (log': seq<Key>)
      requires Valid() && T.pipes != Some({})
      modifies this`pipes, this`T
      ensures Valid() && T == old(T).(pipes := WithoutPipe(old(T).pipes, pipe))
      ensures log' == log + if old(T).pipes == Some({pipe}) then [path] else []
    {
      log' := log;
      if pipes.Some? {
        var erased := pipe in pipes.value;
        pipes := Some(pipes.value - {pipe});
        LastOut(old(pipes).value, pipe);
        if erased && pipes.value == {} {
          log' := log + [path];
          pipes := None;
        }
      }
      T := T.(pipes := pipes);
    }

    static method Realloc(buff: seq<Byte>, used: nat, size: nat) returns (r: seq<Byte>)
      requires used <= |buff| && used <= size
      ensures |r| == size && r[..used] == buff[..used]
    {
      if size <= |buff| {
        r := buff[..size];
      } else {
        r := buff + seq(size - |buff|, _ => 0);
      }
    }

    // The recursive call on entry i, and the entry dropped if it became redundant.
    method VisitChild(i: nat, pipe: Pipe, buff: seq<Byte>, buffsize: nat, room: nat, log: seq<Key>)
      returns (buff': seq<Byte>, log': seq<Key>)
      requires Valid() && T.min + |T.next| <= 256 && T.live == Live(T.next)
      requires i < |T.next| && T.next[i].Some? && Canonical(T.next[i].value) && buffsize < room <= |buff|
      modifies Repr
      ensures Valid() && Repr == old(Repr) && min == old(min)
      ensures var next1 := old(T).next[i := RemoveLink(old(T).next[i], pipe)];
              T == old(T).(live := Live(next1), next := next1)
      ensures log' == log + AbandonedAt(old(T).min + i, old(T).next[i], pipe, buff[..buffsize])
      ensures room <= |buff'| && buff'[..buffsize] == buff[..buffsize]
      decreases T.next[i].value, 1
    {
      hide *;
      Mirrored();
      ghost var links := T.next;
      buff' := buff[buffsize := min + i];
      LinkLive(links, i, pipe);
      AbandonedPath(T.min + i, links[i], pipe, buff, buff', buffsize);
      var redundant;
      buff', log', redundant := CallChild(i, pipe, buff', buffsize + 1, room, log);
      if redundant {
        assert T.next[i := None] == links[i := None];
        DropChild(i);
      }
    }

    method CallChild(i: nat, pipe: Pipe, buff: seq<Byte>, buffsize: nat, room: nat, log: seq<Key>)
      returns (buff': seq<Byte>, log': seq<Key>, redundant: bool)
      requires Valid() && i < |T.next| && T.next[i].Some? && Canonical(T.next[i].value) && buffsize <= |buff|
      requires room <= |buff|
      modifies Repr
      ensures Valid() && Repr == old(Repr) && min == old(min)
      ensures var child := old(T).next[i].value;
              T == old(T).(next := old(T).next[i := Some(RemovePipe(child, pipe))])
              && (redundant <==> Redundant(RemovePipe(child, pipe)))
              && log' == log + Abandoned(child, pipe, buff[..buffsize])
      ensures room <= |buff'| && buffsize <= |buff'| && buff'[..buffsize] == buff[..buffsize]
      decreases T.next[i].value, 0
    {
      hide Canonical, RemovePipe, Abandoned;
      buff', log' := next[i].RmPipe(pipe, buff, buffsize, room, log);
      redundant := next[i].IsRedundant();
      ChildChanged(i);
      T := T.(next := T.next[i := Some(next[i].T)]);
    }

    method DropChild(i: nat)
      requires Valid() && i < |T.next| && T.live > 0
      modifies this`next, this`live, this`T
      ensures Valid() && T == old(T).(live := old(T).live - 1, next := old(T).next[i := None])
    {
      next := next[i := null];
      live := live - 1;
      T := T.(live := T.live - 1, next := T.next[i := None]);
      Shifted(0);
    }

    // The table reduced to its entries from lo to hi.
    method Crop(lo: nat, hi: nat)
      requires Valid() && T.min + |T.next| <= 256
      requires lo <= hi <= |T.next| && (lo < hi ==> T.next[lo].Some? && T.next[hi - 1].Some?)
      requires forall k :: 0 <= k < lo || hi <= k < |T.next| ==> T.next[k].None?
      modifies this`next, this`min, this`T
      ensures Valid() && T == Trim(old(T))
    {
      hide Trim;
      if lo < hi { TrimExactly(T, lo, hi); } else { TrimNothing(T); }
      T := Trim(T);
      next := next[lo..hi];
      min := if lo < hi then min + lo else min;
      Shifted(lo);
    }

    // The one subnode of a single-node table.
    method RmPipeChild(ghost t: Trie, pipe: Pipe, buff: seq<Byte>, buffsize: nat, room: nat, log: seq<Key>)
      returns (buff': seq<Byte>, log': seq<Key>)
      requires Valid() && Canonical(t) && |t.next| == 1 && T == Visited(t, pipe, 0) && T.next == t.next
      requires buffsize < room <= |buff|
      modifies Repr
      ensures Valid() && Repr == old(Repr) && T == Trim(Visited(t, pipe, 1))
      ensures log' == log + AbandonedBelow(t.min, t.next[..1], pipe, buff[..buffsize])
      ensures room <= |buff'| && buff'[..buffsize] == buff[..buffsize]
      decreases T.next, 2
    {
      hide *;
      ghost var path := buff[..buffsize];
      CanonicalOnly(t);
      VisitedFirst(t, pipe, path);
      VisitedNext(t, pipe, 0, path);
      buff', log' := VisitChild(0, pipe, buff, buffsize, room, log);
      Mirrored();
      LiveNone(T.next);
      if live == 0 {
        Crop(0, 0); // count = 0
      } else {
        Crop(0, 1);
      }
    }

    // The loop over a table with several entries, and its compaction.
    method RmPipeTable(ghost t: Trie, pipe: Pipe, buff: seq<Byte>, buffsize: nat, room: nat, log: seq<Key>)
      returns (buff': seq<Byte>, log': seq<Key>)
      requires Valid() && Canonical(t) && |t.next| > 1 && T == Visited(t, pipe, 0) && T.next == t.next
      requires buffsize < room <= |buff|
      modifies Repr
      ensures Valid() && Repr == old(Repr) && T == Trim(Visited(t, pipe, |t.next|))
      ensures log' == log + AbandonedBelow(t.min, t.next[..|t.next|], pipe, buff[..buffsize])
      ensures room <= |buff'| && buff'[..buffsize] == buff[..buffsize]
      decreases T.next, 2
    {
      hide *;
      ghost var path := buff[..buffsize];
      CanonicalLinks(t);
      CanonicalRange(t);
      VisitedFirst(t, pipe, path);
      BoundsStart(T.next);
      Mirrored();
      buff', log' := buff, log;
      var count := |next|;
      var newMin, newMax := min + count - 1, min;
      for c := 0 to count
        invariant Valid() && Repr == old(Repr) && min == old(min) && T == Visited(t, pipe, c)
        invariant log' == log + AbandonedBelow(t.min, t.next[..c], pipe, path)
        invariant room <= |buff'| && buff'[..buffsize] == path
        invariant Bounds(T.next, c, newMin - min, newMax - min)
      {
        Mirrored();
        VisitedNext(t, pipe, c, path);
        BoundsNext(T.next, c, RemoveLink(t.next[c], pipe), newMin - min, newMax - min);
        buff' := buff'[buffsize := min + c];
        if next[c] != null {
          buff', log' := VisitChild(c, pipe, buff', buffsize, room, log');
          Mirrored();
          if next[c] != null {
            newMin := if c + min < newMin then c + min else newMin;
            newMax := if c + min > newMax then c + min else newMax;
          }
        } else {
          assert T.next[c := None] == T.next;
        }
      }
      Mirrored();
      BoundsAreEnds(T.next, newMin - min, newMax - min);
      assert count > 1;
      if live == 0 {
        Crop(0, 0);
      } else if live == 1 {
        assert newMin == newMax && min <= newMin < min + count;
        assert next[newMin - min] != null;
        Crop(newMin - min, newMin - min + 1);
      } else if newMin > min || newMax < min + count - 1 {
        assert newMax - newMin + 1 > 1;
        assert min <= newMin && newMax <= min + count - 1 && newMax - newMin + 1 < count;
        Crop(newMin - min, newMax - min + 1);
      } else {
        Crop(0, count); // the table stays as it is
      }
    }

    // ---------- the public operations ----------

    // True if it is a new subscription rather than a duplicate.
    method AddSubscription(prefix: Key, pipe: Pipe) returns (unique: bool)
      requires Valid() && Canonical(T)
      modifies Repr
      ensures Valid() && fresh(Repr - old(Repr)) && Canonical(T)
      ensures forall k, q :: Has(T, k, q) <==> Has(old(T), k, q) || (k == prefix && q == pipe)
      ensures unique ==> forall q :: !Has(old(T), prefix, q)
      ensures !unique ==> exists q :: Has(old(T), prefix, q)
    {
      hide Add, Canonical, NewTopic, Valid;
      ghost var t := T;
      NewTopicIff(t, prefix);
      AddCanonical(t, prefix, pipe);
      forall k, q ensures Has(Add(t, prefix, pipe), k, q) <==> Has(t, k, q) || (k == prefix && q == pipe) {
        AddHas(t, prefix, pipe, k, q);
      }
      unique := AddHelper(prefix, pipe);
    }

    // Erases is zmq_assert (erased == 1): a topic that has subscribers must have this pipe among them.
    method RmSubscription(prefix: Key, pipe: Pipe) returns (ret: bool)
      requires Valid() && Canonical(T) && Erases(T, prefix, pipe)
      modifies Repr
      ensures Valid() && Repr == old(Repr) && Canonical(T)
      ensures forall k, q :: Has(T, k, q) <==> Has(old(T), k, q) && !(k == prefix && q == pipe)
      ensures ret ==> NodeAt(old(T), prefix) && forall q :: !Has(T, prefix, q)
      ensures !ret ==> !NodeAt(old(T), prefix) || exists q :: Has(T, prefix, q)
    {
      hide Remove, Canonical, NewTopic, Dropped, Valid, Erases;
      ghost var t := T;
      ErasesWhere(t, prefix, pipe);
      NewTopicIff(t, prefix);
      DroppedIff(t, prefix, pipe);
      RemoveCanonical(t, prefix, pipe);
      forall k, q ensures Has(Remove(t, prefix, pipe), k, q) <==> Has(t, k, q) && !(k == prefix && q == pipe) {
        RemoveHas(t, prefix, pipe, k, q);
      }
      if !Dropped(t, prefix, pipe) && NodeAt(t, prefix) {
        ghost var q :| Has(t, prefix, q) && q != pipe;
        assert Has(Remove(t, prefix, pipe), prefix, q);
      }
      ret := RmHelper(prefix, pipe);
    }

    // topics are the arguments of the callback, one call each.
    method RmAllSubscriptions(pipe: Pipe) returns (topics: seq<Key>)
      requires Valid() && Canonical(T)
      modifies Repr
      ensures Valid() && Repr == old(Repr) && Canonical(T)
      ensures forall k, q :: Has(T, k, q) <==> Has(old(T), k, q) && q != pipe
      ensures forall k :: multiset(topics)[k] == if Sole(old(T), k, pipe) then 1 else 0
    {
      hide RemovePipe, Abandoned, Canonical, Valid, Sole;
      ghost var t := T;
      CanonicalRange(t);
      RemovePipeCanonical(t, pipe);
      forall k, q ensures Has(RemovePipe(t, pipe), k, q) <==> Has(t, k, q) && q != pipe {
        RemovePipeHas(t, pipe, k, q);
      }
      forall k ensures multiset(Abandoned(t, pipe, []))[k] == if Sole(t, k, pipe) then 1 else 0 {
        assert [] + k == k;
        AbandonedExactly(t, pipe, [], k);
      }
      var buff;
      buff, topics := RmPipe(pipe, [], 0, 0, []);
    }

    // The pipes signalled, in order.
    method MatchPipes(data: Key) returns (signalled: seq<Pipe>)
      requires Valid()
      ensures forall p :: multiset(signalled)[p] == Hits(T, data, p, |data|)
    {
      hide *;
      signalled := [];
      MatchAll(T, data);
      var current: MtrieNode := this;
      var i := 0;
      ghost var goal := Match(T, data);
      assert data[0..] == data && multiset([]) + goal == goal;
      while true
        invariant i <= |data| && current.Valid()
        invariant multiset(signalled) + Match(current.T, data[i..]) == goal
        decreases |data| - i
      {
        MatchStep(current.T, data[i..]);
        current.Mirrored();
        if current.pipes.Some? {
          signalled := Signal(current.pipes.value, signalled);
        }
        if i < |data| { current.ChildHere(data[i]); }
        if i == |data| || |current.next| == 0 {
          break;
        }
        if data[i] < current.min || data[i] >= current.min + |current.next| {
          break;
        }
        if current.next[data[i] - current.min] == null {
          break;
        }
        current := current.next[data[i] - current.min];
        i := i + 1;
      }
    }

    static method Signal(pipes: set<Pipe>, signalled: seq<Pipe>) returns (r: seq<Pipe>)
      ensures multiset(r) == multiset(signalled) + multiset(pipes)
    {
      r := signalled;
      var rest := pipes;
      while rest != {}
        invariant multiset(r) + multiset(rest) == multiset(signalled) + multiset(pipes)
        decreases rest
      {
        var p :| p in rest;
        r, rest := r + [p], rest - {p};
      }
    }
  }
}
