// The subscription trie as a value: what a node and its children hold, and what each operation makes of it.
module MtrieModel {
  import opened Common

  type Pipe = nat // the address of a pipe_t
  type Key = seq<Byte>

  // pipes is None for a null pointer. next has count entries, for the characters from min on.
  datatype Trie = Trie(pipes: Option<set<Pipe>>, min: nat, live: nat, next: seq<Option<Trie>>)

  const Fresh := Trie(None, 0, 0, [])

  predicate Redundant(t: Trie)
  {
    t.pipes.None? && t.live == 0
  }

  predicate InTable(t: Trie, c: Byte)
  {
    t.min <= c < t.min + |t.next|
  }

  predicate HasChild(t: Trie, c: Byte)
  {
    InTable(t, c) && t.next[c - t.min].Some?
  }

  function Child(t: Trie, c: Byte): (r: Trie)
    requires HasChild(t, c)
    ensures r < t
  {
    t.next[c - t.min].value
  }

  // Pipe p subscribed to key.
  predicate Has(t: Trie, key: Key, p: Pipe)
    decreases key
  {
    if key == [] then t.pipes.Some? && p in t.pipes.value
    else HasChild(t, key[0]) && Has(Child(t, key[0]), key[1..], p)
  }

  // There is a node for key.
  predicate NodeAt(t: Trie, key: Key)
    decreases key
  {
    key == [] || (HasChild(t, key[0]) && NodeAt(Child(t, key[0]), key[1..]))
  }

  function Live(next: seq<Option<Trie>>): nat
  {
    if next == [] then 0 else (if next[0].Some? then 1 else 0) + Live(next[1..])
  }

  // The form every trie keeps: exact live count, no null at either end of the table, no empty
  // pipe set and no redundant child.
  predicate Canonical(t: Trie)
    decreases t
  {
    && t.pipes != Some({})
    && t.live == Live(t.next)
    && t.min + |t.next| <= 256
    && (t.next == [] ==> t.min == 0)
    && (t.next != [] ==> t.next[0].Some? && t.next[|t.next| - 1].Some?)
    && forall i :: 0 <= i < |t.next| && t.next[i].Some? ==> !Redundant(t.next[i].value) && Canonical(t.next[i].value)
  }

  // ---------- add ----------

  function Nulls(n: nat): (r: seq<Option<Trie>>)
    ensures |r| == n && forall i :: 0 <= i < n ==> r[i] == None
  {
    seq(n, _ => None)
  }

  // The table grown to reach c.
  function Grow(t: Trie, c: Byte): Trie
    requires t.min + |t.next| <= 256
  {
    if t.next == [] then t.(min := c, next := Nulls(1))
    else if c < t.min then t.(min := c, next := Nulls(t.min - c) + t.next)
    else if c >= t.min + |t.next| then t.(next := t.next + Nulls(c + 1 - t.min - |t.next|))
    else t
  }

  function ChildOrFresh(t: Trie, c: Byte): Trie
  {
    if HasChild(t, c) then Child(t, c) else Fresh
  }

  function PutChild(t: Trie, c: Byte, child: Trie): Trie
    requires InTable(t, c)
  {
    t.(live := if t.next[c - t.min].Some? then t.live else t.live + 1, next := t.next[c - t.min := Some(child)])
  }

  function Add(t: Trie, key: Key, p: Pipe): Trie
    requires Canonical(t)
    decreases key
  {
    if key == [] then t.(pipes := Some((if t.pipes.Some? then t.pipes.value else {}) + {p}))
    else PutChild(Grow(t, key[0]), key[0], Add(ChildOrFresh(t, key[0]), key[1..], p))
  }

  // ---------- rm ----------

  // Null entries removed from both ends of the table.
  function TrimLeft(min: nat, next: seq<Option<Trie>>): (nat, seq<Option<Trie>>)
    decreases |next|
  {
    if next != [] && next[0].None? then TrimLeft(min + 1, next[1..]) else (min, next)
  }

  function TrimRight(next: seq<Option<Trie>>): seq<Option<Trie>>
    decreases |next|
  {
    if next != [] && next[|next| - 1].None? then TrimRight(next[..|next| - 1]) else next
  }

  function Trim(t: Trie): Trie
  {
    var left := TrimLeft(t.min, t.next);
    var next := TrimRight(left.1);
    t.(min := if next == [] then 0 else left.0, next := next)
  }

  function WithoutPipe(pipes: Option<set<Pipe>>, p: Pipe): Option<set<Pipe>>
  {
    if pipes.None? || pipes.value - {p} == {} then None else Some(pipes.value - {p})
  }

  function Prune(child: Trie): Option<Trie>
  {
    if Redundant(child) then None else Some(child)
  }

  // The specific subscription removed.
  function Remove(t: Trie, key: Key, p: Pipe): Trie
    decreases key
  {
    if key == [] then t.(pipes := WithoutPipe(t.pipes, p))
    else if !HasChild(t, key[0]) then t
    else
      var i := key[0] - t.min;
      var link := Prune(Remove(Child(t, key[0]), key[1..], p));
      if link.Some? then t.(next := t.next[i := link])
      else Trim(t.(live := if t.live > 0 then t.live - 1 else 0, next := t.next[i := None]))
  }

  // All subscriptions of the pipe removed.
  function RemovePipe(t: Trie, p: Pipe): Trie
    decreases t, 1
  {
    var next := RemoveLinks(t.next, p);
    Trim(t.(pipes := WithoutPipe(t.pipes, p), live := Live(next), next := next))
  }

  function RemoveLinks(next: seq<Option<Trie>>, p: Pipe): (r: seq<Option<Trie>>)
    ensures |r| == |next|
    ensures forall i :: 0 <= i < |next| ==> r[i] == RemoveLink(next[i], p)
    decreases next, 0
  {
    if next == [] then [] else [RemoveLink(next[0], p)] + RemoveLinks(next[1..], p)
  }

  function RemoveLink(link: Option<Trie>, p: Pipe): Option<Trie>
    decreases link, 0
  {
    if link.None? then None else Prune(RemovePipe(link.value, p))
  }

  // The topics the callback is invoked on, in order.
  function Abandoned(t: Trie, p: Pipe, path: Key): seq<Key>
    requires t.min + |t.next| <= 256 && Canonical(t)
    decreases t, 1
  {
    (if t.pipes == Some({p}) then [path] else []) + AbandonedBelow(t.min, t.next, p, path)
  }

  function AbandonedBelow(min: nat, next: seq<Option<Trie>>, p: Pipe, path: Key): seq<Key>
    requires min + |next| <= 256
    requires forall i :: 0 <= i < |next| && next[i].Some? ==> Canonical(next[i].value)
    decreases next, 0
  {
    if next == [] then []
    else AbandonedAt(min, next[0], p, path) + AbandonedBelow(min + 1, next[1..], p, path)
  }

  function AbandonedAt(c: Byte, link: Option<Trie>, p: Pipe, path: Key): seq<Key>
    requires link.Some? ==> Canonical(link.value)
    decreases link, 2
  {
    if link.Some? then Abandoned(link.value, p, path + [c]) else []
  }

  // ---------- match ----------

  function Match(t: Trie, data: Key): multiset<Pipe>
    decreases data
  {
    (if t.pipes.Some? then multiset(t.pipes.value) else multiset{})
    + (if data != [] && HasChild(t, data[0]) then Match(Child(t, data[0]), data[1..]) else multiset{})
  }

  // ---------- what the operations return ----------

  // add: nobody was subscribed to key before.
  predicate NewTopic(t: Trie, key: Key)
    decreases key
  {
    if key == [] then t.pipes.None?
    else HasChild(t, key[0]) ==> NewTopic(Child(t, key[0]), key[1..])
  }

  // rm: there is a node for key, and it is left without pipes.
  predicate Dropped(t: Trie, key: Key, p: Pipe)
    decreases key
  {
    if key == [] then WithoutPipe(t.pipes, p).None?
    else HasChild(t, key[0]) && Dropped(Child(t, key[0]), key[1..], p)
  }

  // rm: the assertion that the pipe was erased, where there are pipes at the node of key.
  predicate Erases(t: Trie, key: Key, p: Pipe)
    decreases key
  {
    if key == [] then t.pipes.Some? ==> p in t.pipes.value
    else HasChild(t, key[0]) ==> Erases(Child(t, key[0]), key[1..], p)
  }

  // ---------- runs ----------

  datatype Op = AddOp(key: Key, pipe: Pipe) | RemoveOp(key: Key, pipe: Pipe) | RemovePipeOp(pipe: Pipe)

  function Apply(t: Trie, op: Op): Trie
    requires Canonical(t)
  {
    match op
    case AddOp(key, p) => Add(t, key, p)
    case RemoveOp(key, p) => Remove(t, key, p)
    case RemovePipeOp(p) => RemovePipe(t, p)
  }

  // The reference: the last operation that concerns the pair decides.
  predicate Subscribed(ops: seq<Op>, key: Key, p: Pipe)
  {
    ops != [] &&
    var before := ops[..|ops| - 1];
    match ops[|ops| - 1]
    case AddOp(k, q) => (k == key && q == p) || Subscribed(before, key, p)
    case RemoveOp(k, q) => !(k == key && q == p) && Subscribed(before, key, p)
    case RemovePipeOp(q) => q != p && Subscribed(before, key, p)
  }
}
