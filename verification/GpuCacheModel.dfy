// The values behind GpuCache: which slab ids are free, which belong to cached items, what they hold.
module GpuCacheModel {
  import opened Common
  import opened Slabs

  type Key = string
  type Bytes = seq<bv8>

  const SLAB: nat := 1024

  datatype Item = Item(length: nat, lengthType: nat, slabs: seq<nat>)

  type Items = map<Key, Item>

  // Each slab id below n once.
  ghost function Range(n: nat): multiset<nat>
  {
    if n == 0 then multiset{} else Range(n - 1) + multiset{n - 1}
  }

  // The slabs of the queued items, leaving out one key.
  function Flat(queue: seq<Key>, items: Items, skip: set<Key>): seq<nat>
    requires forall k :: k in queue ==> k in items
  {
    if queue == [] then []
    else (if queue[0] in skip then [] else items[queue[0]].slabs) + Flat(queue[1..], items, skip)
  }

  // The free slabs and the slabs of the queued items are all slabs, each exactly once.
  ghost predicate Partition(free: seq<nat>, queue: seq<Key>, items: Items, skip: set<Key>, n: nat)
    requires forall k :: k in queue ==> k in items
  {
    multiset(free) + multiset(Flat(queue, items, skip)) == Range(n)
  }

  predicate Within(ids: seq<nat>, n: nat)
  {
    forall i :: 0 <= i < |ids| ==> ids[i] < n
  }

  // The bytes of a list of slabs.
  function Contents(memory: seq<Bytes>, ids: seq<nat>): Bytes
    requires Within(ids, |memory|)
  {
    if ids == [] then [] else memory[ids[0]] + Contents(memory, ids[1..])
  }

  predicate WellSized(item: Item)
  {
    item.lengthType == SlabType(item.length) <= MAX_TYPE
    && |item.slabs| == SlabCount(item.lengthType)
  }

  // The queue holds every cached key once.
  ghost predicate Queued(queue: seq<Key>, items: Items)
  {
    Distinct(queue) && (forall k :: k in queue <==> k in items) && forall k :: k in items ==> WellSized(items[k])
  }

  lemma {:induction false} RangeCount(n: nat)
    ensures |Range(n)| == n && forall i: nat :: Range(n)[i] == if i < n then 1 else 0
  {
    if n > 0 {
      RangeCount(n - 1);
    }
  }

  // What a partition says about single ids.
  lemma Parts(a: seq<nat>, b: seq<nat>, n: nat)
    requires multiset(a) + multiset(b) == Range(n)
    ensures |a| + |b| == n && Distinct(a)
    ensures forall id :: id in a ==> id < n && id !in b
    ensures forall id :: id in b ==> id < n
  {
    RangeCount(n);
    assert |multiset(a) + multiset(b)| == |a| + |b|;
    forall id | id in a ensures id < n && id !in b {
      assert multiset(a)[id] >= 1 && Range(n)[id] == multiset(a)[id] + multiset(b)[id];
    }
    forall id | id in b ensures id < n {
      assert multiset(b)[id] >= 1 && Range(n)[id] == multiset(a)[id] + multiset(b)[id];
    }
    forall i, j | 0 <= i < j < |a| ensures a[i] != a[j] {
      assert Range(n)[a[i]] == multiset(a)[a[i]] + multiset(b)[a[i]];
      OnlyOnce(a, i, j);
    }
  }

  lemma OnlyOnce(a: seq<nat>, i: nat, j: nat)
    requires i < j < |a|
    ensures a[i] == a[j] ==> multiset(a)[a[i]] >= 2
  {
    assert a == a[..i] + [a[i]] + a[i + 1..j] + [a[j]] + a[j + 1..];
  }

  lemma {:induction false} FlatItem(queue: seq<Key>, items: Items, skip: set<Key>, k: Key)
    requires forall k :: k in queue ==> k in items
    requires k in queue && k !in skip
    ensures forall id :: id in items[k].slabs ==> id in Flat(queue, items, skip)
  {
    if queue[0] != k {
      assert k in queue[1..];
      FlatItem(queue[1..], items, skip, k);
    }
  }

  lemma {:induction false} FlatAppend(queue: seq<Key>, items: Items, skip: set<Key>, k: Key)
    requires forall j :: j in queue + [k] ==> j in items
    ensures forall j :: j in queue ==> j in items
    ensures Flat(queue + [k], items, skip) == Flat(queue, items, skip) + if k in skip then [] else items[k].slabs
  {
    if queue == [] {
      assert [] + [k] == [k];
    } else {
      assert (queue + [k])[1..] == queue[1..] + [k] && (queue + [k])[0] == queue[0];
      var first := if queue[0] in skip then [] else items[queue[0]].slabs;
      var last := if k in skip then [] else items[k].slabs;
      FlatAppend(queue[1..], items, skip, k);
      assert first + (Flat(queue[1..], items, skip) + last) == (first + Flat(queue[1..], items, skip)) + last;
    }
  }

  // Only the queued items that are not skipped matter.
  lemma {:induction false} FlatSame(queue: seq<Key>, items: Items, others: Items, skip: set<Key>)
    requires forall k :: k in queue ==> k in items && k in others && (k in skip || items[k].slabs == others[k].slabs)
    ensures Flat(queue, items, skip) == Flat(queue, others, skip)
  {
    if queue != [] {
      FlatSame(queue[1..], items, others, skip);
    }
  }

  lemma {:induction false} FlatNoSkip(queue: seq<Key>, items: Items, key: Key)
    requires key !in queue && forall k :: k in queue ==> k in items
    ensures Flat(queue, items, {key}) == Flat(queue, items, {})
  {
    if queue != [] {
      FlatNoSkip(queue[1..], items, key);
    }
  }

  // Leaving a queued key out leaves out its slabs.
  lemma {:induction false} FlatSkip(queue: seq<Key>, items: Items, key: Key)
    requires key in queue && Distinct(queue) && forall k :: k in queue ==> k in items
    ensures multiset(Flat(queue, items, {})) == multiset(Flat(queue, items, {key})) + multiset(items[key].slabs)
  {
    if queue[0] == key {
      FlatNoSkip(queue[1..], items, key);
    } else {
      FlatSkip(queue[1..], items, key);
    }
  }

  lemma {:induction false} ContentsSame(memory: seq<Bytes>, others: seq<Bytes>, ids: seq<nat>)
    requires Within(ids, |memory|) && Within(ids, |others|)
    requires forall i :: 0 <= i < |ids| ==> memory[ids[i]] == others[ids[i]]
    ensures Contents(memory, ids) == Contents(others, ids)
  {
    if ids != [] {
      ContentsSame(memory, others, ids[1..]);
    }
  }

  lemma Shifted(value: Bytes, i: nat)
    requires |value| >= SLAB * (i + 2)
    ensures value[SLAB * (i + 1)..SLAB * (i + 2)] == value[SLAB..][SLAB * i..SLAB * (i + 1)]
  {
    Slices(value, SLAB, SLAB * i, SLAB * (i + 1));
    assert SLAB + SLAB * i == SLAB * (i + 1) && SLAB + SLAB * (i + 1) == SLAB * (i + 2);
  }

  lemma Slices(value: Bytes, n: nat, lo: nat, hi: nat)
    requires n <= |value| && lo <= hi && n + hi <= |value|
    ensures value[n + lo..n + hi] == value[n..][lo..hi]
  {
  }

  // Slabs filled piece by piece hold the value.
  lemma {:induction false} ContentsFilled(memory: seq<Bytes>, ids: seq<nat>, value: Bytes)
    requires |value| == SLAB * |ids| && Within(ids, |memory|)
    requires forall i :: 0 <= i < |ids| ==> memory[ids[i]] == value[SLAB * i..SLAB * (i + 1)]
    ensures Contents(memory, ids) == value
    decreases |ids|
  {
    if ids != [] {
      var rest := value[SLAB..];
      forall i | 0 <= i < |ids[1..]| ensures memory[ids[1..][i]] == rest[SLAB * i..SLAB * (i + 1)] {
        assert ids[1..][i] == ids[i + 1];
        Shifted(value, i);
      }
      ContentsFilled(memory, ids[1..], rest);
      assert value == value[..SLAB] + rest;
      assert memory[ids[0]] == value[..SLAB];
    }
  }

  lemma {:induction false} ContentsConcat(memory: seq<Bytes>, a: seq<nat>, b: seq<nat>)
    requires Within(a, |memory|) && Within(b, |memory|)
    ensures Within(a + b, |memory|)
    ensures Contents(memory, a + b) == Contents(memory, a) + Contents(memory, b)
    decreases |a|
  {
    if a == [] {
      assert a + b == b;
    } else {
      ContentsConcat(memory, a[1..], b);
      hide Within;
      Unfold(memory, a);
      Unfold(memory, a + b);
      assert (a + b)[1..] == a[1..] + b && (a + b)[0] == a[0];
    }
  }

  lemma Unfold(memory: seq<Bytes>, ids: seq<nat>)
    requires ids != [] && Within(ids, |memory|)
    ensures ids[0] < |memory| && Within(ids[1..], |memory|)
    ensures Contents(memory, ids) == memory[ids[0]] + Contents(memory, ids[1..])
  {
  }

  lemma {:induction false} ContentsLength(memory: seq<Bytes>, ids: seq<nat>)
    requires Within(ids, |memory|) && forall i :: 0 <= i < |memory| ==> |memory[i]| == SLAB
    ensures |Contents(memory, ids)| == SLAB * |ids|
  {
    if ids != [] {
      ContentsLength(memory, ids[1..]);
    }
  }

  // What the old slabs of an overwritten item hold. They queued up behind f free slabs, the new value
  // takes the first n of the queue; so the old slabs may be among those that it is written to.
  function Reused(before: Bytes, f: nat, n: nat, value: Bytes): Bytes
    requires |value| >= SLAB * n
  {
    var m := |before| / SLAB;
    if n <= f then before
    else
      var end := if n <= f + m then n else f + m;
      value[SLAB * f..SLAB * end] + before[SLAB * (end - f)..]
  }

  // What a reader of an overwritten item gets: the old slabs, which are still in front, and then the new ones.
  function Shown(before: Bytes, f: nat, n: nat, value: Bytes): Bytes
    requires |value| >= SLAB * n
  {
    Reused(before, f, n, value) + value[..SLAB * n]
  }

  // With enough free slabs the reader gets what was there before, and is right only if that agrees.
  lemma RoomyShownIff(before: Bytes, f: nat, n: nat, value: Bytes, length: nat)
    requires n <= f && length <= SLAB * n <= |value|
    ensures |Shown(before, f, n, value)| >= length
    ensures Shown(before, f, n, value)[..length] == value[..length] <==>
              if length <= |before| then before[..length] == value[..length]
              else before == value[..|before|] && value[..length - |before|] == value[|before|..length]
  {
    var shown := before + value[..SLAB * n];
    assert Shown(before, f, n, value) == shown;
    if length <= |before| {
      assert shown[..length] == before[..length];
    } else {
      var b := |before|;
      assert shown[..length] == before + value[..length - b];
      assert value[..length] == value[..b] + value[b..length];
      if shown[..length] == value[..length] {
        assert before == shown[..length][..b] && value[..length - b] == shown[..length][b..];
      }
    }
  }

  // With no free slab, and no more slabs needed than before, the old slabs are written anew.
  lemma FullShown(before: Bytes, n: nat, value: Bytes, length: nat)
    requires length <= SLAB * n <= |value| && SLAB * n <= |before|
    ensures |Shown(before, 0, n, value)| >= length
    ensures Shown(before, 0, n, value)[..length] == value[..length]
  {
    assert n <= |before| / SLAB;
    if n == 0 {
      assert length == 0;
    } else {
      assert Reused(before, 0, n, value) == value[..SLAB * n] + before[SLAB * n..];
      assert value[..SLAB * n][..length] == value[..length];
    }
  }

  // The first n slabs of the queue have been filled with the value, piece by piece, and no others.
  ghost predicate Filled(memory: seq<Bytes>, others: seq<Bytes>, free: seq<nat>, n: nat, value: Bytes)
  {
    && |memory| == |others| && Within(free, |memory|) && n <= |free| && |value| >= SLAB * n
    && (forall i :: 0 <= i < n ==> others[free[i]] == value[SLAB * i..SLAB * (i + 1)])
    && forall id :: 0 <= id < |memory| && id !in free[..n] ==> others[id] == memory[id]
  }

  lemma FilledNext(memory: seq<Bytes>, others: seq<Bytes>, free: seq<nat>, n: nat, value: Bytes)
    requires Filled(memory, others, free, n, value) && Distinct(free) && n < |free| && |value| >= SLAB * (n + 1)
    ensures free[n] < |others|
    ensures Filled(memory, others[free[n] := value[SLAB * n..SLAB * (n + 1)]], free, n + 1, value)
  {
    assert free[..n + 1] == free[..n] + [free[n]];
  }

  lemma OneMore(kept: seq<nat>, free: seq<nat>, i: nat)
    requires i < |free|
    ensures kept + free[..i] + [free[i]] == kept + free[..i + 1] && free[i..][1..] == free[i + 1..]
  {
    assert free[..i + 1] == free[..i] + [free[i]];
  }

  lemma FilledNone(memory: seq<Bytes>, free: seq<nat>, value: Bytes)
    requires Within(free, |memory|)
    ensures Filled(memory, memory, free, 0, value)
  {
  }

  // kept are the slabs of the item before, the first count of free are filled with the value.
  lemma OverwriteShown(
      memory: seq<Bytes>, others: seq<Bytes>, free: seq<nat>, f: nat, kept: seq<nat>, count: nat, value: Bytes)
    requires Filled(memory, others, free, count, value) && Distinct(free)
    requires forall i :: 0 <= i < |memory| ==> |memory[i]| == SLAB
    requires f + |kept| <= |free| && kept == free[f..f + |kept|]
    ensures Within(kept, |memory|) && Within(kept + free[..count], |others|)
    ensures Contents(others, kept + free[..count]) == Shown(Contents(memory, kept), f, count, value)
  {
    hide Contents, Reused;
    FilledRange(others, free, 0, count, count, value);
    ReusedSlabs(memory, others, free, f, kept, count, value);
    ContentsConcat(others, kept, free[..count]);
  }

  lemma ReusedSlabs(
      memory: seq<Bytes>, others: seq<Bytes>, free: seq<nat>, f: nat, kept: seq<nat>, count: nat, value: Bytes)
    requires Filled(memory, others, free, count, value) && Distinct(free)
    requires forall i :: 0 <= i < |memory| ==> |memory[i]| == SLAB
    requires f + |kept| <= |free| && kept == free[f..f + |kept|]
    ensures Within(kept, |memory|) && Contents(others, kept) == Reused(Contents(memory, kept), f, count, value)
  {
    hide Contents, Distinct, Reused;
    var hi := f + |kept|;
    var end := if count <= f then f else if count <= hi then count else hi;
    ContentsLength(memory, kept);
    ReusedIs(Contents(memory, kept), f, |kept|, count, value);
    OldSlabs(memory, others, free, end, hi, count);
    if count > f {
      FilledRange(others, free, f, end, count, value);
      ContentsSplit(memory, free, f, end, hi);
      ContentsSplit(others, free, f, end, hi);
      ContentsLength(memory, free[f..end]);
    }
  }

  lemma ReusedIs(before: Bytes, f: nat, m: nat, n: nat, value: Bytes)
    requires |before| == SLAB * m && |value| >= SLAB * n
    ensures n <= f ==> Reused(before, f, n, value) == before
    ensures n > f ==>
              var end := if n <= f + m then n else f + m;
              forall a, b :: before == a + b && |a| == SLAB * (end - f) ==>
                Reused(before, f, n, value) == value[SLAB * f..SLAB * end] + b
  {
  }

  // The contents of two ranges of the queue that follow each other.
  lemma ContentsSplit(memory: seq<Bytes>, free: seq<nat>, lo: nat, mid: nat, hi: nat)
    requires Within(free, |memory|) && lo <= mid <= hi <= |free|
    ensures Within(free[lo..mid], |memory|) && Within(free[mid..hi], |memory|) && Within(free[lo..hi], |memory|)
    ensures Contents(memory, free[lo..hi]) == Contents(memory, free[lo..mid]) + Contents(memory, free[mid..hi])
  {
    hide Contents;
    assert free[lo..hi] == free[lo..mid] + free[mid..hi];
    ContentsConcat(memory, free[lo..mid], free[mid..hi]);
  }

  // Slabs behind the first count of the queue keep what they hold.
  lemma OldSlabs(memory: seq<Bytes>, others: seq<Bytes>, free: seq<nat>, lo: nat, hi: nat, count: nat)
    requires |memory| == |others| && Distinct(free) && Within(free, |memory|) && lo <= hi <= |free|
    requires count <= lo || lo == hi
    requires count <= |free| && forall id :: 0 <= id < |memory| && id !in free[..count] ==> others[id] == memory[id]
    ensures Within(free[lo..hi], |memory|) && Contents(others, free[lo..hi]) == Contents(memory, free[lo..hi])
  {
    hide Contents;
    ContentsSame(others, memory, free[lo..hi]);
  }

  lemma FilledRange(others: seq<Bytes>, free: seq<nat>, lo: nat, hi: nat, count: nat, value: Bytes)
    requires Within(free, |others|) && lo <= hi <= count <= |free| && |value| >= SLAB * count
    requires forall i :: 0 <= i < count ==> others[free[i]] == value[SLAB * i..SLAB * (i + 1)]
    ensures Within(free[lo..hi], |others|) && Contents(others, free[lo..hi]) == value[SLAB * lo..SLAB * hi]
    ensures free[0..hi] == free[..hi] && value[0..SLAB * hi] == value[..SLAB * hi]
  {
    hide Contents;
    var ids, part := free[lo..hi], value[SLAB * lo..SLAB * hi];
    forall i | 0 <= i < |ids| ensures others[ids[i]] == part[SLAB * i..SLAB * (i + 1)] {
      assert ids[i] == free[lo + i];
      Piece(value, lo, hi, i);
    }
    ContentsFilled(others, ids, part);
  }

  lemma Piece(value: Bytes, lo: nat, hi: nat, i: nat)
    requires lo + i < hi && SLAB * hi <= |value|
    ensures value[SLAB * lo..SLAB * hi][SLAB * i..SLAB * (i + 1)] == value[SLAB * (lo + i)..SLAB * (lo + i + 1)]
  {
    Inner(value, SLAB * lo, SLAB * hi, SLAB * i, SLAB * (i + 1));
    assert SLAB * lo + SLAB * i == SLAB * (lo + i) && SLAB * lo + SLAB * (i + 1) == SLAB * (lo + i + 1);
  }

  lemma Inner(value: Bytes, from: nat, to: nat, lo: nat, hi: nat)
    requires from <= to <= |value| && lo <= hi && from + hi <= to
    ensures value[from..to][lo..hi] == value[from + lo..from + hi]
  {
    var a, b := value[from..to][lo..hi], value[from + lo..from + hi];
    forall i | 0 <= i < hi - lo ensures a[i] == b[i] {
      assert a[i] == value[from..to][lo + i] == value[from + lo + i];
    }
  }

  // Every cached item's slabs begin with the value that was inserted.
  ghost predicate Holding(memory: seq<Bytes>, items: Items, stored: map<Key, Bytes>)
  {
    && (forall i :: 0 <= i < |memory| ==> |memory[i]| == SLAB)
    && forall k :: k in items ==> k in stored && Holds(memory, items[k], stored[k])
  }

  ghost predicate Holds(memory: seq<Bytes>, item: Item, value: Bytes)
  {
    && Within(item.slabs, |memory|) && item.length == |value| <= |Contents(memory, item.slabs)|
    && Contents(memory, item.slabs)[..item.length] == value
  }

  // While an insertion makes room: the key's own slabs, if it had any, count as free already.
  ghost predicate Inserting(free: seq<nat>, queue: seq<Key>, items: Items, key: Key, n: nat)
  {
    && Distinct(queue) && (forall k :: k in queue ==> k in items) && (forall k :: k in items ==> WellSized(items[k]))
    && (forall k :: k in items && k != key ==> k in queue)
    && Partition(free, queue, items, {key}, n)
  }

  lemma StartFresh(free: seq<nat>, queue: seq<Key>, items: Items, key: Key, n: nat)
    requires Queued(queue, items) && Partition(free, queue, items, {}, n) && key !in items
    ensures Inserting(free, queue, items, key, n)
  {
    FlatNoSkip(queue, items, key);
  }

  lemma StartOverwrite(free: seq<nat>, queue: seq<Key>, items: Items, key: Key, n: nat)
    requires Queued(queue, items) && Partition(free, queue, items, {}, n) && key in items
    ensures Inserting(free + items[key].slabs, queue, items, key, n)
  {
    FlatSkip(queue, items, key);
  }

  // With fewer free slabs than there are, some other item is still queued.
  lemma QueueNotEmpty(free: seq<nat>, queue: seq<Key>, items: Items, key: Key, n: nat)
    requires Inserting(free, queue, items, key, n) && |free| < n
    ensures queue != []
  {
    Parts(free, Flat(queue, items, {key}), n);
  }

  lemma QueuedCached(free: seq<nat>, queue: seq<Key>, items: Items, key: Key, n: nat)
    requires Inserting(free, queue, items, key, n)
    ensures Distinct(queue) && (forall k :: k in queue ==> k in items && WellSized(items[k]))
    ensures forall k :: k in items && k != key ==> k in queue
  {
  }

  // The front of the queue goes, and its slabs with it unless it is the key itself.
  lemma EvictFront(free: seq<nat>, queue: seq<Key>, items: Items, key: Key, n: nat)
    requires Inserting(free, queue, items, key, n) && queue != []
    ensures var d := queue[0];
            if d == key then Inserting(free, queue[1..], items, key, n)
            else Inserting(free + items[d].slabs, queue[1..], items - {d}, key, n)
  {
    var d, rest := queue[0], queue[1..];
    assert forall k :: k in rest ==> k in queue && k != d;
    EvictPartition(free, queue, items, key, n);
    hide Partition, WellSized;
  }

  lemma EvictPartition(free: seq<nat>, queue: seq<Key>, items: Items, key: Key, n: nat)
    requires queue != [] && Distinct(queue) && (forall k :: k in queue ==> k in items)
    requires Partition(free, queue, items, {key}, n)
    ensures var d, rest := queue[0], queue[1..];
            && (forall k :: k in rest ==> k in items && k != d)
            && (if d == key then Partition(free, rest, items, {key}, n)
                else Partition(free + items[d].slabs, rest, items - {d}, {key}, n))
  {
    var d, rest := queue[0], queue[1..];
    forall k | k in rest ensures k in items && k != d { assert k in queue; }
    if d != key {
      FlatSame(rest, items, items - {d}, {key});
    }
  }

  lemma FreshQueued(free: seq<nat>, queue: seq<Key>, items: Items, key: Key, n: nat, item: Item)
    requires Inserting(free, queue, items, key, n) && key !in items && WellSized(item)
    requires |item.slabs| <= |free| && item.slabs == free[..|item.slabs|]
    ensures Queued(queue + [key], items[key := item])
    ensures Partition(free[|item.slabs|..], queue + [key], items[key := item], {}, n)
  {
    NowQueued(queue, items, key, item);
    var items' := items[key := item];
    FlatAppend(queue, items', {}, key);
    FlatNoSkip(queue, items, key);
    FlatSame(queue, items, items', {});
    assert free == item.slabs + free[|item.slabs|..];
    hide Queued, Distinct, WellSized, Flat;
    assert Partition(free[|item.slabs|..], queue + [key], items', {}, n);
  }

  lemma NowQueued(queue: seq<Key>, items: Items, key: Key, item: Item)
    requires Distinct(queue) && (forall k :: k in queue ==> k in items)
    requires (forall k :: k in items ==> WellSized(items[k]))
    requires (forall k :: k in items && k != key ==> k in queue) && key !in items && WellSized(item)
    ensures Queued(queue + [key], items[key := item])
  {
    hide WellSized;
  }

  // The old slabs are in the item and also free or in use again.
  lemma OverwriteLost(free: seq<nat>, queue: seq<Key>, items: Items, key: Key, n: nat, item: Item, used: nat)
    requires Inserting(free, queue, items, key, n) && key in items && used <= |free|
    requires item.slabs == items[key].slabs + free[..used]
    ensures var after := if key in queue then queue else queue + [key];
            && (forall k :: k in after ==> k in items[key := item])
            && !Partition(free[used..], after, items[key := item], {}, n)
  {
    var after := if key in queue then queue else queue + [key];
    var items' := items[key := item];
    FlatSkip(after, items', key);
    FlatSame(queue, items, items', {key});
    if key !in queue {
      FlatAppend(queue, items', {key}, key);
    }
    assert Flat(after, items', {key}) == Flat(queue, items, {key});
    Parts(free, Flat(queue, items, {key}), n);
    RangeCount(n);
    assert |multiset(free[used..]) + multiset(Flat(after, items', {}))|
        == |free| - used + |Flat(queue, items, {key})| + |item.slabs|;
  }

  // What is written to free slabs leaves the cached items as they are.
  lemma HoldingInsert(
    memory: seq<Bytes>, others: seq<Bytes>, free: seq<nat>, queue: seq<Key>, items: Items, key: Key, n: nat, item: Item,
    stored: map<Key, Bytes>, value: Bytes)
    requires Inserting(free, queue, items, key, n) && Holding(memory, items, stored) && key !in items
    requires |memory| == |others| == n && item.length <= |value| == SLAB * |item.slabs|
    requires |item.slabs| <= |free| && item.slabs == free[..|item.slabs|]
    requires forall i :: 0 <= i < n ==> |others[i]| == SLAB && (i !in item.slabs ==> others[i] == memory[i])
    requires forall i :: 0 <= i < |item.slabs| ==>
              item.slabs[i] < n && others[item.slabs[i]] == value[SLAB * i..SLAB * (i + 1)]
    ensures Holding(others, items[key := item], stored[key := value[..item.length]])
  {
    hide Inserting, Contents;
    ContentsFilled(others, item.slabs, value);
    forall k | k in items ensures Holds(others, items[k], stored[k]) {
      Untouched(free, queue, items, key, n, item.slabs, k);
      ContentsSame(memory, others, items[k].slabs);
    }
  }

  // Free slabs are not those of cached items.
  lemma Untouched(free: seq<nat>, queue: seq<Key>, items: Items, key: Key, n: nat, taken: seq<nat>, k: Key)
    requires Inserting(free, queue, items, key, n) && k in items && k != key && taken <= free
    ensures Within(items[k].slabs, n) && forall i :: 0 <= i < |items[k].slabs| ==> items[k].slabs[i] !in taken
  {
    hide WellSized;
    Parts(free, Flat(queue, items, {key}), n);
    FlatItem(queue, items, {key}, k);
    forall i | 0 <= i < |items[k].slabs| ensures items[k].slabs[i] < n && items[k].slabs[i] !in free {
      assert items[k].slabs[i] in items[k].slabs;
    }
    assert forall id :: id in taken ==> id in free;
  }

  lemma FilledLength(memory: seq<Bytes>, others: seq<Bytes>, free: seq<nat>, n: nat, value: Bytes)
    requires Filled(memory, others, free, n, value) && forall i :: 0 <= i < |memory| ==> |memory[i]| == SLAB
    ensures forall i :: 0 <= i < |others| ==> |others[i]| == SLAB
  {
    forall i | 0 <= i < |others| ensures |others[i]| == SLAB {
      if i in free[..n] {
        var j :| 0 <= j < n && free[..n][j] == i;
        assert others[free[j]] == value[SLAB * j..SLAB * (j + 1)];
      }
    }
  }

  // Nor does an overwrite change any other cached value.
  lemma HoldingOthers(
      memory: seq<Bytes>, others: seq<Bytes>, free: seq<nat>, queue: seq<Key>, items: Items, key: Key, n: nat,
      count: nat, stored: map<Key, Bytes>, value: Bytes)
    requires Inserting(free, queue, items, key, n) && Holding(memory, items, stored) && |memory| == n
    requires Filled(memory, others, free, count, value)
    ensures Holding(others, items - {key}, stored)
  {
    SlabLength(memory, items, stored);
    FilledLength(memory, others, free, count, value);
    hide Inserting, Contents;
    forall k | k in items - {key} ensures Holds(others, items[k], stored[k]) {
      Untouched(free, queue, items, key, n, free[..count], k);
      ContentsSame(memory, others, items[k].slabs);
    }
  }

  lemma HoldingFewer(memory: seq<Bytes>, items: Items, fewer: Items, stored: map<Key, Bytes>)
    requires Holding(memory, items, stored) && forall k :: k in fewer ==> k in items && fewer[k] == items[k]
    ensures Holding(memory, fewer, stored)
  {
  }

  lemma FreeIds(free: seq<nat>, queue: seq<Key>, items: Items, key: Key, n: nat)
    requires Inserting(free, queue, items, key, n)
    ensures Distinct(free) && Within(free, n)
  {
    Parts(free, Flat(queue, items, {key}), n);
    forall i | 0 <= i < |free| ensures free[i] < n { assert free[i] in free; }
  }

  lemma CountSize(t: nat)
    ensures SlabSize(t) == SLAB * SlabCount(t)
  {
  }

  lemma KeyQueued(queue: seq<Key>, items: Items, key: Key)
    requires Queued(queue, items) && key in items
    ensures Distinct(queue) && key in queue
  {
  }

  lemma KeyNotQueued(queue: seq<Key>, items: Items, key: Key)
    requires Queued(queue, items) && key !in items
    ensures key !in queue
  {
  }

  lemma SplitMember(queue: seq<Key>, n: nat, key: Key)
    requires n <= |queue| && Distinct(queue) && key in queue
    ensures key in queue[..n] <==> key !in queue[n..]
  {
  }

  lemma SuffixNext(inserted: seq<Key>, evicted: nat, gone: nat, key: Key)
    requires evicted <= |inserted| && gone <= |inserted[evicted..]|
    ensures inserted[evicted..][gone..] + [key] == (inserted + [key])[evicted + gone..]
  {
  }

  // A fresh item whose slabs have been filled from the front of the free queue.
  lemma FilledFresh(
    free: seq<nat>, queue: seq<Key>, items: Items, key: Key, n: nat, item: Item, memory: seq<Bytes>, others: seq<Bytes>,
    stored: map<Key, Bytes>, value: Bytes)
    requires Inserting(free, queue, items, key, n) && Holding(memory, items, stored) && key !in items
    requires |memory| == |others| == n && item.lengthType == SlabType(item.length) <= MAX_TYPE
    requires |value| >= SlabSize(item.lengthType)
    requires var count := SlabCount(item.lengthType);
             && count <= |free| && item.slabs == free[..count] && SlabSize(item.lengthType) == SLAB * count
             && Filled(memory, others, free, count, value)
    ensures var count := SlabCount(item.lengthType);
            && Queued(queue + [key], items[key := item])
            && Partition(free[count..], queue + [key], items[key := item], {}, n)
            && Holding(others, items[key := item], stored[key := value[..item.length]])
  {
    hide Partition, Queued, Holding, Inserting, SlabCount, SlabSize, SlabType;
    var count := SlabCount(item.lengthType);
    FreshQueued(free, queue, items, key, n, item);
    var whole := value[0..SLAB * count];
    forall i | 0 <= i < count ensures value[SLAB * i..SLAB * (i + 1)] == whole[SLAB * i..SLAB * (i + 1)] {
      Inner(value, 0, SLAB * count, SLAB * i, SLAB * (i + 1));
    }
    forall i | 0 <= i < n ensures |others[i]| == SLAB {
      SlabLength(memory, items, stored);
      if i in item.slabs {
        var j :| 0 <= j < count && free[j] == i;
      }
    }
    HoldingInsert(memory, others, free, queue, items, key, n, item, stored, whole);
    assert whole[..item.length] == value[..item.length];
  }

  lemma SlabLength(memory: seq<Bytes>, items: Items, stored: map<Key, Bytes>)
    requires Holding(memory, items, stored)
    ensures forall i :: 0 <= i < |memory| ==> |memory[i]| == SLAB
  {
  }

  // Slabs lie in groups of 1024, which are allocated one by one.
  const GROUP: nat := 1024

  function GroupOf(id: nat): nat
  {
    id / GROUP
  }

  function SlabAddress(groups: seq<int>, id: nat): int
    requires GroupOf(id) < |groups|
  {
    groups[GroupOf(id)] + id % GROUP * SLAB
  }

  // The addresses that are right, which are those of slabs in a group.
  ghost predicate Addressed(address: seq<int>, groups: seq<int>)
  {
    forall id: nat :: id < |address| && GroupOf(id) < |groups| ==> address[id] == SlabAddress(groups, id)
  }

  lemma AddressedNone(groups: seq<int>)
    ensures Addressed([], groups)
  {
  }

  lemma AddressedNext(address: seq<int>, groups: seq<int>, a: int)
    requires Addressed(address, groups)
    requires GroupOf(|address|) < |groups| ==> a == SlabAddress(groups, |address|)
    ensures Addressed(address + [a], groups)
  {
  }

  ghost predicate Apart(groups: seq<int>)
  {
    forall i, j :: 0 <= i < |groups| && 0 <= j < |groups| && i != j && groups[i] <= groups[j] ==>
      groups[i] + GROUP * SLAB <= groups[j]
  }

  // Every slab lies in its group, and no two slabs overlap.
  lemma SlabsApart(groups: seq<int>, id: nat, other: nat)
    requires Apart(groups) && GroupOf(id) < |groups| && GroupOf(other) < |groups| && id != other
    ensures groups[GroupOf(id)] <= SlabAddress(groups, id)
    ensures SlabAddress(groups, id) + SLAB <= groups[GroupOf(id)] + GROUP * SLAB
    ensures SlabAddress(groups, id) + SLAB <= SlabAddress(groups, other)
            || SlabAddress(groups, other) + SLAB <= SlabAddress(groups, id)
  {
    var i, j := GroupOf(id), GroupOf(other);
    assert id == GROUP * i + id % GROUP && other == GROUP * j + other % GROUP;
    if i != j {
      assert if groups[i] <= groups[j] then groups[i] + GROUP * SLAB <= groups[j]
             else groups[j] + GROUP * SLAB <= groups[i];
    }
  }

  // With n / 1024 groups every slab has one if and only if n is a multiple of 1024.
  lemma AllInGroupsIff(n: nat)
    ensures (forall id: nat :: id < n ==> GroupOf(id) < n / GROUP) <==> n % GROUP == 0
  {
    assert n == GROUP * (n / GROUP) + n % GROUP;
    if n % GROUP == 0 {
      forall id: nat | id < n ensures GroupOf(id) < n / GROUP {
        assert id == GROUP * (GroupOf(id)) + id % GROUP;
      }
    } else {
      var last := n - 1;
      assert GroupOf(last) == n / GROUP;
    }
  }

  lemma RangeNone()
    ensures multiset([]) == Range(0)
  {
  }

  lemma RangeNext(n: nat)
    ensures Range(n + 1) == Range(n) + multiset{n}
  {
  }

  lemma EmptyCache(free: seq<nat>, n: nat, memory: seq<Bytes>)
    requires multiset(free) == Range(n) && forall i :: 0 <= i < |memory| ==> |memory[i]| == SLAB
    ensures Queued([], map[]) && Partition(free, [], map[], {}, n) && Holding(memory, map[], map[])
  {
    assert multiset(Flat([], map[], {})) == multiset{};
  }
}
