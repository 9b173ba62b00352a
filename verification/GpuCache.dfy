// GpuCache: values in slabs of 1024 bytes, evicted first in, first out.
module GpuCache {
  import opened Common
  import opened Slabs
  import opened GpuCacheModel

  class GpuCache {
    const slabNum: nat
    const slabs: array<Bytes>
    var address: seq<int> // where each slab lies in GPU memory
    var freeSlabNum: int
    var freeSlabs: seq<nat>
    var cachedItem: Items
    var cachedItemQueue: seq<Key>
    ghost var inserted: seq<Key> // all keys in the order of insertion
    ghost var evicted: nat // how many of them have been evicted
    ghost var stored: map<Key, Bytes> // the value last inserted for each key

    ghost predicate Valid()
      reads this, slabs
    {
      && slabNum >= SlabCount(MAX_TYPE) && slabs.Length == slabNum
      && Queued(cachedItemQueue, cachedItem)
      && freeSlabNum == |freeSlabs|
      && Partition(freeSlabs, cachedItemQueue, cachedItem, {}, slabNum)
      && evicted <= |inserted| && cachedItemQueue == inserted[evicted..]
      && Holding(slabs[..], cachedItem, stored)
    }

    constructor (slabNum: nat)
      ensures this.slabNum == slabNum == slabs.Length && fresh(slabs) && freeSlabs == [] && freeSlabNum == 0
      ensures cachedItem == map[] && cachedItemQueue == inserted == [] && evicted == 0 && stored == map[]
      ensures address == []
    {
      this.slabNum := slabNum;
      slabs := new Bytes[slabNum];
      address, freeSlabNum, freeSlabs, cachedItem, cachedItemQueue := [], 0, [], map[], [];
      inserted, evicted, stored := [], 0, map[];
    }

    // Every slab gets its 1024 bytes and is free. groups are the results of the slabNum / 1024 allocations;
    // behind them the source reads past their table, and gets whatever is there.
    method AllocateMemory(groups: seq<int>)
      requires slabNum >= SlabCount(MAX_TYPE) && slabs.Length == slabNum && freeSlabs == []
      requires |groups| == GroupOf(slabNum) && address == []
      requires cachedItem == map[] && cachedItemQueue == inserted == [] && evicted == 0 && stored == map[]
      modifies this`address, this`freeSlabNum, this`freeSlabs, slabs
      ensures Valid() && cachedItem == map[] && freeSlabNum == slabNum == |address|
      ensures Addressed(address, groups)
    {
      hide *;
      RangeNone();
      AddressedNone(groups);
      freeSlabNum := slabNum;
      var id := 0;
      while id < slabNum
        invariant id <= slabNum && |freeSlabs| == id && multiset(freeSlabs) == Range(id) && freeSlabNum == slabNum
        invariant forall i :: 0 <= i < id ==> |slabs[i]| == SLAB
        invariant |address| == id && Addressed(address, groups)
      {
        SetAddress(groups);
        AddSlab(id);
        id := id + 1;
      }
      EmptyCache(freeSlabs, slabNum, slabs[..]);
      StartsValid();
    }

    method AddSlab(id: nat)
      requires id == |freeSlabs| < slabs.Length && multiset(freeSlabs) == Range(id)
      modifies this`freeSlabs, slabs
      ensures |freeSlabs| == id + 1 && multiset(freeSlabs) == Range(id + 1)
      ensures |slabs[id]| == SLAB && forall i :: 0 <= i < id ==> slabs[i] == old(slabs[i])
    {
      hide *;
      RangeNext(id);
      slabs[id] := seq(SLAB, _ => 0);
      freeSlabs := freeSlabs + [id];
    }

    method SetAddress(groups: seq<int>)
      requires Addressed(address, groups)
      modifies this`address
      ensures |address| == old(|address|) + 1 && Addressed(address, groups)
    {
      hide *;
      var id, a := |address|, *;
      if GroupOf(id) < |groups| {
        a := SlabAddress(groups, id);
      }
      AddressedNext(address, groups, a);
      address := address + [a];
    }

    lemma StartsValid()
      requires slabNum >= SlabCount(MAX_TYPE) && slabs.Length == slabNum && freeSlabNum == |freeSlabs|
      requires cachedItem == map[] && cachedItemQueue == [] && inserted == [] && evicted == 0 && stored == map[]
      requires Queued([], map[]) && Partition(freeSlabs, [], map[], {}, slabNum) && Holding(slabs[..], map[], map[])
      ensures Valid()
    {
      hide Queued, Partition, Holding, SlabCount;
    }

    // Values over 1 MB are refused. A fresh key is cached, and the partition is kept. An overwrite frees
    // the slabs of the old value but leaves them in the item, so that the partition is lost.
    method Insert(key: Key, length: nat, value: Bytes) returns (rc: int)
      requires Valid()
      requires length <= SlabSize(MAX_TYPE) ==> |value| >= SlabSize(SlabType(length))
      modifies this, slabs
      ensures rc == if length > SlabSize(MAX_TYPE) then -1 else 0
      ensures rc == -1 ==> unchanged(this) && slabs[..] == old(slabs[..])
      ensures rc == 0 && key !in old(cachedItem) ==> Cached(key, length, value)
      ensures rc == 0 && key in old(cachedItem) ==> Overwritten(key, length, value)
    {
      hide Cached, Overwritten;
      var lengthType := SlabType(length);
      assert lengthType <= MAX_TYPE <==> length <= SlabSize(MAX_TYPE) by { MaxSize(); WithinMax(length); }
      if lengthType > MAX_TYPE {
        return -1;
      }
      Store(key, length, lengthType, value);
      rc := 0;
    }

    // What the insertion of a fresh key does: the key is cached behind the others, of which it evicts the
    // oldest, and none when there is room.
    twostate predicate Cached(key: Key, length: nat, value: Bytes)
      requires |value| >= length
      reads this, slabs
    {
      var count := SlabCount(SlabType(length));
      && Valid() && key in cachedItem
      && inserted == old(inserted) + [key] && stored == old(stored)[key := value[..length]]
      && (forall k :: k in cachedItem && k != key ==> k in old(cachedItem) && cachedItem[k] == old(cachedItem[k]))
      && old(evicted) <= evicted <= |old(inserted)|
      && Needed(old(inserted), old(evicted), evicted, old(cachedItem), freeSlabNum)
      && (old(freeSlabNum) >= count ==> evicted == old(evicted) && freeSlabNum == old(freeSlabNum) - count)
    }

    // A key that was taken from the queue while room was made goes to its end.
    static ghost function Requeued(rest: seq<Key>, key: Key): seq<Key>
    {
      if key in rest then rest else rest + [key]
    }

    // What an overwrite does: the partition is lost, and the item is the old slabs and then the new ones.
    // The other items that are left are as they were.
    twostate predicate Overwritten(key: Key, length: nat, value: Bytes)
      requires |value| >= SlabSize(SlabType(length)) >= length
      reads this, slabs
    {
      && key in old(cachedItem) && Within(old(cachedItem)[key].slabs, slabs.Length)
      && (forall k :: k in cachedItemQueue ==> k in cachedItem)
      && !Partition(freeSlabs, cachedItemQueue, cachedItem, {}, slabNum)
      && inserted == old(inserted) + [key] && stored == old(stored)[key := value[..length]]
      && (forall k :: k in cachedItem && k != key ==> k in old(cachedItem) && cachedItem[k] == old(cachedItem[k]))
      && Holding(slabs[..], cachedItem - {key}, old(stored))
      && old(evicted) <= evicted <= |old(inserted)|
      && Needed(old(inserted), old(evicted), evicted, old(cachedItem), freeSlabNum)
      && cachedItemQueue == Requeued(old(inserted)[evicted..], key)
      && key in cachedItem && cachedItem[key].length == length && Within(cachedItem[key].slabs, slabs.Length)
      && Contents(slabs[..], cachedItem[key].slabs)
         == Shown(
              old(Contents(slabs[..], cachedItem[key].slabs)), |old(freeSlabs)|, SlabCount(SlabType(length)), value)
    }

    method Store(key: Key, length: nat, lengthType: nat, value: Bytes)
      requires Valid() && lengthType == SlabType(length) <= MAX_TYPE && |value| >= SlabSize(lengthType)
      modifies this, slabs
      ensures key !in old(cachedItem) ==> Cached(key, length, value)
      ensures key in old(cachedItem) ==> Overwritten(key, length, value)
    {
      hide Partition, Queued, Holding, Inserting, SlabCount, SlabSize, SlabType, Range, Distinct, Flat, Holds, Contents;
      hide Within, Needed, Room, Shown, Valid, Cached, Overwritten;
      ValidParts(key);
      ghost var gone := Place(key, length, lengthType, value);
      SuffixNext(inserted, evicted, gone, key);
      NeededLater(inserted, evicted, gone, old(cachedItem), freeSlabNum);
      inserted, evicted, stored := inserted + [key], evicted + gone, stored[key := value[..length]];
      if key in old(cachedItem) { NowOverwritten(key, length, value); } else { NowCached(key, length, value); }
    }

    // Makes room and takes the slabs; gone keys have left the queue.
    method Place(key: Key, length: nat, lengthType: nat, value: Bytes) returns (ghost gone: nat)
      requires Valid() && lengthType == SlabType(length) <= MAX_TYPE && |value| >= SlabSize(lengthType)
      modifies this`freeSlabNum, this`freeSlabs, this`cachedItem, this`cachedItemQueue, slabs
      ensures gone <= |old(cachedItemQueue)| && cachedItemQueue == Requeued(old(cachedItemQueue)[gone..], key)
      ensures freeSlabNum == |freeSlabs| && key in cachedItem && cachedItem[key].length == length
      ensures forall k :: k in cachedItem && k != key ==> k in old(cachedItem) && cachedItem[k] == old(cachedItem[k])
      ensures Needed(old(cachedItemQueue), 0, gone, old(cachedItem), freeSlabNum)
      ensures key !in old(cachedItem) ==>
                cachedItemQueue == old(cachedItemQueue)[gone..] + [key]
                && Queued(cachedItemQueue, cachedItem) && Partition(freeSlabs, cachedItemQueue, cachedItem, {}, slabNum)
                && Holding(slabs[..], cachedItem, stored[key := value[..length]])
      ensures key !in old(cachedItem) && old(freeSlabNum) >= SlabCount(lengthType) ==>
                gone == 0 && freeSlabNum == old(freeSlabNum) - SlabCount(lengthType)
      ensures key in old(cachedItem) ==>
                (forall k :: k in cachedItemQueue ==> k in cachedItem)
                && !Partition(freeSlabs, cachedItemQueue, cachedItem, {}, slabNum)
                && Holding(slabs[..], cachedItem - {key}, stored) && Within(cachedItem[key].slabs, slabs.Length)
                && Within(old(cachedItem)[key].slabs, slabs.Length)
                && Contents(slabs[..], cachedItem[key].slabs)
                   == Shown(
                        old(Contents(slabs[..], cachedItem[key].slabs)), |old(freeSlabs)|, SlabCount(lengthType), value)
    {
      hide Partition, Queued, Holding, Inserting, SlabCount, SlabSize, SlabType, Range, Distinct, Flat, Holds, Contents;
      hide Within, Needed, Room, Shown, Valid;
      Monotone(lengthType, MAX_TYPE);
      ValidParts(key);
      var pushFlag;
      pushFlag, gone := Reserve(key, SlabCount(lengthType));
      Fill(key, length, lengthType, value, pushFlag, |old(freeSlabs)|);
    }

    lemma ValidParts(key: Key)
      requires Valid()
      ensures slabNum >= SlabCount(MAX_TYPE) && slabs.Length == slabNum && freeSlabNum == |freeSlabs|
      ensures evicted <= |inserted| && cachedItemQueue == inserted[evicted..]
      ensures key in cachedItem ==> Within(cachedItem[key].slabs, slabs.Length)
    {
      hide Queued, Partition, SlabCount;
    }

    twostate lemma NowCached(new key: Key, new length: nat, new value: Bytes)
      requires |value| >= length && slabNum >= SlabCount(MAX_TYPE) && slabs.Length == slabNum
      requires Queued(cachedItemQueue, cachedItem) && freeSlabNum == |freeSlabs|
      requires Partition(freeSlabs, cachedItemQueue, cachedItem, {}, slabNum) && Holding(slabs[..], cachedItem, stored)
      requires evicted <= |inserted| && cachedItemQueue == inserted[evicted..] && key in cachedItem
      requires inserted == old(inserted) + [key] && stored == old(stored)[key := value[..length]]
      requires forall k :: k in cachedItem && k != key ==> k in old(cachedItem) && cachedItem[k] == old(cachedItem[k])
      requires old(evicted) <= evicted <= |old(inserted)|
      requires Needed(old(inserted), old(evicted), evicted, old(cachedItem), freeSlabNum)
      requires old(freeSlabNum) >= SlabCount(SlabType(length)) ==>
                 evicted == old(evicted) && freeSlabNum == old(freeSlabNum) - SlabCount(SlabType(length))
      ensures Cached(key, length, value)
    {
      hide Partition, Queued, Holding, SlabCount, SlabType, Needed;
    }

    twostate lemma NowOverwritten(new key: Key, new length: nat, new value: Bytes)
      requires |value| >= SlabSize(SlabType(length)) >= length && key in old(cachedItem)
      requires Within(old(cachedItem)[key].slabs, slabs.Length)
      requires forall k :: k in cachedItemQueue ==> k in cachedItem
      requires !Partition(freeSlabs, cachedItemQueue, cachedItem, {}, slabNum)
      requires inserted == old(inserted) + [key] && length <= |value| && stored == old(stored)[key := value[..length]]
      requires forall k :: k in cachedItem && k != key ==> k in old(cachedItem) && cachedItem[k] == old(cachedItem[k])
      requires Holding(slabs[..], cachedItem - {key}, old(stored)) && old(evicted) <= evicted <= |old(inserted)|
      requires Needed(old(inserted), old(evicted), evicted, old(cachedItem), freeSlabNum)
      requires cachedItemQueue == Requeued(old(inserted)[evicted..], key)
      requires key in cachedItem && cachedItem[key].length == length && Within(cachedItem[key].slabs, slabs.Length)
      requires Contents(slabs[..], cachedItem[key].slabs)
            == Shown(
                 old(Contents(slabs[..], cachedItem[key].slabs)), |old(freeSlabs)|, SlabCount(SlabType(length)), value)
      ensures Overwritten(key, length, value)
    {
      hide Partition, SlabCount, SlabType, SlabSize, Within, Contents, Shown, Needed, Holding, Requeued;
    }

    // The slabs that an overwritten key has count as free, and then there is room for need slabs.
    method Reserve(key: Key, need: int) returns (pushFlag: bool, ghost gone: nat)
      requires Valid() && need <= slabNum
      modifies this`freeSlabNum, this`freeSlabs, this`cachedItem, this`cachedItemQueue
      ensures Room(key) && freeSlabNum >= need
      ensures gone <= |old(cachedItemQueue)| && cachedItemQueue == old(cachedItemQueue)[gone..]
      ensures (pushFlag <==> key !in cachedItemQueue) && (key !in old(cachedItem) ==> pushFlag)
      ensures key in cachedItem <==> key in old(cachedItem)
      ensures forall k :: k in cachedItem ==> k in old(cachedItem) && cachedItem[k] == old(cachedItem[k])
      ensures Needed(old(cachedItemQueue), 0, gone, old(cachedItem), freeSlabNum - need)
      ensures key in old(cachedItem) ==> old(freeSlabs) + old(cachedItem)[key].slabs <= freeSlabs
      ensures Holding(slabs[..], cachedItem, stored)
      ensures key !in old(cachedItem) && old(freeSlabNum) >= need ==> gone == 0 && freeSlabNum == old(freeSlabNum)
      ensures forall i :: 0 <= i < slabs.Length ==> |slabs[i]| == SLAB
    {
      hide Partition, Queued, Holding, Inserting, SlabCount, SlabSize, SlabType, Range, Distinct, Flat, Holds, Contents;
      hide Within, Needed;
      pushFlag := true;
      SlabLength(slabs[..], cachedItem, stored);
      if key in cachedItem {
        pushFlag := false;
        StartOverwrite(freeSlabs, cachedItemQueue, cachedItem, key, slabNum);
        KeyQueued(cachedItemQueue, cachedItem, key);
        Free(key);
      } else {
        StartFresh(freeSlabs, cachedItemQueue, cachedItem, key, slabNum);
        KeyNotQueued(cachedItemQueue, cachedItem, key);
      }
      var popped;
      popped, gone := MakeRoom(key, need);
      if popped {
        pushFlag := true;
      }
      if key in cachedItem {
        SplitMember(old(cachedItemQueue), gone, key);
      }
      HoldingFewer(slabs[..], old(cachedItem), cachedItem, stored);
    }

    // The item gets its slabs, and the key its place in the queue. Slabs that an overwritten key has stand
    // in the free queue behind f others.
    method Fill(key: Key, length: nat, lengthType: nat, value: Bytes, pushFlag: bool, ghost f: nat)
      requires Room(key) && freeSlabNum >= SlabCount(lengthType) && slabs.Length == slabNum
      requires lengthType == SlabType(length) <= MAX_TYPE && |value| >= SlabSize(lengthType)
      requires pushFlag <==> key !in cachedItemQueue
      requires Holding(slabs[..], cachedItem, stored)
      requires key in cachedItem ==>
                 var kept := cachedItem[key].slabs;
                 f + |kept| <= |freeSlabs| && freeSlabs[f..f + |kept|] == kept && Within(kept, slabs.Length)
      requires forall i :: 0 <= i < slabs.Length ==> |slabs[i]| == SLAB
      modifies this`freeSlabNum, this`freeSlabs, this`cachedItem, this`cachedItemQueue, slabs
      ensures freeSlabNum == |freeSlabs| == old(freeSlabNum) - SlabCount(lengthType)
      ensures cachedItemQueue == if pushFlag then old(cachedItemQueue) + [key] else old(cachedItemQueue)
      ensures key in cachedItem && cachedItem[key].length == length
      ensures forall k :: k in cachedItem && k != key ==> k in old(cachedItem) && cachedItem[k] == old(cachedItem[k])
      ensures key !in old(cachedItem) ==>
                Queued(cachedItemQueue, cachedItem) && Partition(freeSlabs, cachedItemQueue, cachedItem, {}, slabNum)
                && Holding(slabs[..], cachedItem, stored[key := value[..length]])
      ensures key in old(cachedItem) ==>
                (forall k :: k in cachedItemQueue ==> k in cachedItem)
                && !Partition(freeSlabs, cachedItemQueue, cachedItem, {}, slabNum)
      ensures key in old(cachedItem) ==> Holding(slabs[..], cachedItem - {key}, stored)
      ensures key in old(cachedItem) ==>
                Within(cachedItem[key].slabs, slabs.Length)
                && Contents(slabs[..], cachedItem[key].slabs)
                   == Shown(old(Contents(slabs[..], cachedItem[key].slabs)), f, SlabCount(lengthType), value)
    {
      hide Partition, Queued, Holding, Inserting, SlabCount, SlabSize, SlabType, Range, Distinct, Within, Contents;
      hide Shown, Filled;
      ghost var free, queue, items, memory := freeSlabs, cachedItemQueue, cachedItem, slabs[..];
      FreeIds(free, queue, items, key, slabNum);
      CountSize(lengthType);
      QueuedCached(free, queue, items, key, slabNum);
      Allocate(key, length, lengthType, value);
      if pushFlag {
        cachedItemQueue := cachedItemQueue + [key];
      }
      if key in items {
        OverwriteLost(free, queue, items, key, slabNum, cachedItem[key], SlabCount(lengthType));
        HoldingOthers(memory, slabs[..], free, queue, items, key, slabNum, SlabCount(lengthType), stored, value);
        assert cachedItem - {key} == items - {key};
        OverwriteShown(memory, slabs[..], free, f, items[key].slabs, SlabCount(lengthType), value);
      } else {
        FilledFresh(free, queue, items, key, slabNum, cachedItem[key], memory, slabs[..], stored, value);
      }
    }

    // If anything was evicted, the last eviction was needed: what is left free is less than it gave.
    static ghost predicate Needed(queue: seq<Key>, first: nat, end: nat, items: Items, left: int)
    {
      first < end <= |queue| ==> queue[end - 1] in items && left < SlabCount(items[queue[end - 1]].lengthType)
    }

    static lemma NeededLater(inserted: seq<Key>, evicted: nat, gone: nat, items: Items, left: int)
      requires evicted <= |inserted| && Needed(inserted[evicted..], 0, gone, items, left)
      ensures Needed(inserted, evicted, evicted + gone, items, left)
    {
    }

    // Evicts from the front until there are enough free slabs. The key itself, when it comes up, is only
    // taken from the queue; popped tells that.
    method MakeRoom(key: Key, need: int) returns (popped: bool, ghost gone: nat)
      requires Room(key) && need <= slabNum
      modifies this`freeSlabNum, this`freeSlabs, this`cachedItem, this`cachedItemQueue
      ensures Room(key) && freeSlabNum >= need
      ensures gone <= |old(cachedItemQueue)| && cachedItemQueue == old(cachedItemQueue)[gone..]
      ensures popped <==> key in old(cachedItemQueue)[..gone]
      ensures key in cachedItem <==> key in old(cachedItem)
      ensures forall k :: k in cachedItem ==> k in old(cachedItem) && cachedItem[k] == old(cachedItem[k])
      ensures Needed(old(cachedItemQueue), 0, gone, old(cachedItem), freeSlabNum - need)
      ensures old(freeSlabs) <= freeSlabs
      ensures old(freeSlabNum) >= need ==> gone == 0 && freeSlabNum == old(freeSlabNum)
    {
      hide Inserting;
      popped, gone := false, 0;
      if freeSlabNum < need {
        while true
          invariant Room(key) && freeSlabNum < need && gone <= |old(cachedItemQueue)|
          invariant cachedItemQueue == old(cachedItemQueue)[gone..] && (popped <==> key in old(cachedItemQueue)[..gone])
          invariant old(freeSlabs) <= freeSlabs
          invariant key in cachedItem <==> key in old(cachedItem)
          invariant forall k :: k in cachedItem ==> k in old(cachedItem) && cachedItem[k] == old(cachedItem[k])
          decreases |cachedItemQueue|
        {
          QueueNotEmpty(freeSlabs, cachedItemQueue, cachedItem, key, slabNum);
          assert old(cachedItemQueue)[..gone + 1] == old(cachedItemQueue)[..gone] + [cachedItemQueue[0]];
          var deleted := PopFront(key);
          gone := gone + 1;
          if deleted == key {
            popped := true;
            continue;
          }
          if freeSlabNum >= need {
            assert old(cachedItemQueue)[gone - 1] == deleted;
            break;
          }
        }
      }
    }

    // Takes the front of the queue; unless it is the key itself, the item goes and its slabs are freed.
    method PopFront(key: Key) returns (deleted: Key)
      requires Room(key) && cachedItemQueue != []
      modifies this`freeSlabNum, this`freeSlabs, this`cachedItem, this`cachedItemQueue
      ensures Room(key) && deleted == old(cachedItemQueue)[0] && cachedItemQueue == old(cachedItemQueue)[1..]
      ensures old(freeSlabs) <= freeSlabs
      ensures deleted == key ==> cachedItem == old(cachedItem) && freeSlabNum == old(freeSlabNum)
      ensures deleted != key ==>
                deleted in old(cachedItem) && cachedItem == old(cachedItem) - {deleted}
                && freeSlabNum == old(freeSlabNum) + SlabCount(old(cachedItem)[deleted].lengthType)
    {
      hide Inserting, SlabCount;
      EvictFront(freeSlabs, cachedItemQueue, cachedItem, key, slabNum);
      QueuedCached(freeSlabs, cachedItemQueue, cachedItem, key, slabNum);
      deleted := cachedItemQueue[0];
      cachedItemQueue := cachedItemQueue[1..];
      if deleted != key {
        Free(deleted);
        cachedItem := cachedItem - {deleted};
      }
    }

    ghost predicate Room(key: Key)
      reads this
    {
      freeSlabNum == |freeSlabs| && Inserting(freeSlabs, cachedItemQueue, cachedItem, key, slabNum)
    }

    method TakeSlab(key: Key, piece: Bytes)
      requires key in cachedItem && freeSlabs != [] && freeSlabs[0] < slabs.Length
      modifies this`freeSlabNum, this`freeSlabs, this`cachedItem, slabs
      ensures freeSlabs == old(freeSlabs)[1..] && freeSlabNum == old(freeSlabNum) - 1
      ensures var item := old(cachedItem)[key];
              cachedItem == old(cachedItem)[key := item.(slabs := item.slabs + [old(freeSlabs)[0]])]
      ensures slabs[..] == old(slabs[..])[old(freeSlabs)[0] := piece]
    {
      var newSlabId := freeSlabs[0];
      var item := cachedItem[key];
      cachedItem := cachedItem[key := item.(slabs := item.slabs + [newSlabId])];
      slabs[newSlabId] := piece;
      freeSlabs := freeSlabs[1..];
      freeSlabNum := freeSlabNum - 1;
    }

    // Takes slabs from the front of the free queue and fills them.
    method Allocate(key: Key, length: nat, lengthType: nat, value: Bytes)
      requires |freeSlabs| >= SlabCount(lengthType) && |value| >= SLAB * SlabCount(lengthType)
      requires Distinct(freeSlabs) && Within(freeSlabs, slabs.Length)
      modifies this`freeSlabNum, this`freeSlabs, this`cachedItem, slabs
      ensures var n := SlabCount(lengthType);
              var before := if key in old(cachedItem) then old(cachedItem[key].slabs) else [];
              && freeSlabs == old(freeSlabs)[n..] && freeSlabNum == old(freeSlabNum) - n
              && cachedItem == old(cachedItem)[key := Item(length, lengthType, before + old(freeSlabs)[..n])]
              && (key !in old(cachedItem) ==> cachedItem[key].slabs == old(freeSlabs)[..n])
              && Filled(old(slabs[..]), slabs[..], old(freeSlabs), n, value)
    {
      hide SlabCount, Filled, Within, Distinct;
      var count := SlabCount(lengthType);
      ghost var free := freeSlabs;
      var kept := if key in cachedItem then cachedItem[key].slabs else [];
      cachedItem := cachedItem[key := Item(length, lengthType, kept)];
      var i := 0;
      assert kept + free[..0] == kept;
      FilledNone(slabs[..], free, value);
      while i < count
        invariant i <= count && freeSlabs == free[i..] && freeSlabNum == old(freeSlabNum) - i
        invariant cachedItem == old(cachedItem)[key := Item(length, lengthType, kept + free[..i])]
        invariant Filled(old(slabs[..]), slabs[..], free, i, value)
      {
        FilledNext(old(slabs[..]), slabs[..], free, i, value);
        OneMore(kept, free, i);
        TakeSlab(key, value[SLAB * i..SLAB * (i + 1)]);
        i := i + 1;
      }
    }

    // The slabs of an item go to the end of the free queue.
    method Free(key: Key)
      requires key in cachedItem && freeSlabNum == |freeSlabs| && WellSized(cachedItem[key])
      modifies this`freeSlabNum, this`freeSlabs
      ensures freeSlabs == old(freeSlabs) + cachedItem[key].slabs && freeSlabNum == |freeSlabs|
      ensures freeSlabNum == old(freeSlabNum) + SlabCount(cachedItem[key].lengthType)
    {
      freeSlabNum := freeSlabNum + SlabCount(cachedItem[key].lengthType);
      var ids, i := cachedItem[key].slabs, 0;
      while i < |ids|
        invariant i <= |ids| && freeSlabs == old(freeSlabs) + ids[..i]
        invariant freeSlabNum == |old(freeSlabs)| + |ids|
      {
        freeSlabs := freeSlabs + [ids[i]];
        i := i + 1;
      }
    }

    // Copies the slabs of the item; as long as no key was overwritten its first length bytes are the value
    // that was inserted.
    method Read(key: Key) returns (length: nat, value: Bytes)
      requires key in cachedItem ==> Within(cachedItem[key].slabs, slabs.Length)
      ensures key !in cachedItem ==> length == 0
      ensures key in cachedItem ==>
                length == cachedItem[key].length && value == Contents(slabs[..], cachedItem[key].slabs)
      ensures key in cachedItem && Valid() ==>
                key in stored && length == |stored[key]| <= |value| && value[..length] == stored[key]
    {
      hide Queued, Partition, SlabCount;
      value := [];
      if key !in cachedItem {
        return 0, [];
      }
      var ids, i := cachedItem[key].slabs, 0;
      assert ids[0..] == ids;
      while i < |ids|
        invariant i <= |ids| && Within(ids[i..], slabs.Length)
        invariant value + Contents(slabs[..], ids[i..]) == Contents(slabs[..], ids)
      {
        assert ids[i..][0] == ids[i] && ids[i..][1..] == ids[i + 1..];
        value := value + slabs[ids[i]];
        i := i + 1;
      }
      length := cachedItem[key].length;
      assert Valid() ==> Holds(slabs[..], cachedItem[key], stored[key]);
    }
  }

  // A value of 1 KB is overwritten while slabs are free: readers get the first one.
  method OverwriteRun(key: Key, first: Bytes, second: Bytes) returns (rc: int, length: nat, value: Bytes)
    requires |first| == |second| == SLAB
    ensures rc == 0 && length == SLAB && value == first + second
  {
    hide Partition, Queued, Holding, Inserting, SlabCount, SlabSize, SlabType, Range, Distinct, Flat, Holds, Contents;
    hide Within, Shown, GpuCache.Needed, GpuCache.Room;
    OneSlab();
    var cache := new GpuCache(1024);
    cache.AllocateMemory([0]);
    var stored := cache.Insert(key, SLAB, first);
    OneSlabHolds(cache.slabs[..], cache.cachedItemQueue, cache.cachedItem, cache.stored, key);
    assert first[..SLAB] == first;
    RoomyShown(first, |cache.freeSlabs|, second);
    rc := cache.Insert(key, SLAB, second);
    length, value := cache.Read(key);
  }

  lemma OneSlab()
    ensures SlabType(SLAB) == 0 && SlabCount(0) == 1 && SlabSize(0) == SLAB && SLAB < SlabSize(MAX_TYPE)
    ensures SlabCount(MAX_TYPE) == 1024 && GroupOf(1024) == 1
  {
    MaxSize();
  }

  lemma OneSlabHolds(memory: seq<Bytes>, queue: seq<Key>, items: Items, stored: map<Key, Bytes>, key: Key)
    requires Holding(memory, items, stored) && key in items && Queued(queue, items)
    requires key in stored && |stored[key]| == SLAB
    ensures Within(items[key].slabs, |memory|) && Contents(memory, items[key].slabs) == stored[key]
  {
    OneSlab();
    ContentsLength(memory, items[key].slabs);
  }

  lemma RoomyShown(before: Bytes, f: nat, value: Bytes)
    requires |before| == |value| == SLAB && f >= 1
    ensures Shown(before, f, 1, value) == before + value
  {
    assert value[..SLAB * 1] == value;
  }
}
