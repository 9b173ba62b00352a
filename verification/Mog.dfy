// The server's reads and writes: the write buffer, and CpuCache between it and the files.
module Mog {
  import opened Slabs
  import opened WriteBufferModel
  import opened MogModel
  import WB = WriteBuffer

  class Mog {
    const buffer: WB.WriteBuffer
    var freeSlabNum: int
    var cachedItem: map<Key, Bytes>

    ghost function State(): View
      requires buffer.Valid()
      reads this, buffer
    {
      View(buffer.accepted, buffer.kvStore.Keys, buffer.FileValues(), cachedItem)
    }

    ghost predicate Valid()
      reads this, buffer
    {
      buffer.Valid() && buffer.Settled() && Sane(State())
    }

    constructor (pagePerBlock: nat, slabNum: nat)
      requires pagePerBlock >= 1
      ensures Valid() && State() == Start && freeSlabNum == slabNum && fresh(buffer)
    {
      buffer := new WB.WriteBuffer(pagePerBlock);
      freeSlabNum, cachedItem := slabNum, map[];
    }

    method Write(key: Key, value: Bytes) returns (rc: int)
      requires Valid()
      modifies buffer
      ensures Valid() && rc == if |value| > 1024 * 1024 || key in old(State()).buffered then -1 else 0
      ensures State() == if |value| > 1024 * 1024 then old(State()) else Apply(old(State()), WriteStep(key, value))
    {
      hide *;
      StateIs();
      WriteView(State(), buffer.kvStore, key, KvInfo(key, value, SlabType(|value|)));
      rc := buffer.Write(key, value);
      StateIs();
    }

    lemma StateIs()
      ensures Valid() <==> buffer.Valid() && buffer.Settled() && Sane(State())
      ensures buffer.Valid() ==>
                State() == View(buffer.accepted, buffer.kvStore.Keys, buffer.FileValues(), cachedItem)
    {
      hide Sane;
    }

    static lemma WriteView(v: View, store: Store, key: Key, info: KvInfo)
      requires Sane(v) && v.buffered == store.Keys && info.key == key
      ensures var w := Apply(v, WriteStep(key, info.value));
              Sane(w) && if key in store then w == v
              else w == View(v.accepted[key := info.value], store[key := info].Keys, v.recorded, v.cached)
    {
      ApplySane(v, WriteStep(key, info.value));
    }

    // A block that was packed is flushed.
    method Flush(blockId: int)
      requires Valid() && blockId in buffer.blocks
      modifies buffer
      ensures Valid() && State() == Apply(old(State()), FlushStep(Keys(old(buffer.blocks)[blockId])))
    {
      hide *;
      StateIs();
      FlushView(State(), buffer.kvStore, Keys(buffer.blocks[blockId]));
      buffer.Flush(blockId);
      StateIs();
    }

    static lemma FlushView(v: View, store: Store, keys: set<Key>)
      requires Sane(v) && v.buffered == store.Keys
      ensures var w := Apply(v, FlushStep(keys));
              Sane(w) && (keys <= store.Keys ==>
                w == View(v.accepted, (store - keys).Keys, Overlaid(v.recorded, v.accepted, keys), v.cached))
    {
      ApplySane(v, FlushStep(keys));
      if keys <= store.Keys { assert keys * v.buffered == keys; }
    }

    method Sync()
      requires Valid()
      modifies buffer
      ensures Valid() && State() == Apply(old(State()), FlushStep(old(State()).buffered))
    {
      hide *;
      StateIs();
      SyncView(State());
      buffer.Sync();
      assert buffer.kvStore.Keys == {};
      StateIs();
    }

    static lemma SyncView(v: View)
      requires Sane(v)
      ensures Sane(Apply(v, FlushStep(v.buffered)))
      ensures Apply(v, FlushStep(v.buffered)) == View(v.accepted, {}, v.accepted, v.cached)
    {
      ApplySane(v, FlushStep(v.buffered));
    }

    // The buffer, then the cache, then the file, which is cached if there is room.
    method Read(key: Key) returns (value: Bytes, ghost fits: bool)
      requires Valid()
      modifies this
      ensures Valid() && value == Served(old(State()), key)
      ensures key in buffer.accepted ==>
                (value == buffer.accepted[key] <==>
                   if key in buffer.kvStore && buffer.accepted[key] != [] then true
                   else if key in old(cachedItem) then old(cachedItem)[key] == buffer.accepted[key]
                   else key in buffer.kvStore && key in buffer.index ==> buffer.FileValues()[key] == [])
      ensures key !in buffer.accepted ==> value == []
      ensures State() == Apply(old(State()), ReadStep(key, fits))
      ensures !InBuffer(old(State()), key) && key !in old(cachedItem) && key in buffer.index ==>
                (fits <==> old(freeSlabNum) >= SlabCount(buffer.index[key].lengthType))
    {
      hide *;
      StateIs();
      BufferFirst(key);
      fits := true;
      value := buffer.ReadBuffer(key);
      if |value| > 0 {
        return;
      }
      value, fits := ReadCached(key);
    }

    // A value that is found in the buffer is the last one.
    lemma BufferFirst(key: Key)
      requires Valid()
      ensures InBuffer(State(), key) <==> key in buffer.kvStore && buffer.kvStore[key].value != []
      ensures InBuffer(State(), key) ==>
                Served(State(), key) == buffer.kvStore[key].value
                && forall fits :: Apply(State(), ReadStep(key, fits)) == State()
      ensures key in buffer.kvStore ==>
                key in buffer.accepted && buffer.kvStore[key].value == buffer.accepted[key]
      ensures key in buffer.accepted ==>
                (Served(State(), key) == buffer.accepted[key] <==>
                   if key in buffer.kvStore && buffer.accepted[key] != [] then true
                   else if key in cachedItem then cachedItem[key] == buffer.accepted[key]
                   else key in buffer.kvStore && key in buffer.index ==> buffer.FileValues()[key] == [])
      ensures key !in buffer.accepted ==> Served(State(), key) == []
    {
      hide Placed, Flushed, Size, StoreSize, Infos;
      if key in buffer.accepted { ServedRightIff(State(), key); } else { ServedNothing(State(), key); }
    }

    // CpuCache::read.
    method ReadCached(key: Key) returns (value: Bytes, ghost fits: bool)
      requires Valid() && !InBuffer(State(), key)
      modifies this
      ensures Valid() && value == Served(old(State()), key)
      ensures State() == Apply(old(State()), ReadStep(key, fits))
      ensures key !in old(cachedItem) && key in buffer.index ==>
                (fits <==> old(freeSlabNum) >= SlabCount(buffer.index[key].lengthType))
    {
      fits := true;
      if key in cachedItem {
        value := cachedItem[key];
      } else if key in buffer.index {
        value := buffer.ReadFile(key);
        fits := Insert(key, value, buffer.index[key].lengthType);
      } else {
        value := [];
      }
    }

    // CpuCache::insert returns at once when the slabs do not suffice, so that nothing is ever evicted.
    method Insert(key: Key, value: Bytes, lengthType: nat) returns (fits: bool)
      requires key !in cachedItem
      modifies this
      ensures fits <==> old(freeSlabNum) >= SlabCount(lengthType)
      ensures cachedItem == if fits then old(cachedItem)[key := value] else old(cachedItem)
      ensures freeSlabNum == if fits then old(freeSlabNum) - SlabCount(lengthType) else old(freeSlabNum)
    {
      fits := freeSlabNum >= SlabCount(lengthType);
      if fits {
        cachedItem := cachedItem[key := value];
        freeSlabNum := freeSlabNum - SlabCount(lengthType);
      }
    }
  }
}
