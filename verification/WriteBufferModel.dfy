// The values behind WriteBuffer: what blocks, their files and their index records hold.
module WriteBufferModel {
  import opened Slabs

  type Key = string
  type Bytes = seq<bv8>

  datatype KvInfo = KvInfo(key: Key, value: Bytes, lengthType: nat)
  datatype IndexInfo = IndexInfo(blockId: int, offset: nat, length: nat, lengthType: nat)

  type Store = map<Key, KvInfo>
  type Blocks = map<int, seq<KvInfo>>
  type Index = map<Key, IndexInfo>
  type Files = map<int, Bytes>

  function Infos(keys: seq<Key>, store: Store): (infos: seq<KvInfo>)
    requires forall k :: k in keys ==> k in store
    ensures |infos| == |keys| && forall i :: 0 <= i < |keys| ==> infos[i] == store[keys[i]]
  {
    seq(|keys|, i requires 0 <= i < |keys| => store[keys[i]])
  }

  function Keys(block: seq<KvInfo>): set<Key>
  {
    set i | 0 <= i < |block| :: block[i].key
  }

  // The slab sizes over a queue or a block.
  function Size(infos: seq<KvInfo>): nat
  {
    if infos == [] then 0 else Size(infos[..|infos| - 1]) + SlabSize(infos[|infos| - 1].lengthType)
  }

  // The slab sizes over the whole store.
  ghost function StoreSize(store: Store): nat
    decreases |store|
  {
    if store == map[] then 0
    else
      var k :| k in store;
      SlabSize(store[k].lengthType) + StoreSize(store - {k})
  }

  // What flush writes to the file of a block.
  function Content(infos: seq<KvInfo>): Bytes
  {
    if infos == [] then [] else Content(infos[..|infos| - 1]) + infos[|infos| - 1].value
  }

  // The index after flush has recorded the entries of a block.
  function Recorded(index: Index, blockId: int, infos: seq<KvInfo>): Index
  {
    if infos == [] then index
    else
      var before, info := infos[..|infos| - 1], infos[|infos| - 1];
      Recorded(index, blockId, before)[
        info.key := IndexInfo(blockId, |Content(before)|, |info.value|, info.lengthType)]
  }

  ghost predicate DistinctKeys(infos: seq<KvInfo>)
  {
    forall i, j :: 0 <= i < j < |infos| ==> infos[i].key != infos[j].key
  }

  lemma {:induction false} SizeSplit(a: seq<KvInfo>, b: seq<KvInfo>)
    ensures Size(a + b) == Size(a) + Size(b)
  {
    if b == [] {
      assert a + b == a;
    } else {
      assert (a + b)[..|a + b| - 1] == a + b[..|b| - 1];
      SizeSplit(a, b[..|b| - 1]);
    }
  }

  lemma StoreSizeErase(store: Store, k: Key)
    requires k in store
    ensures StoreSize(store) == SlabSize(store[k].lengthType) + StoreSize(store - {k})
    decreases |store|
  {
    var j :| j in store && StoreSize(store) == SlabSize(store[j].lengthType) + StoreSize(store - {j});
    if j != k {
      StoreSizeErase(store - {j}, k);
      StoreSizeErase(store - {k}, j);
      assert store - {j} - {k} == store - {k} - {j};
    }
  }

  lemma StoreSizeInsert(store: Store, k: Key, info: KvInfo)
    requires k !in store
    ensures StoreSize(store[k := info]) == StoreSize(store) + SlabSize(info.lengthType)
  {
    StoreSizeErase(store[k := info], k);
    assert store[k := info] - {k} == store;
  }

  // Each entry's record names the bytes of its own value in the file of the block.
  lemma {:induction false} RecordedRange(index: Index, blockId: int, infos: seq<KvInfo>, i: nat)
    requires DistinctKeys(infos) && i < |infos|
    ensures infos[i].key in Recorded(index, blockId, infos)
    ensures var r := Recorded(index, blockId, infos)[infos[i].key];
            r.blockId == blockId && r.offset + r.length <= |Content(infos)|
            && Content(infos)[r.offset..r.offset + r.length] == infos[i].value
  {
    var before, last := infos[..|infos| - 1], infos[|infos| - 1];
    hide Recorded, Content;
    LastRecorded(index, blockId, infos);
    if i < |before| {
      assert before[i].key != last.key;
      RecordedRange(index, blockId, before, i);
      var r := Recorded(index, blockId, before)[infos[i].key];
      SliceOfSum(Content(before), last.value, r.offset, r.offset + r.length);
    }
  }

  lemma LastRecorded(index: Index, blockId: int, infos: seq<KvInfo>)
    requires infos != []
    ensures var before, last := infos[..|infos| - 1], infos[|infos| - 1];
            Content(infos) == Content(before) + last.value
            && Recorded(index, blockId, infos)
               == Recorded(index, blockId, before)[
                    last.key := IndexInfo(blockId, |Content(before)|, |last.value|, last.lengthType)]
  {
  }

  lemma SliceOfSum(a: Bytes, b: Bytes, lo: nat, hi: nat)
    requires lo <= hi <= |a|
    ensures (a + b)[lo..hi] == a[lo..hi]
  {
  }

  // Every other key keeps its record.
  lemma {:induction false} RecordedOther(index: Index, blockId: int, infos: seq<KvInfo>, k: Key)
    requires k !in Keys(infos)
    ensures k in Recorded(index, blockId, infos) <==> k in index
    ensures k in index ==> Recorded(index, blockId, infos)[k] == index[k]
  {
    if infos != [] {
      var before := infos[..|infos| - 1];
      assert infos[|infos| - 1].key in Keys(infos);
      assert Keys(before) <= Keys(infos) by {
        forall j | 0 <= j < |before| ensures before[j].key in Keys(infos) { assert before[j] == infos[j]; }
      }
      RecordedOther(index, blockId, before, k);
    }
  }

  // An entry in the store has the slab class of its value.
  predicate WellSized(info: KvInfo)
  {
    info.lengthType == SlabType(|info.value|) <= MAX_TYPE
  }

  // Every stored entry waits in the queue (home 0) or belongs to one block that is to be flushed (its home).
  ghost predicate Placed(queue: seq<Key>, store: Store, blocks: Blocks, home: map<Key, int>)
  {
    && home.Keys == store.Keys
    && (forall k :: k in store ==> store[k].key == k && WellSized(store[k]))
    && (forall k :: k in queue ==> k in home && home[k] == 0)
    && (forall i, j :: 0 <= i < j < |queue| ==> queue[i] != queue[j])
    && (forall k :: k in home && home[k] == 0 ==> k in queue)
    && (forall b :: b in blocks ==> Held(blocks[b], b, store, home))
    && (forall k :: k in home && home[k] != 0 ==> home[k] in blocks && k in Keys(blocks[home[k]]))
  }

  ghost predicate Held(block: seq<KvInfo>, b: int, store: Store, home: map<Key, int>)
  {
    && b != 0 && block != [] && DistinctKeys(block)
    && forall i :: 0 <= i < |block| ==>
        var k := block[i].key; k in store && store[k] == block[i] && k in home && home[k] == b
  }

  // The bytes of the file that the record names.
  predicate InFile(r: IndexInfo, files: Files)
  {
    r.blockId in files && r.offset + r.length <= |files[r.blockId]|
  }

  function Range(r: IndexInfo, files: Files): Bytes
    requires InFile(r, files)
  {
    files[r.blockId][r.offset..r.offset + r.length]
  }

  // No record names a block that is still to be written or has not been numbered.
  ghost predicate Flushed(index: Index, files: Files, blocks: Blocks, latest: int)
  {
    && latest >= 0
    && (forall b :: b in blocks ==> 0 < b <= latest)
    && (forall k :: k in index ==> InFile(index[k], files) && index[k].blockId !in blocks && index[k].blockId <= latest)
  }

  // The value that a reader finds: the buffer first, then the file.
  function Found(k: Key, store: Store, index: Index, files: Files): Bytes
    requires k in index ==> InFile(index[k], files)
  {
    if k in store then store[k].value
    else if k in index then Range(index[k], files)
    else []
  }

  // What the files hold, whether or not something newer waits in memory.
  function OnFile(index: Index, files: Files): map<Key, Bytes>
    requires forall k :: k in index ==> InFile(index[k], files)
  {
    map k | k in index :: Range(index[k], files)
  }

  // The keys named take their values from over.
  function Overlaid(under: map<Key, Bytes>, over: map<Key, Bytes>, keys: set<Key>): map<Key, Bytes>
  {
    map k | k in under.Keys + keys * over.Keys :: if k in keys * over.Keys then over[k] else under[k]
  }

  ghost predicate Agrees(accepted: map<Key, Bytes>, store: Store, index: Index, files: Files)
    requires forall k :: k in index ==> InFile(index[k], files)
  {
    && (forall k :: k in accepted <==> k in store || k in index)
    && (forall k :: k in accepted ==> Found(k, store, index, files) == accepted[k])
  }

  lemma QueueStored(queue: seq<Key>, store: Store, blocks: Blocks, home: map<Key, int>)
    requires Placed(queue, store, blocks, home)
    ensures forall k :: k in queue ==> k in store
  {
  }

  lemma PlacedEnqueue(queue: seq<Key>, store: Store, blocks: Blocks, home: map<Key, int>, info: KvInfo)
    requires Placed(queue, store, blocks, home) && info.key !in store && WellSized(info)
    ensures Placed(queue + [info.key], store[info.key := info], blocks, home[info.key := 0])
    ensures forall k :: k in queue ==> k in store
    ensures Infos(queue + [info.key], store[info.key := info]) == Infos(queue, store) + [info]
    ensures Infos(queue, store[info.key := info]) == Infos(queue, store)
  {
    hide Held, Keys, WellSized;
    var store', home' := store[info.key := info], home[info.key := 0];
    forall b | b in blocks ensures Held(blocks[b], b, store', home') {
      HeldMore(blocks[b], b, store, home, info);
    }
  }

  lemma HeldMore(block: seq<KvInfo>, b: int, store: Store, home: map<Key, int>, info: KvInfo)
    requires Held(block, b, store, home) && info.key !in store
    ensures Held(block, b, store[info.key := info], home[info.key := 0])
  {
  }

  lemma HeldAppend(block: seq<KvInfo>, b: int, store: Store, home: map<Key, int>, k: Key)
    requires block == [] || Held(block, b, store, home)
    requires b != 0 && k in store && store[k].key == k && home.Keys == store.Keys && home[k] != b
    ensures Held(block + [store[k]], b, store, home[k := b])
  {
  }

  lemma HeldOther(block: seq<KvInfo>, b: int, store: Store, home: map<Key, int>, k: Key, c: int)
    requires Held(block, b, store, home) && k in home && home[k] == 0
    ensures Held(block, b, store, home[k := c])
  {
  }

  lemma KeysAppend(block: seq<KvInfo>, info: KvInfo)
    ensures Keys(block + [info]) == Keys(block) + {info.key}
  {
    var more := block + [info];
    forall k ensures k in Keys(more) <==> k in Keys(block) + {info.key} {
      if k in Keys(block) {
        var i :| 0 <= i < |block| && block[i].key == k;
        assert more[i].key == k;
      }
      assert more[|block|].key == info.key;
    }
  }

  // The front of the queue moves to the end of block b, which may be new.
  lemma PlacedPack(queue: seq<Key>, store: Store, blocks: Blocks, home: map<Key, int>, b: int, open: seq<KvInfo>)
    requires Placed(queue, store, blocks, home) && queue != [] && b != 0
    requires open == if b in blocks then blocks[b] else []
    requires forall k :: k in queue ==> k in store
    ensures var k := queue[0];
            Placed(queue[1..], store, blocks[b := open + [store[k]]], home[k := b])
    ensures Infos(queue, store) == [store[queue[0]]] + Infos(queue[1..], store)
  {
    hide Held, Keys, WellSized, Infos;
    KeysAppend(open, store[queue[0]]);
    HeldPack(store, blocks, home, queue[0], b, open);
    RestOfQueue(queue);
  }

  lemma HeldPack(store: Store, blocks: Blocks, home: map<Key, int>, k: Key, b: int, open: seq<KvInfo>)
    requires (forall c :: c in blocks ==> Held(blocks[c], c, store, home)) && home.Keys == store.Keys
    requires k in store && store[k].key == k && home[k] == 0 && b != 0
    requires open == if b in blocks then blocks[b] else []
    ensures var blocks' := blocks[b := open + [store[k]]];
            forall c :: c in blocks' ==> Held(blocks'[c], c, store, home[k := b])
  {
    hide Held;
    HeldAppend(open, b, store, home, k);
    forall c | c in blocks && c != b ensures Held(blocks[c], c, store, home[k := b]) {
      HeldOther(blocks[c], c, store, home, k, b);
    }
  }

  lemma RestOfQueue(queue: seq<Key>)
    requires queue != [] && forall i, j :: 0 <= i < j < |queue| ==> queue[i] != queue[j]
    ensures forall q :: q in queue[1..] <==> q in queue && q != queue[0]
  {
  }

  lemma AgreesWrite(accepted: map<Key, Bytes>, store: Store, index: Index, files: Files, info: KvInfo)
    requires forall k :: k in index ==> InFile(index[k], files)
    requires Agrees(accepted, store, index, files)
    ensures Agrees(accepted[info.key := info.value], store[info.key := info], index, files)
  {
  }

  lemma FlushedOpen(index: Index, files: Files, blocks: Blocks, latest: int, open: seq<KvInfo>)
    requires Flushed(index, files, blocks, latest)
    requires latest > 0 && forall k :: k in index ==> index[k].blockId < latest
    ensures Flushed(index, files, blocks[latest := open], latest)
  {
  }

  lemma FlushedNumber(index: Index, files: Files, blocks: Blocks, latest: int)
    requires Flushed(index, files, blocks, latest)
    ensures Flushed(index, files, blocks, latest + 1) && latest >= 0 && latest + 1 !in blocks
    ensures forall k :: k in index ==> index[k].blockId < latest + 1
  {
  }

  lemma InFiles(index: Index, files: Files, blocks: Blocks, latest: int)
    requires Flushed(index, files, blocks, latest)
    ensures forall k :: k in index ==> InFile(index[k], files)
  {
  }

  lemma SizeOne(info: KvInfo)
    ensures Size([]) == 0 && Size([info]) == SlabSize(info.lengthType)
  {
  }

  // Packing the queue and then last: everything fits but last.
  lemma FrontFits(queue: seq<KvInfo>, last: KvInfo, i: nat, limit: int)
    requires i <= |queue| && Size(queue) <= limit < Size(queue + [last])
    ensures Size(queue[..i]) + SlabSize((queue[i..] + [last])[0].lengthType) <= limit <==> i < |queue|
    ensures i < |queue| ==>
              queue[..i] + [queue[i]] == queue[..i + 1]
              && Size(queue[..i + 1]) == Size(queue[..i]) + SlabSize(queue[i].lengthType)
  {
    hide Size, SlabSize;
    SizeSplit(queue, [last]);
    SizeOne(last);
    if i < |queue| {
      SizeSplit(queue[..i], [queue[i]]);
      SizeOne(queue[i]);
      SizeSplit(queue[..i + 1], queue[i + 1..]);
      assert queue[..i] + [queue[i]] == queue[..i + 1];
      assert queue[..i + 1] + queue[i + 1..] == queue;
    } else {
      assert queue[..i] == queue;
    }
  }

  lemma MoreThanLast(queue: seq<KvInfo>, last: KvInfo, limit: int)
    requires Size([last]) <= limit < Size(queue + [last])
    ensures queue != []
  {
    hide Size;
    assert [] + [last] == [last];
  }

  lemma DropFirst(queue: seq<KvInfo>, last: KvInfo, i: nat, rest: seq<KvInfo>)
    requires i < |queue| && queue[i..] + [last] == [queue[i]] + rest
    ensures rest == queue[i + 1..] + [last]
  {
    assert ([queue[i]] + rest)[1..] == rest && (queue[i..] + [last])[1..] == queue[i + 1..] + [last];
  }

  lemma SmallSlab(queue: seq<Key>, store: Store, blocks: Blocks, home: map<Key, int>, k: Key)
    requires Placed(queue, store, blocks, home) && k in store
    ensures store[k].key == k && SlabSize(store[k].lengthType) <= 1024 * 1024
  {
    MaxSize();
    Monotone(store[k].lengthType, MAX_TYPE);
  }

  // The keys of a block leave the store; everything else stays where it is.
  lemma PlacedFlush(queue: seq<Key>, store: Store, blocks: Blocks, home: map<Key, int>, b: int)
    requires Placed(queue, store, blocks, home) && b in blocks
    requires forall k :: k in queue ==> k in store
    ensures var gone := Keys(blocks[b]); Placed(queue, store - gone, blocks - {b}, home - gone)
    ensures forall k :: k in queue ==> k !in Keys(blocks[b])
    ensures Infos(queue, store - Keys(blocks[b])) == Infos(queue, store)
  {
    var gone := Keys(blocks[b]);
    HeldKeys(blocks[b], b, store, home);
    hide WellSized, Infos, Held, Keys;
    forall c | c in blocks - {b} ensures Held(blocks[c], c, store - gone, home - gone) {
      HeldWithout(blocks[c], c, store, home, gone);
    }
    forall k | k in home - gone && (home - gone)[k] != 0
      ensures (home - gone)[k] in blocks - {b} && k in Keys((blocks - {b})[(home - gone)[k]])
    {
      assert k in Keys(blocks[home[k]]);
    }
  }

  lemma HeldKeys(block: seq<KvInfo>, b: int, store: Store, home: map<Key, int>)
    requires Held(block, b, store, home)
    ensures b != 0 && DistinctKeys(block) && forall k :: k in Keys(block) ==> k in store && k in home && home[k] == b
  {
  }

  lemma HeldWithout(block: seq<KvInfo>, b: int, store: Store, home: map<Key, int>, gone: set<Key>)
    requires Held(block, b, store, home) && forall k :: k in gone ==> k in home && home[k] != b
    ensures Held(block, b, store - gone, home - gone)
  {
  }

  lemma FlushedFlush(index: Index, files: Files, blocks: Blocks, latest: int, b: int)
    requires Flushed(index, files, blocks, latest) && b in blocks && DistinctKeys(blocks[b])
    ensures Flushed(Recorded(index, b, blocks[b]), files[b := Content(blocks[b])], blocks - {b}, latest)
    ensures forall k :: k in Recorded(index, b, blocks[b]) <==> k in index || k in Keys(blocks[b])
  {
    var block := blocks[b];
    var index', files' := Recorded(index, b, block), files[b := Content(block)];
    forall k ensures k in index' <==> k in index || k in Keys(block) {
      RecordedKey(index, files, b, block, k);
    }
    forall k | k in index'
      ensures InFile(index'[k], files') && index'[k].blockId !in blocks - {b} && index'[k].blockId <= latest
    {
      RecordedKey(index, files, b, block, k);
    }
  }

  // The record of one key after the flush of a block.
  lemma RecordedKey(index: Index, files: Files, b: int, block: seq<KvInfo>, k: Key)
    requires DistinctKeys(block)
    ensures var index' := Recorded(index, b, block);
            if k in Keys(block) then
              k in index' && index'[k].blockId == b && InFile(index'[k], files[b := Content(block)])
              && exists i :: 0 <= i < |block| && block[i].key == k
                             && Range(index'[k], files[b := Content(block)]) == block[i].value
            else (k in index' <==> k in index) && (k in index ==> index'[k] == index[k])
  {
    if k in Keys(block) {
      var i :| 0 <= i < |block| && block[i].key == k;
      RecordedRange(index, b, block, i);
    } else {
      RecordedOther(index, b, block, k);
    }
  }

  lemma FoundFlush(
      k: Key, store: Store, index: Index, files: Files, blocks: Blocks, home: map<Key, int>, latest: int, b: int)
    requires Flushed(index, files, blocks, latest) && b in blocks && Held(blocks[b], b, store, home)
    requires var index', files' := Recorded(index, b, blocks[b]), files[b := Content(blocks[b])];
             forall k :: k in index' ==> InFile(index'[k], files')
    ensures k in index ==> InFile(index[k], files)
    ensures Found(k, store - Keys(blocks[b]), Recorded(index, b, blocks[b]), files[b := Content(blocks[b])])
         == Found(k, store, index, files)
  {
    hide Recorded, Content;
    RecordedKey(index, files, b, blocks[b], k);
  }

  // The flush of a block changes no value that is found.
  lemma AgreesFlush(
      accepted: map<Key, Bytes>, store: Store, index: Index, files: Files,
      blocks: Blocks, home: map<Key, int>, latest: int, b: int)
    requires Flushed(index, files, blocks, latest) && b in blocks && Held(blocks[b], b, store, home)
    requires forall k :: k in index ==> InFile(index[k], files)
    requires Agrees(accepted, store, index, files)
    requires var index', files' := Recorded(index, b, blocks[b]), files[b := Content(blocks[b])];
             forall k :: k in index' ==> InFile(index'[k], files')
    ensures Agrees(accepted, store - Keys(blocks[b]), Recorded(index, b, blocks[b]), files[b := Content(blocks[b])])
  {
    hide Recorded, Content, Keys, InFile, Found;
    var block := blocks[b];
    var store', index', files' := store - Keys(block), Recorded(index, b, block), files[b := Content(block)];
    forall k ensures k in accepted <==> k in store' || k in index' {
      RecordedKey(index, files, b, block, k);
    }
    forall k | k in accepted
      ensures k in index' ==> InFile(index'[k], files')
      ensures Found(k, store', index', files') == accepted[k]
    {
      FoundFlush(k, store, index, files, blocks, home, latest, b);
    }
  }

  // The files then hold the accepted values of the block.
  lemma OnFileFlush(
      accepted: map<Key, Bytes>, store: Store, index: Index, files: Files,
      blocks: Blocks, home: map<Key, int>, latest: int, b: int)
    requires Flushed(index, files, blocks, latest) && b in blocks && Held(blocks[b], b, store, home)
    requires forall k :: k in index ==> InFile(index[k], files)
    requires Agrees(accepted, store, index, files)
    requires var index', files' := Recorded(index, b, blocks[b]), files[b := Content(blocks[b])];
             (forall k :: k in index' ==> InFile(index'[k], files'))
             && Agrees(accepted, store - Keys(blocks[b]), index', files')
    ensures OnFile(Recorded(index, b, blocks[b]), files[b := Content(blocks[b])])
         == Overlaid(OnFile(index, files), accepted, Keys(blocks[b]))
  {
    hide Recorded, Content, Keys, InFile;
    var block := blocks[b];
    var index', files' := Recorded(index, b, block), files[b := Content(block)];
    var after, goal := OnFile(index', files'), Overlaid(OnFile(index, files), accepted, Keys(block));
    HeldKeys(block, b, store, home);
    forall k ensures k in after <==> k in goal {
      RecordedKey(index, files, b, block, k);
    }
    forall k | k in after ensures after[k] == goal[k] {
      RecordedKey(index, files, b, block, k);
      if k in Keys(block) {
        assert Found(k, store - Keys(block), index', files') == accepted[k];
      }
    }
  }

  lemma PrefixKeys(block: seq<KvInfo>, i: nat)
    requires i < |block| && DistinctKeys(block)
    ensures Keys(block[..i + 1]) == Keys(block[..i]) + {block[i].key} && block[i].key !in Keys(block[..i])
    ensures Size(block[..i + 1]) == Size(block[..i]) + SlabSize(block[i].lengthType)
    ensures Content(block[..i + 1]) == Content(block[..i]) + block[i].value
  {
    assert block[..i + 1][..i] == block[..i];
    assert block[..i + 1] == block[..i] + [block[i]];
    KeysAppend(block[..i], block[i]);
  }

  lemma PrefixRecorded(index: Index, b: int, block: seq<KvInfo>, i: nat)
    requires i < |block|
    ensures Recorded(index, b, block[..i + 1])
         == Recorded(index, b, block[..i])[
              block[i].key := IndexInfo(b, |Content(block[..i])|, |block[i].value|, block[i].lengthType)]
  {
    assert block[..i + 1][..i] == block[..i];
  }

  lemma NothingLeft(queue: seq<Key>, store: Store, blocks: Blocks, home: map<Key, int>)
    requires Placed(queue, store, blocks, home) && queue == [] && blocks == map[]
    ensures store == map[]
  {
    assert forall k :: k in store ==> k in home && home[k] in blocks;
  }

  lemma BlockHeld(queue: seq<Key>, store: Store, blocks: Blocks, home: map<Key, int>, b: int)
    requires Placed(queue, store, blocks, home) && b in blocks
    ensures Held(blocks[b], b, store, home) && DistinctKeys(blocks[b])
    ensures forall i :: 0 <= i < |blocks[b]| ==> var info := blocks[b][i]; info.key in store && store[info.key] == info
  {
  }

  lemma AcceptedFlushed(accepted: map<Key, Bytes>, index: Index, files: Files)
    requires forall k :: k in index ==> InFile(index[k], files)
    requires Agrees(accepted, map[], index, files)
    ensures accepted.Keys == index.Keys && OnFile(index, files) == accepted
  {
  }
}
