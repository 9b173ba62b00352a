// WriteBuffer: values wait in memory, are packed into blocks, and blocks are flushed to files.
module WriteBuffer {
  import opened Common
  import opened Slabs
  import opened WriteBufferModel

  class WriteBuffer {
    const pagePerBlock: nat
    var kvList: seq<Key>
    var kvStore: Store
    var blocks: Blocks
    var latestBlockId: int
    var totalSize: int
    var totalSizeWithoutBlock: int
    // The central index and the files of the blocks, which outlive the buffer.
    var index: Index
    var files: Files
    ghost var home: map<Key, int>
    ghost var accepted: map<Key, Bytes> // the last accepted value of each key

    function Limit(): int {
      pagePerBlock * 1024 * 1024
    }

    ghost predicate Valid()
      reads this
    {
      && pagePerBlock >= 1
      && Placed(kvList, kvStore, blocks, home)
      && (forall b :: b in blocks ==> Size(blocks[b]) <= Limit())
      && totalSize == StoreSize(kvStore)
      && totalSizeWithoutBlock == Size(Infos(kvList, kvStore))
      && Flushed(index, files, blocks, latestBlockId)
      && Agrees(accepted, kvStore, index, files)
    }

    // Between the calls, what waits outside blocks fits into one block.
    ghost predicate Settled()
      reads this
    {
      totalSizeWithoutBlock <= Limit()
    }

    ghost function FileValues(): map<Key, Bytes>
      requires Valid()
      reads this
    {
      OnFile(index, files)
    }

    constructor (pagePerBlock: nat)
      requires pagePerBlock >= 1
      ensures Valid() && Settled() && accepted == map[] && this.pagePerBlock == pagePerBlock
      ensures latestBlockId == 0 && kvStore == map[] && index == map[]
    {
      this.pagePerBlock := pagePerBlock;
      kvList, kvStore, blocks, home := [], map[], map[], map[];
      latestBlockId, totalSize, totalSizeWithoutBlock := 0, 0, 0;
      index, files, accepted := map[], map[], map[];
    }

    // Refused are values over 1 MB and keys that are still in the buffer.
    method Write(key: Key, value: Bytes) returns (rc: int)
      requires Valid() && Settled()
      modifies this
      ensures Valid() && Settled()
      ensures rc == if |value| > 1024 * 1024 || key in old(kvStore) then -1 else 0
      ensures rc == -1 ==> unchanged(this)
      ensures index == old(index) && files == old(files) && FileValues() == old(FileValues())
      ensures rc == 0 ==> accepted == old(accepted)[key := value]
                          && kvStore == old(kvStore)[key := KvInfo(key, value, SlabType(|value|))]
      ensures rc == 0 && old(totalSizeWithoutBlock) + SlabSize(SlabType(|value|)) <= Limit() ==>
                kvList == old(kvList) + [key] && blocks == old(blocks)
      ensures rc == 0 && old(totalSizeWithoutBlock) + SlabSize(SlabType(|value|)) > Limit() ==>
                kvList == [key] && latestBlockId == old(latestBlockId) + 1
                && blocks == old(blocks)[latestBlockId := old(Waiting())]
    {
      MaxSize();
      WithinMax(|value|);
      hide Placed, Flushed, Agrees, InFile, StoreSize, Size, Infos, SlabSize, SlabType;
      if |value| > SlabSize(MAX_TYPE) {
        return -1;
      }
      if key in kvStore {
        return -1;
      }
      Accept(key, value);
      rc := 0;
    }

    method Accept(key: Key, value: Bytes)
      requires Valid() && Settled() && SlabType(|value|) <= MAX_TYPE && key !in kvStore
      modifies this
      ensures Valid() && Settled() && index == old(index) && files == old(files)
      ensures accepted == old(accepted)[key := value]
      ensures kvStore == old(kvStore)[key := KvInfo(key, value, SlabType(|value|))]
      ensures old(totalSizeWithoutBlock) + SlabSize(SlabType(|value|)) <= Limit() ==>
                kvList == old(kvList) + [key] && blocks == old(blocks)
      ensures old(totalSizeWithoutBlock) + SlabSize(SlabType(|value|)) > Limit() ==>
                kvList == [key] && latestBlockId == old(latestBlockId) + 1
                && blocks == old(blocks)[latestBlockId := old(Waiting())]
    {
      hide Placed, Flushed, Agrees, InFile, StoreSize, Size, Infos, SlabSize, SlabType;
      Enqueue(key, value);
      if totalSizeWithoutBlock > Limit() {
        FlushedNumber(index, files, blocks, latestBlockId);
        latestBlockId := latestBlockId + 1;
        Pack(old(Waiting()), kvStore[key]);
      }
    }

    method Enqueue(key: Key, value: Bytes)
      requires Valid() && SlabType(|value|) <= MAX_TYPE && key !in kvStore
      modifies this`kvList, this`kvStore, this`totalSize, this`totalSizeWithoutBlock, this`home, this`accepted
      ensures Valid() && accepted == old(accepted)[key := value] && kvList == old(kvList) + [key]
      ensures kvStore == old(kvStore)[key := KvInfo(key, value, SlabType(|value|))]
      ensures totalSizeWithoutBlock == old(totalSizeWithoutBlock) + SlabSize(SlabType(|value|))
      ensures Waiting() == old(Waiting()) + [kvStore[key]]
    {
      hide Placed, Flushed, Agrees, InFile, StoreSize, Infos, Size, SlabSize, SlabType;
      var info := KvInfo(key, value, SlabType(|value|));
      SizeOne(info);
      PlacedEnqueue(kvList, kvStore, blocks, home, info);
      StoreSizeInsert(kvStore, key, info);
      SizeSplit(Infos(kvList, kvStore), [info]);
      InFiles(index, files, blocks, latestBlockId);
      AgreesWrite(accepted, kvStore, index, files, info);
      kvStore := kvStore[key := info];
      kvList := kvList + [key];
      totalSize := totalSize + SlabSize(info.lengthType);
      totalSizeWithoutBlock := totalSizeWithoutBlock + SlabSize(info.lengthType);
      home, accepted := home[key := 0], accepted[key := value];
    }

    ghost function Waiting(): seq<KvInfo>
      requires Valid()
      reads this
    {
      Infos(kvList, kvStore)
    }

    // Fills the new block from the front of the queue until the next entry does not fit: everything
    // but the last entry, which was just written.
    method Pack(ghost queue: seq<KvInfo>, ghost last: KvInfo)
      requires Valid() && Opened() && latestBlockId !in blocks && kvList != []
      requires Waiting() == queue + [last] && Size(queue) <= Limit() < totalSizeWithoutBlock
      modifies this`kvList, this`blocks, this`totalSizeWithoutBlock, this`home
      ensures Valid() && Settled() && kvList == [last.key]
      ensures blocks == old(blocks)[latestBlockId := queue]
    {
      hide *;
      PackStarts(queue, last);
      var newBlockSize, full := 0, false;
      ghost var i := 0;
      while !full
        invariant i <= |queue| && Packing(queue, last, i) && newBlockSize == Size(queue[..i])
        invariant full ==> i == |queue|
        invariant if i == 0 then blocks == old(blocks) else blocks == old(blocks)[latestBlockId := queue[..i]]
        decreases !full, |queue| - i
      {
        full, newBlockSize := PackStep(queue, last, i, newBlockSize);
        i := if full then i else i + 1;
      }
      assert queue[..i] == queue;
      PackEnds(queue, last);
    }

    // The first i entries of the queue are in the open block; the others wait, and last after them.
    ghost predicate Packing(queue: seq<KvInfo>, last: KvInfo, i: nat)
      requires i <= |queue|
      reads this
    {
      && Valid() && Opened() && kvList != [] && Waiting() == queue[i..] + [last] && OpenBlock() == queue[..i]
      && queue != [] && SlabSize(last.lengthType) <= Limit() && Size(queue) <= Limit() < Size(queue + [last])
    }

    lemma PackStarts(queue: seq<KvInfo>, last: KvInfo)
      requires Valid() && Opened() && latestBlockId !in blocks && kvList != []
      requires Waiting() == queue + [last] && Size(queue) <= Limit() < totalSizeWithoutBlock
      ensures Packing(queue, last, 0) && Size(queue[..0]) == 0
    {
      hide Placed, Flushed, Agrees, StoreSize, Size, Infos, InFile, SlabSize, SlabType;
      assert queue[..0] == [] && queue[0..] == queue;
      SizeOne(last);
      QueueStored(kvList, kvStore, blocks, home);
      assert last == kvStore[kvList[|kvList| - 1]];
      SmallSlab(kvList, kvStore, blocks, home, kvList[|kvList| - 1]);
      MoreThanLast(queue, last, Limit());
    }

    lemma PackEnds(queue: seq<KvInfo>, last: KvInfo)
      requires Packing(queue, last, |queue|)
      ensures Valid() && Settled() && kvList == [last.key] && queue != []
    {
      hide Placed, Flushed, Agrees, StoreSize, Size, Infos, InFile, SlabSize, SlabType;
      assert Waiting() == [last];
      SizeOne(last);
      QueueStored(kvList, kvStore, blocks, home);
      assert last == kvStore[kvList[0]];
      SmallSlab(kvList, kvStore, blocks, home, kvList[0]);
    }

    // One round of the loop: the block is full exactly when only the last entry is left.
    method PackStep(ghost queue: seq<KvInfo>, ghost last: KvInfo, ghost i: nat, newBlockSize: int)
      returns (full: bool, size: int)
      requires i <= |queue| && Packing(queue, last, i) && newBlockSize == Size(queue[..i])
      modifies this`kvList, this`blocks, this`totalSizeWithoutBlock, this`home
      ensures full <==> i == |queue|
      ensures full ==> unchanged(this) && size == newBlockSize
      ensures !full ==>
                Packing(queue, last, i + 1) && size == Size(queue[..i + 1])
                && blocks == old(blocks)[latestBlockId := queue[..i + 1]]
    {
      hide Placed, Flushed, Agrees, StoreSize, Size, Infos, InFile, SlabSize, SlabType;
      QueueStored(kvList, kvStore, blocks, home);
      FrontFits(queue, last, i, Limit());
      var k := kvList[0];
      var slabType := kvStore[k].lengthType;
      assert kvStore[k] == Waiting()[0];
      full, size := newBlockSize + SlabSize(slabType) > Limit(), newBlockSize;
      if !full {
        assert kvStore[k] == queue[i];
        PackFront();
        DropFirst(queue, last, i, Waiting());
        size := newBlockSize + SlabSize(slabType);
      }
    }

    // The block being filled has a number that no record and no other block has.
    ghost predicate Opened()
      reads this
    {
      latestBlockId > 0 && forall k :: k in index ==> index[k].blockId < latestBlockId
    }

    function OpenBlock(): seq<KvInfo>
      reads this
    {
      if latestBlockId in blocks then blocks[latestBlockId] else []
    }

    // Takes the front of the queue into the open block.
    method PackFront()
      requires Valid() && Opened() && kvList != []
      requires Size(OpenBlock()) + SlabSize(kvStore[kvList[0]].lengthType) <= Limit()
      modifies this`kvList, this`blocks, this`totalSizeWithoutBlock, this`home
      ensures Valid() && kvList == old(kvList)[1..] && old(Waiting()) == [kvStore[old(kvList)[0]]] + Waiting()
      ensures blocks == old(blocks)[latestBlockId := old(OpenBlock()) + [kvStore[old(kvList)[0]]]]
      ensures totalSizeWithoutBlock == old(totalSizeWithoutBlock) - SlabSize(kvStore[old(kvList)[0]].lengthType)
      ensures Size(OpenBlock()) == old(Size(OpenBlock())) + SlabSize(kvStore[old(kvList)[0]].lengthType)
    {
      hide Placed, Flushed, Agrees, InFile, StoreSize, Infos, Size, SlabSize;
      var k := kvList[0];
      QueueStored(kvList, kvStore, blocks, home);
      PlacedPack(kvList, kvStore, blocks, home, latestBlockId, OpenBlock());
      SizeSplit([kvStore[k]], Infos(kvList[1..], kvStore));
      SizeSplit(OpenBlock(), [kvStore[k]]);
      SizeOne(kvStore[k]);
      FlushedOpen(index, files, blocks, latestBlockId, OpenBlock() + [kvStore[k]]);
      kvList := kvList[1..];
      blocks := blocks[latestBlockId := OpenBlock() + [kvStore[k]]];
      totalSizeWithoutBlock := totalSizeWithoutBlock - SlabSize(kvStore[k].lengthType);
      home := home[k := latestBlockId];
    }

    // Writes a packed block, in whatever order blocks are picked: its file, a record for each entry,
    // and the entries leave the buffer.
    method Flush(blockId: int)
      requires Valid() && Settled() && blockId in blocks
      modifies this
      ensures Valid() && Settled()
      ensures accepted == old(accepted) && kvList == old(kvList) && latestBlockId == old(latestBlockId)
      ensures blocks == old(blocks) - {blockId} && kvStore == old(kvStore) - Keys(old(blocks)[blockId])
      ensures files == old(files)[blockId := Content(old(blocks)[blockId])]
      ensures index == Recorded(old(index), blockId, old(blocks)[blockId])
      ensures Keys(old(blocks)[blockId]) <= old(kvStore).Keys
      ensures FileValues() == Overlaid(old(FileValues()), accepted, Keys(old(blocks)[blockId]))
    {
      hide Placed, Flushed, Agrees, InFile, StoreSize, Infos, Size, SlabSize, Recorded, Content, Keys, DistinctKeys;
      hide OnFile, Overlaid;
      QueueStored(kvList, kvStore, blocks, home);
      FlushLemma(blockId);
      var flushedSize := WriteBlock(blockId);
      home := home - Keys(blocks[blockId]);
      blocks := blocks - {blockId};
      totalSize := totalSize - flushedSize;
    }

    // The state that a flush leads to.
    lemma FlushLemma(b: int)
      requires Valid() && b in blocks && forall k :: k in kvList ==> k in kvStore
      ensures var block := blocks[b];
              var store' := kvStore - Keys(block);
              && DistinctKeys(block) && Keys(block) <= kvStore.Keys
              && (forall i :: 0 <= i < |block| ==> block[i].key in kvStore && kvStore[block[i].key] == block[i])
              && Placed(kvList, store', blocks - {b}, home - Keys(block))
              && (forall k :: k in kvList ==> k in store')
              && Infos(kvList, store') == Infos(kvList, kvStore)
              && Flushed(Recorded(index, b, block), files[b := Content(block)], blocks - {b}, latestBlockId)
              && (forall k :: k in Recorded(index, b, block) ==>
                    InFile(Recorded(index, b, block)[k], files[b := Content(block)]))
              && Agrees(accepted, store', Recorded(index, b, block), files[b := Content(block)])
              && OnFile(Recorded(index, b, block), files[b := Content(block)])
                 == Overlaid(FileValues(), accepted, Keys(block))
    {
      hide OnFile, Overlaid;
      hide Placed, Flushed, Held, DistinctKeys, Agrees, InFile, StoreSize, Infos, Size, SlabSize, Recorded, Content;
      hide Keys;
      BlockHeld(kvList, kvStore, blocks, home, b);
      HeldKeys(blocks[b], b, kvStore, home);
      PlacedFlush(kvList, kvStore, blocks, home, b);
      FlushedFlush(index, files, blocks, latestBlockId, b);
      InFiles(Recorded(index, b, blocks[b]), files[b := Content(blocks[b])], blocks - {b}, latestBlockId);
      InFiles(index, files, blocks, latestBlockId);
      AgreesFlush(accepted, kvStore, index, files, blocks, home, latestBlockId, b);
      OnFileFlush(accepted, kvStore, index, files, blocks, home, latestBlockId, b);
    }

    // The loop of flush: file, records and store change entry by entry.
    method WriteBlock(blockId: int) returns (flushedSize: int)
      requires blockId in blocks && DistinctKeys(blocks[blockId])
      requires forall i :: 0 <= i < |blocks[blockId]| ==>
                 var info := blocks[blockId][i]; info.key in kvStore && kvStore[info.key] == info
      modifies this`files, this`index, this`kvStore
      ensures flushedSize == Size(blocks[blockId]) && kvStore == old(kvStore) - Keys(blocks[blockId])
      ensures StoreSize(kvStore) == old(StoreSize(kvStore)) - flushedSize
      ensures files == old(files)[blockId := Content(blocks[blockId])]
      ensures index == Recorded(old(index), blockId, blocks[blockId])
    {
      hide StoreSize, Size, SlabSize, Recorded, Content, Keys;
      var block := blocks[blockId];
      var i, offset := 0, 0;
      flushedSize := 0;
      files := files[blockId := []];
      BlockStart(old(index), blockId, block);
      while i < |block|
        invariant i <= |block| && flushedSize == Size(block[..i]) && offset == |Content(block[..i])|
        invariant files == old(files)[blockId := Content(block[..i])]
        invariant index == Recorded(old(index), blockId, block[..i])
        invariant kvStore == old(kvStore) - Keys(block[..i])
        invariant StoreSize(kvStore) == old(StoreSize(kvStore)) - flushedSize
      {
        var info := block[i];
        PrefixKeys(block, i);
        PrefixRecorded(old(index), blockId, block, i);
        StoreSizeErase(kvStore, info.key);
        flushedSize := flushedSize + SlabSize(info.lengthType);
        files := files[blockId := files[blockId] + info.value];
        index := index[info.key := IndexInfo(blockId, offset, |info.value|, info.lengthType)];
        offset := offset + |info.value|;
        kvStore := kvStore - {info.key};
        i := i + 1;
      }
      assert block[..i] == block;
    }

    static lemma BlockStart(index: Index, b: int, block: seq<KvInfo>)
      ensures Size(block[..0]) == 0 && Content(block[..0]) == [] && Recorded(index, b, block[..0]) == index
      ensures Keys(block[..0]) == {}
    {
    }

    // Packs whatever waits into new blocks.
    method PackAll()
      requires Valid() && Settled()
      modifies this`kvList, this`blocks, this`totalSizeWithoutBlock, this`home, this`latestBlockId
      ensures Valid() && Settled() && kvList == []
    {
      while kvList != []
        invariant Valid() && Settled()
        decreases |kvList|
      {
        hide Valid, Settled;
        PackNext();
      }
    }

    method PackNext()
      requires Valid() && Settled() && kvList != []
      modifies this`kvList, this`blocks, this`totalSizeWithoutBlock, this`home, this`latestBlockId
      ensures Valid() && Settled() && |kvList| < |old(kvList)|
    {
      hide Placed, Flushed, Agrees, StoreSize, Size, Infos, InFile, SlabSize;
      FlushedNumber(index, files, blocks, latestBlockId);
      latestBlockId := latestBlockId + 1;
      PackSome();
    }

    // One block of sync: as many entries as fit, at least one.
    method PackSome()
      requires Valid() && Settled() && Opened() && latestBlockId !in blocks && kvList != []
      modifies this`kvList, this`blocks, this`totalSizeWithoutBlock, this`home
      ensures Valid() && Settled() && |kvList| < |old(kvList)|
    {
      hide Placed, Flushed, Agrees, StoreSize, Size, Infos, InFile, SlabSize;
      ghost var first := kvList[0];
      var newBlockSize := 0;
      SizeOne(KvInfo("", [], 0));
      while kvList != []
        invariant Valid() && Settled() && Opened()
        invariant newBlockSize == Size(OpenBlock())
        invariant (kvList == old(kvList) && newBlockSize == 0) || |kvList| < |old(kvList)|
        decreases |kvList|
      {
        QueueStored(kvList, kvStore, blocks, home);
        SmallSlab(kvList, kvStore, blocks, home, kvList[0]);
        var slabType := kvStore[kvList[0]].lengthType;
        if newBlockSize + SlabSize(slabType) > Limit() {
          break;
        }
        PackFront();
        newBlockSize := newBlockSize + SlabSize(slabType);
      }
    }

    // Afterwards every accepted value is in a file.
    method Sync()
      requires Valid() && Settled()
      modifies this
      ensures Valid() && Settled() && kvStore == map[] && blocks == map[] && accepted == old(accepted)
      ensures accepted.Keys == index.Keys && FileValues() == accepted
    {
      hide Placed, Flushed, Agrees, StoreSize, Size, Infos, InFile, SlabSize, Recorded, Content, Keys;
      PackAll();
      while blocks.Keys != {}
        invariant Valid() && Settled() && kvList == [] && accepted == old(accepted)
        decreases |blocks|
      {
        EmptyIff(blocks.Keys);
        var b :| b in blocks.Keys;
        Flush(b);
      }
      assert blocks == map[];
      NothingLeft(kvList, kvStore, blocks, home);
      InFiles(index, files, blocks, latestBlockId);
      AcceptedFlushed(accepted, index, files);
    }

    // What is still in memory; empty when there is nothing, but also when an empty value is there.
    method ReadBuffer(key: Key) returns (value: Bytes)
      ensures value == if key in kvStore then kvStore[key].value else []
    {
      if key in kvStore {
        value := kvStore[key].value;
      } else {
        value := [];
      }
    }

    // What the file holds for a key with a record.
    method ReadFile(key: Key) returns (value: Bytes)
      requires Valid() && key in index
      ensures key in accepted && value == FileValues()[key] && (key !in kvStore ==> value == accepted[key])
    {
      value := Range(index[key], files);
    }

    // The buffer, then the range of the file in the record: with no cache in between every reader at every
    // moment gets the last accepted value, unless that is empty, still in memory, and hides no older one.
    method Read(key: Key) returns (value: Bytes)
      requires Valid()
      ensures key in accepted ==>
                (value == accepted[key] <==>
                   key !in kvStore || accepted[key] != [] || key !in index || FileValues()[key] == [])
      ensures key !in accepted ==> value == []
    {
      value := ReadBuffer(key);
      if |value| == 0 && key in index {
        value := ReadFile(key);
      }
    }
  }
}
