// SSDCache: block files copied from the hard disk, as steps of readers and of fetches in a thread pool.
module SsdCache {
  import opened Common

  type Bytes = seq<bv8>

  const CHECK_THRESHOLD: int := 50

  ghost predicate IsLeast(m: int, s: set<int>)
  {
    m in s && forall j :: j in s ==> m <= j
  }

  lemma {:induction false} LeastElement(s: set<int>) returns (m: int)
    requires s != {}
    ensures IsLeast(m, s)
    decreases |s|
  {
    EmptyIff(s);
    m :| m in s;
    if s != {m} {
      var rest := s - {m};
      assert s == rest + {m};
      var l := LeastElement(rest);
      m := if l < m then l else m;
    }
  }

  lemma LeastIs(m: int, s: set<int>)
    requires IsLeast(m, s)
    ensures m in s && forall j :: j in s ==> m <= j
  {
  }

  // Of two recorded blocks the one that the selection prefers: read less often, or the later number.
  predicate Preferred(a: int, b: int, counts: map<int, int>)
    requires a in counts && b in counts
  {
    counts[a] < counts[b] || (counts[a] == counts[b] && a >= b)
  }

  // Of two different blocks it prefers exactly one.
  lemma PreferredOne(a: int, b: int, counts: map<int, int>)
    requires a in counts && b in counts && a != b
    ensures Preferred(a, b, counts) <==> !Preferred(b, a, counts)
    ensures counts[a] < counts[b] ==> Preferred(a, b, counts)
    ensures counts[a] == counts[b] ==> (Preferred(a, b, counts) <==> a > b)
  {
  }

  class SsdCache {
    const maxBlockNum: int
    var blockNum: int
    var cachedBlockId: seq<int>
    var cachedBlock: map<int, nat>
    var cachingBlock: set<int>
    var readRecord: map<int, int>
    var readNum: int
    // The files by block, and the fetches that wait in the pool or have copied their file.
    var hdd: map<int, Bytes>
    var ssd: map<int, Bytes>
    ghost var scheduled: set<int>
    ghost var copied: set<int>

    ghost predicate Valid()
      reads this
    {
      && maxBlockNum >= 1 && blockNum == |cachedBlockId| < maxBlockNum
      && Distinct(cachedBlockId) && (forall b :: b in cachedBlockId <==> b in cachedBlock)
      && cachingBlock == scheduled + copied && scheduled !! copied && cachingBlock !! cachedBlock.Keys
      && (forall b :: b in cachingBlock ==> b in hdd)
      && ssd.Keys == cachedBlock.Keys + copied
      && (forall b :: b in ssd ==> b in hdd && ssd[b] == hdd[b])
      && (forall b :: b in cachedBlock ==> cachedBlock[b] == |ssd[b]|)
      && (forall b :: b in readRecord ==> b in hdd && readRecord[b] >= 1) && (forall b :: b in hdd ==> b >= 1)
    }

    constructor (maxBlockNum: int)
      requires maxBlockNum >= 1
      ensures Valid() && hdd == map[] && this.maxBlockNum == maxBlockNum && readNum == 0 && readRecord == map[]
    {
      this.maxBlockNum := maxBlockNum;
      blockNum, cachedBlockId, cachedBlock, cachingBlock := 0, [], map[], {};
      readRecord, readNum, hdd, ssd := map[], 0, map[], map[];
      scheduled, copied := {}, {};
    }

    // The write buffer flushes a block; its number is new.
    method AddBlock(b: int, content: Bytes)
      requires Valid() && b >= 1 && b !in hdd
      modifies this`hdd
      ensures Valid() && hdd == old(hdd)[b := content]
    {
      hdd := hdd[b := content];
    }

    // Every reader gets the bytes of the hard disk file, whatever is cached or on its way. Only the
    // record, and now and then the set of blocks to be cached, change.
    method Read(b: int, offset: nat, length: nat) returns (value: Bytes)
      requires Valid() && b in hdd && offset + length <= |hdd[b]|
      modifies this`readRecord, this`readNum, this`cachingBlock, this`scheduled
      ensures Valid() && value == hdd[b][offset..offset + length]
      ensures old(readNum) < 50 ==>
                readNum == old(readNum) + 1 && cachingBlock == old(cachingBlock)
                && readRecord == old(readRecord)[b := (if b in old(readRecord) then old(readRecord[b]) else 0) + 1]
      ensures old(readNum) >= 50 ==>
                readNum == 0 && readRecord == map[] && Scheduled(
                  old(readRecord)[b := (if b in old(readRecord) then old(readRecord[b]) else 0) + 1], old(cachingBlock))
    {
      hide Distinct, Scheduled;
      if b !in readRecord {
        readRecord := readRecord[b := 0];
      }
      readRecord := readRecord[b := readRecord[b] + 1];
      readNum := readNum + 1;
      assert readRecord == old(readRecord)[b := (if b in old(readRecord) then old(readRecord[b]) else 0) + 1];
      if readNum > CHECK_THRESHOLD {
        ScheduleFetch();
      }
      if b in cachedBlock {
        value := ssd[b][offset..offset + length];
      } else {
        value := hdd[b][offset..offset + length];
      }
    }

    // The block that was selected is marked and its fetch handed to the pool; counting starts again.
    method ScheduleFetch()
      requires Valid()
      modifies this`readRecord, this`readNum, this`cachingBlock, this`scheduled
      ensures Valid() && readNum == 0 && readRecord == map[] && Scheduled(old(readRecord), old(cachingBlock))
    {
      hide Distinct, Preferred;
      var toFetch := Select(readRecord);
      if toFetch != 0 && toFetch !in cachedBlock && toFetch !in cachingBlock {
        cachingBlock := cachingBlock + {toFetch};
        scheduled := scheduled + {toFetch};
      }
      readNum, readRecord := 0, map[];
      if toFetch != 0 {
        assert Chosen(toFetch, old(readRecord)) && cachingBlock == old(cachingBlock) + {toFetch};
      }
    }

    // What the 51st read adds to the blocks being cached: of the recorded blocks that are not cached, the
    // one that was read least, unless it is on its way already.
    ghost predicate Scheduled(counts: map<int, int>, before: set<int>)
      reads this
    {
      if forall b :: b in counts ==> b in cachedBlock then cachingBlock == before
      else exists t :: Chosen(t, counts) && cachingBlock == before + {t}
    }

    ghost predicate Chosen(t: int, counts: map<int, int>)
      reads this
    {
      t in counts && t !in cachedBlock && forall b :: b in counts && b !in cachedBlock ==> Preferred(t, b, counts)
    }

    // Sorts the recorded blocks into buckets, most read first, and keeps the last candidate that is not
    // cached; 0 if there is none.
    method Select(counts: map<int, int>) returns (toFetch: int)
      requires forall b :: b in counts ==> b >= 1
      ensures toFetch == 0 <==> forall b :: b in counts ==> b in cachedBlock
      ensures toFetch != 0 ==> Chosen(toFetch, counts)
    {
      hide *;
      var buckets := Buckets(counts);
      toFetch := 0;
      var todo := buckets.Keys;
      BestFirst(counts, todo);
      while todo != {}
        invariant todo <= buckets.Keys && forall j, k :: j in todo && k in buckets && k !in todo ==> k < j
        invariant Best(toFetch, counts, todo)
        decreases |todo|
      {
        ghost var least := LeastElement(todo);
        LeastIs(least, todo);
        var k :| k in todo && forall j :: j in todo ==> k <= j;
        ghost var before := toFetch;
        toFetch := LastUncached(buckets[k], toFetch);
        NextBucket(counts, buckets[k], k, todo, before, toFetch) by {
          assert forall b :: b in counts && CHECK_THRESHOLD - counts[b] !in todo ==> CHECK_THRESHOLD - counts[b] < k;
        }
        todo := todo - {k};
      }
      BestLast(toFetch, counts);
    }

    lemma BestFirst(counts: map<int, int>, todo: set<int>)
      requires forall b :: b in counts ==> CHECK_THRESHOLD - counts[b] in todo
      ensures Best(0, counts, todo)
    {
    }

    lemma BestLast(t: int, counts: map<int, int>)
      requires Best(t, counts, {}) && forall b :: b in counts ==> b >= 1
      ensures t == 0 <==> forall b :: b in counts ==> b in cachedBlock
      ensures t != 0 ==> Chosen(t, counts)
    {
      hide Preferred;
      if t == 0 {
        assert forall b :: b in counts ==> CHECK_THRESHOLD - counts[b] !in {};
      }
    }

    // The choice among the blocks whose bucket is not to do any more.
    ghost predicate Best(t: int, counts: map<int, int>, todo: set<int>)
      reads this
    {
      && (t == 0 || (t in counts && t !in cachedBlock && CHECK_THRESHOLD - counts[t] !in todo))
      && forall b :: b in counts && b !in cachedBlock && CHECK_THRESHOLD - counts[b] !in todo ==>
                       t != 0 && Preferred(t, b, counts)
    }

    // A later bucket was read less, and within it the last block has the greatest number.
    lemma NextBucket(counts: map<int, int>, bucket: seq<int>, k: int, todo: set<int>, before: int, last: int)
      requires (forall b :: b in counts ==> b >= 1) && Best(before, counts, todo) && Ascending(bucket)
      requires forall b :: b in bucket <==> b in counts && CHECK_THRESHOLD - counts[b] == k
      requires forall b :: b in counts && CHECK_THRESHOLD - counts[b] !in todo ==> CHECK_THRESHOLD - counts[b] < k
      requires (forall b :: b in bucket ==> b in cachedBlock) ==> last == before
      requires (exists b :: b in bucket && b !in cachedBlock) ==>
                 exists i :: 0 <= i < |bucket| && bucket[i] == last && last !in cachedBlock
                             && forall j :: i < j < |bucket| ==> bucket[j] in cachedBlock
      ensures Best(last, counts, todo - {k})
    {
      if exists b :: b in bucket && b !in cachedBlock {
        assert last in bucket;
        forall b | b in bucket && b !in cachedBlock ensures b <= last {
          var j :| 0 <= j < |bucket| && bucket[j] == b;
        }
      }
    }

    method LastUncached(bucket: seq<int>, before: int) returns (last: int)
      ensures (forall b :: b in bucket ==> b in cachedBlock) ==> last == before
      ensures (exists b :: b in bucket && b !in cachedBlock) ==>
                exists i :: 0 <= i < |bucket| && bucket[i] == last && last !in cachedBlock
                            && forall j :: i < j < |bucket| ==> bucket[j] in cachedBlock
    {
      last := before;
      ghost var found := -1;
      var i := 0;
      while i < |bucket|
        invariant i <= |bucket| && -1 <= found < i && forall j :: found < j < i ==> bucket[j] in cachedBlock
        invariant if found < 0 then last == before else last == bucket[found] && last !in cachedBlock
      {
        if bucket[i] !in cachedBlock {
          last := bucket[i];
          found := i;
        }
        i := i + 1;
      }
    }

    // The recorded blocks by number of reads, in ascending order within a bucket.
    static method Buckets(counts: map<int, int>) returns (buckets: map<int, seq<int>>)
      ensures forall k :: k in buckets ==> Ascending(buckets[k])
      ensures forall k :: k in buckets ==>
                forall b :: b in buckets[k] <==> b in counts && CHECK_THRESHOLD - counts[b] == k
      ensures forall b :: b in counts ==> CHECK_THRESHOLD - counts[b] in buckets
    {
      buckets := map[];
      var todo := counts.Keys;
      while todo != {}
        invariant todo <= counts.Keys && forall a, b :: a in todo && b in counts && b !in todo ==> b < a
        invariant forall k :: k in buckets ==> Ascending(buckets[k])
        invariant forall k :: k in buckets ==>
                    forall b :: b in buckets[k] <==> b in counts && b !in todo && CHECK_THRESHOLD - counts[b] == k
        invariant forall b :: b in counts && b !in todo ==> CHECK_THRESHOLD - counts[b] in buckets
        decreases |todo|
      {
        ghost var least := LeastElement(todo);
        assert forall j :: j in todo ==> least <= j;
        var b :| b in todo && forall j :: j in todo ==> b <= j;
        var k := CHECK_THRESHOLD - counts[b];
        if k in buckets {
          AscendingNext(buckets[k], b) by {
            forall c | c in buckets[k] ensures c < b {
              assert c in counts && c !in todo;
            }
          }
        }
        buckets := buckets[k := (if k in buckets then buckets[k] else []) + [b]];
        todo := todo - {b};
      }
    }

    static lemma AscendingNext(s: seq<int>, b: int)
      requires Ascending(s) && forall c :: c in s ==> c < b
      ensures Ascending(s + [b])
    {
      assert forall i :: 0 <= i < |s| ==> s[i] in s;
    }

    static ghost predicate Ascending(s: seq<int>)
    {
      forall i, j :: 0 <= i < j < |s| ==> s[i] < s[j]
    }

    // The part of fetch before the lock. The cache is never full here, so every fetch that was scheduled
    // copies its file, over no other file.
    method BeginFetch(b: int)
      requires Valid() && b in scheduled
      modifies this`ssd, this`scheduled, this`copied
      ensures Valid() && b !in old(ssd) && ssd == old(ssd)[b := hdd[b]]
      ensures scheduled == old(scheduled) - {b} && copied == old(copied) + {b}
    {
      if blockNum < maxBlockNum {
        ssd := ssd[b := hdd[b]];
        scheduled, copied := scheduled - {b}, copied + {b};
      }
    }

    // The part under the lock: the block is cached, and if the cache is now full, the blocks that came
    // first go until fewer than 7 tenths are left.
    method CommitFetch(b: int)
      requires Valid() && b in copied
      modifies this`ssd, this`copied, this`cachedBlockId, this`cachedBlock, this`blockNum, this`cachingBlock
      ensures Valid() && cachingBlock == old(cachingBlock) - {b}
      ensures old(blockNum) + 1 < maxBlockNum ==> cachedBlockId == old(cachedBlockId) + [b]
      ensures old(blockNum) + 1 == maxBlockNum ==>
                10 * blockNum < 7 * maxBlockNum <= 10 * (blockNum + 1)
                && cachedBlockId == (old(cachedBlockId) + [b])[maxBlockNum - blockNum..]
    {
      hide Distinct;
      Enter(b);
      if blockNum >= maxBlockNum {
        CleanUp();
      }
      cachingBlock := cachingBlock - {b};
    }

    method Enter(b: int)
      requires Valid() && b in copied
      modifies this`copied, this`cachedBlockId, this`cachedBlock, this`blockNum
      ensures Cached() && cachedBlockId == old(cachedBlockId) + [b] && copied == old(copied) - {b}
      ensures cachedBlock.Keys == old(cachedBlock.Keys) + {b}
    {
      hide Distinct;
      FreshId(cachedBlockId, cachedBlock, b);
      cachedBlockId := cachedBlockId + [b];
      cachedBlock := cachedBlock[b := |ssd[b]|];
      copied := copied - {b};
      blockNum := blockNum + 1;
    }

    static lemma FreshId(ids: seq<int>, cached: map<int, nat>, b: int)
      requires Distinct(ids) && b !in cached && forall c :: c in ids <==> c in cached
      ensures Distinct(ids + [b]) && forall c :: c in ids + [b] <==> c in cached || c == b
    {
    }

    static lemma RestIds(ids: seq<int>)
      requires Distinct(ids) && ids != []
      ensures Distinct(ids[1..]) && forall b :: b in ids[1..] <==> b in ids && b != ids[0]
    {
    }

    ghost predicate Cached()
      reads this
    {
      && blockNum == |cachedBlockId| && Distinct(cachedBlockId)
      && (forall b :: b in cachedBlockId <==> b in cachedBlock)
      && cachedBlock.Keys !! copied && ssd.Keys == cachedBlock.Keys + copied
      && (forall b :: b in ssd ==> b in hdd && ssd[b] == hdd[b])
      && (forall b :: b in cachedBlock ==> cachedBlock[b] == |ssd[b]|)
    }

    method CleanUp()
      requires Cached() && maxBlockNum >= 1 && blockNum == maxBlockNum
      modifies this`ssd, this`cachedBlockId, this`cachedBlock, this`blockNum
      ensures Cached() && 10 * blockNum < 7 * maxBlockNum <= 10 * (blockNum + 1)
      ensures cachedBlockId == old(cachedBlockId)[maxBlockNum - blockNum..] && cachedBlock.Keys <= old(cachedBlock.Keys)
    {
      while true
        invariant Cached() && 0 <= blockNum <= maxBlockNum && 7 * maxBlockNum <= 10 * (blockNum + 1)
        invariant cachedBlockId == old(cachedBlockId)[maxBlockNum - blockNum..]
        invariant cachedBlock.Keys <= old(cachedBlock.Keys)
        decreases |cachedBlockId|
      {
        if |cachedBlockId| == 0 {
          break;
        }
        if 10 * blockNum < 7 * maxBlockNum {
          break;
        }
        RemoveFront();
      }
    }

    method RemoveFront()
      requires Cached() && |cachedBlockId| > 0
      modifies this`ssd, this`cachedBlockId, this`cachedBlock, this`blockNum
      ensures Cached() && cachedBlockId == old(cachedBlockId)[1..] && cachedBlock.Keys <= old(cachedBlock.Keys)
    {
      hide Distinct;
      var deleted := cachedBlockId[0];
      RestIds(cachedBlockId);
      cachedBlock := cachedBlock - {deleted};
      cachedBlockId := cachedBlockId[1..];
      ssd := ssd - {deleted};
      blockNum := blockNum - 1;
    }
  }
}
