/** The node's chain as it is kept: a database of pools by sequence and by hash, a deferred top block, the last
    sequence, and the block cache. Every operation is proved to do on these what ChainModel says it does. */
module BlockChain {
  import opened ChainModel
  import opened ChainRuns
  import opened Options

  /** The database holds exactly the first `n` blocks, under both keys. */
  ghost predicate Stores(pools: map<nat, Block>, seqNo: map<Hash, nat>, last: Hash, blocks: seq<Block>, n: nat) {
    && n <= |blocks|
    && (forall i :: i in pools <==> 0 <= i < n)
    && (forall i {:trigger pools[i]} :: 0 <= i < n ==> pools[i] == blocks[i] && HashBlock(blocks[i]) in seqNo)
    && (forall h {:trigger seqNo[h]} :: h in seqNo ==> seqNo[h] < n && h == HashBlock(blocks[seqNo[h]]))
    && last == ParentHash(blocks, n)
  }

  /** What reading a pool without its transactions yields. */
  datatype Meta = Meta(number: nat, prev: Hash)

  function MetaOf(b: Block): (m: Meta) {
    Meta(b.number, b.prev)
  }

  lemma StoresSaved(pools: map<nat, Block>, seqNo: map<Hash, nat>, last: Hash, blocks: seq<Block>, n: nat)
    requires Stores(pools, seqNo, last, blocks, n) && Linked(blocks) && n < |blocks|
    ensures var b := blocks[n];
            && b.number == n && HashBlock(b) !in seqNo && last == b.prev
            && Stores(pools[n := b], seqNo[HashBlock(b) := n], HashBlock(b), blocks, n + 1)
  {
    var h := HashBlock(blocks[n]);
    ParentIs(blocks, n + 1);
    forall g | g in seqNo ensures seqNo[g] < n && g.HashOf? && g.number == seqNo[g] {
      assert g == HashBlock(blocks[seqNo[g]]);
    }
    assert blocks[n].prev == ParentHash(blocks, n);
    var pools', seqNo' := pools[n := blocks[n]], seqNo[h := n];
    forall i | 0 <= i < n + 1 ensures pools'[i] == blocks[i] && HashBlock(blocks[i]) in seqNo' {
      assert i < n ==> pools[i] == blocks[i];
    }
  }

  lemma StoresRemoved(pools: map<nat, Block>, seqNo: map<Hash, nat>, last: Hash, blocks: seq<Block>, n: nat)
    requires Stores(pools, seqNo, last, blocks, n) && Linked(blocks) && n > 0
    ensures && last in seqNo && seqNo[last] == n - 1 && pools[n - 1] == blocks[n - 1]
            && Stores(pools - {n - 1}, seqNo - {last}, blocks[n - 1].prev, blocks, n - 1)
  {
    ParentIs(blocks, n);
    assert pools[n - 1] == blocks[n - 1] && HashBlock(blocks[n - 1]) in seqNo;
    assert blocks[seqNo[last]].number == seqNo[last];
    assert blocks[n - 1].prev == ParentHash(blocks, n - 1);
    var pools' := pools - {n - 1};
    forall i | 0 <= i < n - 1 ensures pools'[i] == blocks[i] && HashBlock(blocks[i]) in seqNo - {last} {
      assert pools[i] == blocks[i] && blocks[i].number == i;
    }
  }

  lemma StoresLast(pools: map<nat, Block>, seqNo: map<Hash, nat>, last: Hash, blocks: seq<Block>, n: nat)
    requires Stores(pools, seqNo, last, blocks, n)
    ensures last == if n == 0 then NoHash else HashBlock(blocks[n - 1])
  {
    ParentIs(blocks, n);
  }

  lemma ParentIs(blocks: seq<Block>, n: nat)
    requires n <= |blocks|
    ensures ParentHash(blocks, n) == if n == 0 then NoHash else HashBlock(blocks[n - 1])
  {
  }

  /** Only the first `n` blocks matter. */
  lemma StoresElsewhere(pools: map<nat, Block>, seqNo: map<Hash, nat>, last: Hash, blocks: seq<Block>,
    blocks': seq<Block>, n: nat)
    requires Stores(pools, seqNo, last, blocks, n) && n <= |blocks'|
    requires forall i :: 0 <= i < n ==> blocks'[i] == blocks[i]
    ensures Stores(pools, seqNo, last, blocks', n)
  {
    assert n > 0 ==> blocks'[n - 1] == blocks[n - 1];
    forall i | 0 <= i < n ensures pools[i] == blocks'[i] && HashBlock(blocks'[i]) in seqNo {
      assert pools[i] == blocks[i];
    }
    forall h | h in seqNo ensures seqNo[h] < n && h == HashBlock(blocks'[seqNo[h]]) {
    }
  }

  function StoreFromCache(o: Oracle, s: Chain, first: nat): (r: (Chain, bool))
    requires first in s.cache
  {
    var (s1, ok) := Store(o, s, s.cache[first].block, s.cache[first].bySync);
    (s1.(cache := s1.cache - {first}), ok)
  }

  lemma DrainStep(o: Oracle, s: Chain)
    requires WellFormed(s) && LastSeq(s) + 1 in s.cache
    ensures var (s2, ok) := StoreFromCache(o, s, LastSeq(s) + 1);
            if ok then WellFormed(s2) && DrainFrom(o, s) == DrainFrom(o, s2) else DrainFrom(o, s) == s2
  {
    var c := s.cache[LastSeq(s) + 1];
    StoreKeepsWellFormed(o, s, c.block, c.bySync);
  }

  lemma StoredIsOnTop(o: Oracle, s: Chain, b: Block, bySync: bool)
    requires WellFormed(s) && b.number == LastSeq(s) + 1
    ensures Store(o, s, b, bySync).0.cache == s.cache
    ensures Store(o, s, b, bySync).1 ==>
      Store(o, s, b, bySync).0.blocks != [] && LastSeq(Store(o, s, b, bySync).0) == b.number
  {
    StoreKeepsWellFormed(o, s, b, bySync);
    RecordKeepsWellFormed(o, s, Completed(o, s, b, bySync));
  }

  lemma DrainDone(o: Oracle, s: Chain)
    requires WellFormed(s) && LastSeq(s) + 1 !in s.cache
    ensures DrainFrom(o, s) == s
  {
  }

  class BlockChain {
    const oracle: Oracle
    // Storage
    var pools: map<nat, Block>
    var seqNo: map<Hash, nat>
    var storageLastHash: Hash
    var countPool: nat
    // BlockChain
    var deferredBlock: Option<Block>
    var lastSequence: nat
    var cachedBlocks: map<nat, Cached>
    var blocksToBeRemoved: nat
    /** The persisted blocks followed by the deferred one. */
    ghost var blocks: seq<Block>

    ghost function Abs(): Chain
      reads this
    {
      Chain(blocks, countPool, cachedBlocks, blocksToBeRemoved)
    }

    ghost predicate StorageValid()
      reads this
    {
      Linked(blocks) && Stores(pools, seqNo, storageLastHash, blocks, countPool)
    }

    ghost predicate Valid()
      reads this
    {
      && StorageValid() && lastSequence == LastSeq(Abs())
      && (deferredBlock.None? ==> countPool == |blocks|)
      && (deferredBlock.Some? ==> countPool + 1 == |blocks| && deferredBlock.value == blocks[countPool])
      && forall k :: k in cachedBlocks ==> cachedBlocks[k].block.number == k
    }

    // ----- Storage

    /** Storage::pool_save: refuses a pool whose hash is already there; moves the last hash only if the pool
        continues it. */
    method PoolSave(b: Block) returns (ok: bool)
      modifies `pools, `seqNo, `countPool, `storageLastHash
      ensures ok <==> HashBlock(b) !in old(seqNo)
      ensures ok ==> pools == old(pools)[b.number := b] && seqNo == old(seqNo)[HashBlock(b) := b.number]
      ensures ok ==> countPool == old(countPool) + 1
      ensures ok ==> storageLastHash == if old(storageLastHash) == b.prev then HashBlock(b) else old(storageLastHash)
      ensures !ok ==> pools == old(pools) && seqNo == old(seqNo)
      ensures !ok ==> countPool == old(countPool) && storageLastHash == old(storageLastHash)
    {
      var hash := HashBlock(b);
      ok := hash !in seqNo;
      if ok {
        pools := pools[b.number := b];
        seqNo := seqNo[hash := b.number];
        countPool := countPool + 1;
        if storageLastHash == b.prev {
          storageLastHash := hash;
        }
      }
    }

    /** Storage::pool_remove_last: looks the top pool up by the last hash and returns its metadata. */
    method PoolRemoveLast() returns (r: Option<Meta>)
      requires StorageValid()
      modifies `pools, `seqNo, `countPool, `storageLastHash
      ensures StorageValid()
      ensures old(countPool) == 0 ==> r.None? && countPool == 0
      ensures old(countPool) > 0 ==> countPool == old(countPool) - 1 && r == Some(MetaOf(blocks[countPool]))
    {
      StoresLast(pools, seqNo, storageLastHash, blocks, countPool);
      if storageLastHash.NoHash? {
        return None;
      }
      StoresRemoved(pools, seqNo, storageLastHash, blocks, countPool);
      var last := seqNo[storageLastHash];
      var res := MetaOf(pools[last]);
      pools := pools - {last};
      seqNo := seqNo - {storageLastHash};
      countPool := countPool - 1;
      storageLastHash := res.prev;
      return Some(res);
    }

    // ----- BlockChain

    /** A node whose genesis block is deferred and nothing else is known. */
    constructor (oracle: Oracle, genesis: Block, removable: nat)
      requires genesis.number == 0 && genesis.prev == NoHash
      ensures this.oracle == oracle && Valid() && Abs() == Chain([genesis], 0, map[], removable)
    {
      this.oracle := oracle;
      pools, seqNo, storageLastHash, countPool := map[], map[], NoHash, 0;
      deferredBlock, lastSequence, cachedBlocks, blocksToBeRemoved := Some(genesis), 0, map[], removable;
      blocks := [genesis];
    }

    method GetLastHash() returns (h: Hash)
      requires Valid()
      ensures h == LastHash(Abs())
    {
      StoresLast(pools, seqNo, storageLastHash, blocks, countPool);
      if deferredBlock.Some? {
        return HashBlock(deferredBlock.value);
      }
      return storageLastHash;
    }

    /** Drop the deferred block or, if there is none, the last persisted one. Dropping genesis leaves
        `lastSequence` as it is. */
    method RemoveLastBlock()
      requires Valid()
      modifies this
      ensures Valid() && Abs() == RemoveLast(old(Abs()))
    {
      if blocksToBeRemoved == 0 {
        return;
      }
      var pool: Option<Meta>;
      if deferredBlock.Some? {
        pool := Some(MetaOf(deferredBlock.value));
        deferredBlock := None;
      } else {
        pool := PoolRemoveLast();
      }
      if pool.None? {
        return;
      }
      ghost var top := |blocks| - 1;
      assert pool.value == MetaOf(blocks[top]) && pool.value.number == top;
      LinkedPrefix(blocks, top);
      StoresElsewhere(pools, seqNo, storageLastHash, blocks, blocks[..top], countPool);
      blocks := blocks[..top];
      if pool.value.number == 0 {
        return;
      }
      lastSequence := lastSequence - 1;
    }

    /** Confidants of the block below the one about to be recorded, from memory or from the database. */
    method LoadConfidants(number: nat) returns (r: seq<nat>)
      requires Valid() && number <= |blocks|
      ensures r == LastConfidants(Abs(), number)
    {
      r := [];
      if number > 1 {
        assert forall i :: 0 <= i < countPool ==> pools[i] == blocks[i];
        if deferredBlock.Some? && deferredBlock.value.number + 1 == number {
          r := deferredBlock.value.body.confidants;
        } else {
          r := pools[number - 1].body.confidants;
        }
      }
    }

    /** Persist the deferred block, if there is one. */
    method SaveDeferred()
      requires Valid()
      modifies `pools, `seqNo, `countPool, `storageLastHash, `deferredBlock
      ensures Valid() && deferredBlock.None? && Abs() == Flush(old(Abs()))
    {
      if deferredBlock.Some? {
        StoresSaved(pools, seqNo, storageLastHash, blocks, countPool);
        var saved := PoolSave(deferredBlock.value);
        deferredBlock := None;
      }
    }

    /** tryFlushDeferredBlock: `passes` is the outcome of the read-only and group-signature checks. */
    method TryFlushDeferred(passes: bool)
      requires Valid()
      modifies `pools, `seqNo, `countPool, `storageLastHash, `deferredBlock
      ensures Valid() && Abs() == if passes then Flush(old(Abs())) else old(Abs())
      ensures passes ==> deferredBlock.None?
      ensures !passes ==> deferredBlock == old(deferredBlock) && pools == old(pools)
      ensures blocks != [] ==> Abs() == Step(oracle, old(Abs()), FlushDeferred(passes))
    {
      if passes {
        SaveDeferred();
      }
    }

    /** recordBlock: flush the deferred block, defer `b` in its place, then check it; and the caller's clean-up
        (in storeBlock) when the check fails. */
    method RecordBlock(b: Block) returns (ok: bool)
      requires Valid() && blocks != []
      modifies this
      ensures Valid() && (Abs(), ok) == Record(oracle, old(Abs()), b)
    {
      hide Stores, Linked;
      if lastSequence + 1 != b.number {
        return false;
      }
      var last := GetLastHash();
      var pool := b.(prev := last);
      if !Consistent(oracle, pool) {
        return false;
      }
      if deferredBlock.Some? && !Consistent(oracle, deferredBlock.value) {
        return false;
      }
      var lastConfidants := LoadConfidants(b.number);
      SaveDeferred();
      deferredBlock := Some(pool);
      lastSequence := pool.number;
      if oracle.verifies(pool, lastConfidants) {
        blocksToBeRemoved := 1;
        LinkedAppend(blocks, pool);
        StoresElsewhere(pools, seqNo, storageLastHash, blocks, blocks + [pool], countPool);
        blocks := blocks + [pool];
        return true;
      }
      if blocksToBeRemoved == 0 {
        blocksToBeRemoved := 1;
      }
      lastSequence := lastSequence - 1;
      deferredBlock := None;
      return false;
    }

    method StoreBlock(b: Block, bySync: bool) returns (ok: bool)
      requires Valid() && blocks != []
      modifies this
      ensures Valid() && (Abs(), ok) == Store(oracle, old(Abs()), b, bySync)
    {
      if b.number <= lastSequence {
        return true;
      }
      if (b.body.numberConfirmations == 0 || b.body.roundConfirmations == 0) && b.number > 1 {
        return false;
      }
      if b.number == lastSequence + 1 {
        var last := GetLastHash();
        if b.prev != last {
          if b.prev.NoHash? {
            return false;
          }
          RemoveLastBlock();
          return false;
        }
        ok := RecordBlock(b.(body := b.body.(content := oracle.complete(last, b.body, bySync))));
        return;
      }
      if b.number in cachedBlocks {
        return true;
      }
      cachedBlocks := cachedBlocks[b.number := Cached(b, bySync)];
      return true;
    }

    /** The smallest key of the cache (`cachedBlocks_.begin()`). */
    method FirstCached() returns (k: nat)
      requires cachedBlocks != map[]
      ensures k in cachedBlocks && forall x :: x in cachedBlocks ==> k <= x
    {
      ghost var least := Minimum(cachedBlocks.Keys);
      k :| k in cachedBlocks.Keys && forall x :: x in cachedBlocks.Keys ==> k <= x;
    }

    method TestCachedBlocks()
      requires Valid() && blocks != []
      modifies this
      ensures Valid() && Abs() == Drain(oracle, old(Abs()))
    {
      hide DrainFrom, Stores;
      if cachedBlocks == map[] {
        return;
      }
      var lastSeq := lastSequence + 1;
      cachedBlocks := map k | k in cachedBlocks && k >= lastSeq :: cachedBlocks[k];
      ghost var s := Abs();
      assert s == Outdated(old(Abs()));
      while cachedBlocks != map[]
        invariant Valid() && blocks != [] && lastSeq == lastSequence + 1
        invariant forall k :: k in cachedBlocks.Keys ==> k >= lastSeq
        invariant DrainFrom(oracle, Abs()) == DrainFrom(oracle, s)
        decreases cachedBlocks.Keys
      {
        var first := FirstCached();
        if first != lastSeq {
          break;
        }
        var ok := StoreCached(first);
        if !ok {
          return;
        }
        lastSeq := lastSeq + 1;
      }
      DrainDone(oracle, Abs());
    }

    lemma ValidIsWellFormed()
      requires Valid() && blocks != []
      ensures WellFormed(Abs())
    {
    }

    /** Store the first cached block and take it out of the cache. */
    method StoreCached(first: nat) returns (ok: bool)
      requires Valid() && blocks != [] && first == lastSequence + 1 && first in cachedBlocks
      modifies this
      ensures Valid() && cachedBlocks.Keys == old(cachedBlocks.Keys) - {first}
      ensures ok ==> blocks != [] && lastSequence == first && DrainFrom(oracle, Abs()) == DrainFrom(oracle, old(Abs()))
      ensures !ok ==> Abs() == DrainFrom(oracle, old(Abs()))
    {
      hide Store, DrainFrom, Stores, Linked, WellFormed;
      var data := cachedBlocks[first];
      ghost var s := Abs();
      ValidIsWellFormed();
      DrainStep(oracle, s);
      StoredIsOnTop(oracle, s, data.block, data.bySync);
      ok := StoreBlock(data.block, data.bySync);
      cachedBlocks := cachedBlocks - {first};
      assert (Abs(), ok) == StoreFromCache(oracle, s, first);
    }

    /** PoolSynchronizer::getBlockReply. Stops if the genesis block is lost. */
    method GetBlockReply(poolsBlock: seq<Block>)
      requires Valid() && blocks != []
      modifies this
      ensures Valid() && Abs() == Deliver(oracle, old(Abs()), old(lastSequence), poolsBlock)
    {
      hide Store, Drain, Stores, Linked;
      var lastWritten: nat := lastSequence;
      ghost var s, written := Abs(), lastSequence;
      for i := 0 to |poolsBlock|
        invariant Valid() && blocks != []
        invariant Deliver(oracle, Abs(), lastWritten, poolsBlock[i..]) == Deliver(oracle, s, written, poolsBlock)
      {
        var pool := poolsBlock[i];
        ghost var s1, rest := Abs(), poolsBlock[i..];
        assert rest[0] == pool && rest[1..] == poolsBlock[i + 1..];
        if lastWritten > pool.number || pool.signatures == 0 {
          continue;
        }
        StoreKeepsWellFormed(oracle, s1, pool, true);
        var ok := StoreBlock(pool, true);
        if ok {
          StepKeeps(oracle, Abs(), ChainRuns.TestCachedBlocks);
          TestCachedBlocks();
          lastWritten := lastSequence;
        }
        if lastSequence == 0 && countPool == 0 && deferredBlock.None? {
          return;
        }
      }
    }
  }

  lemma {:induction false} Minimum(keys: set<nat>) returns (least: nat)
    requires keys != {}
    ensures least in keys && forall x :: x in keys ==> least <= x
  {
    var k :| k in keys;
    if keys == {k} {
      return k;
    }
    var m := Minimum(keys - {k});
    assert forall x :: x in keys ==> x == k || x in keys - {k};
    return if m < k then m else k;
  }
}
