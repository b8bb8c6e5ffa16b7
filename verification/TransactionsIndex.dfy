/** The per-wallet index that is kept up to date block by block, and the backward iterator that follows it. */
module TransactionsIndex {
  import opened Addresses
  import opened TransactionHistory
  import opened Bytes

  /** `(k, s)` leads to the pool before `s` that touches `k`, for every pool below `n` that touches `k`. */
  ghost predicate Chained(keyOf: Resolver, chain: seq<Pool>, db: map<(Key, nat), nat>, k: Key, n: nat) {
    && n <= |chain|
    && forall s: nat :: s < n && PoolTouches(keyOf, chain[s], k) ==>
         (k, s) in db && db[(k, s)] == PreviousPool(keyOf, chain, k, s)
  }

  lemma {:induction false} InPoolHead(keyOf: Resolver, pool: Pool, number: nat, k: Key, p: nat)
    requires p <= |pool| && Touched(keyOf, pool, k, p)
    ensures var h := InPool(keyOf, pool, number, k, p); h != [] && h[0].poolSeq == number
  {
    if p == 0 || Touches(keyOf, pool[p - 1], k) {
    } else {
      InPoolHead(keyOf, pool, number, k, p - 1);
    }
  }

  /** One of the first `p` transactions touches `k`. */
  ghost predicate Touched(keyOf: Resolver, pool: Pool, k: Key, p: nat)
    requires p <= |pool|
  {
    exists i :: 0 <= i < p && Touches(keyOf, pool[i], k)
  }

  /** The wallets the first `p` transactions touch. */
  ghost function Wallets(keyOf: Resolver, pool: Pool, p: nat): set<Key>
    requires p <= |pool|
  {
    if p == 0 then {} else Wallets(keyOf, pool, p - 1) + {keyOf(pool[p - 1].source)} + {keyOf(pool[p - 1].target)}
  }

  lemma WalletsGrow(keyOf: Resolver, pool: Pool, i: nat)
    requires i < |pool|
    ensures Wallets(keyOf, pool, i + 1) == Wallets(keyOf, pool, i) + {keyOf(pool[i].source)} + {keyOf(pool[i].target)}
  {
  }

  lemma NoWallets(keyOf: Resolver, pool: Pool)
    ensures Wallets(keyOf, pool, 0) == {}
  {
  }

  lemma {:induction false} WalletsAreTouched(keyOf: Resolver, pool: Pool, p: nat)
    requires p <= |pool|
    ensures forall k: Key :: k in Wallets(keyOf, pool, p) <==> Touched(keyOf, pool, k, p)
  {
    if p == 0 {
    } else {
      WalletsAreTouched(keyOf, pool, p - 1);
      forall k: Key ensures Touched(keyOf, pool, k, p) <==>
        Touched(keyOf, pool, k, p - 1) || Touches(keyOf, pool[p - 1], k) {
      }
    }
  }

  /** The last transaction of a wallet is in the last pool that touches it. */
  lemma LastPool(keyOf: Resolver, chain: seq<Pool>, k: Key)
    requires |chain| < WRONG
    ensures LastTransaction(keyOf, chain, k).poolSeq == PreviousPool(keyOf, chain, k, |chain|)
  {
    PastSkips(keyOf, chain, k, |chain|);
    var p := PreviousPool(keyOf, chain, k, |chain|);
    if p != WRONG {
      InPoolHead(keyOf, chain[p], p, k, |chain[p]|);
    }
  }

  class Index {
    const keyOf: Resolver
    /** What `loadBlock` can load. */
    var chain: seq<Pool>
    /** The wallets cache, as far as last transactions go. */
    var last: map<Key, TxId>
    var db: map<(Key, nat), nat>
    var lastIndexedPool: nat
    var recreate: bool
    var lapoos: map<Key, nat>

    constructor (keyOf: Resolver)
      ensures this.keyOf == keyOf && chain == [] && db == map[] && last == map[] && !recreate
    {
      this.keyOf := keyOf;
      chain, last, db, lastIndexedPool, recreate, lapoos := [], map[], map[], 0, false, map[];
    }

    ghost predicate Valid()
      reads this
    {
      |chain| < WRONG && IndexAgrees(keyOf, chain, db) && LastAgrees(keyOf, chain, last)
    }

    /** BlockChain::getPreviousPoolSeq over TransactionsIndex::getPrevTransBlock. */
    function GetPreviousPoolSeq(k: Key, s: nat): (r: nat)
      reads this
      ensures r != s || r == WRONG
    {
      if (k, s) in db && db[(k, s)] != s then db[(k, s)] else WRONG
    }

    /** Where the previous pool of each wallet comes from: its own table while re-creating, otherwise the
        wallets cache. Either knows the last pool of every wallet. */
    ghost predicate Prepared()
      reads this
    {
      forall k: Key :: Lapoo(k) == PreviousPool(keyOf, chain, k, |chain|)
    }

    function Lapoo(k: Key): (r: nat)
      reads this
    {
      if recreate then (if k in lapoos then lapoos[k] else WRONG) else LastOf(last, k).poolSeq
    }

    /** State while a new pool is indexed on top of `chain`: the wallets in `seen` have their entry. */
    ghost predicate Indexing(was: map<(Key, nat), nat>, seen: set<Key>)
      reads this
    {
      && Extended(keyOf, chain, was, db, seen)
      && (forall k: Key :: k !in seen ==> Lapoo(k) == PreviousPool(keyOf, chain, k, |chain|))
      && (recreate ==> forall k: Key :: k in seen ==> k in lapoos && lapoos[k] == |chain|)
    }

    /** Index one wallet of a new pool, once. */
    method IndexKey(k: Key, number: nat, seen: set<Key>, ghost was: map<(Key, nat), nat>) returns (seen': set<Key>)
      requires number == |chain| < WRONG && Indexing(was, seen)
      modifies `db, `lapoos
      ensures seen' == seen + {k} && Indexing(was, seen')
      ensures !recreate ==> lapoos == old(lapoos)
    {
      seen' := seen + {k};
      if k !in seen {
        var lapoo := Lapoo(k);
        if recreate {
          lapoos := lapoos[k := number];
        }
        if lapoo != number {
          db := db[(k, number) := lapoo];
        }
        ExtendedMore(keyOf, chain, was, old(db), seen, k);
      }
    }

    lemma NothingIndexed()
      requires Prepared()
      ensures Indexing(db, {})
    {
    }

    method IndexWallets(pool: Pool, number: nat) returns (seen: set<Key>)
      requires number == |chain| < WRONG && Prepared()
      modifies `db, `lapoos
      ensures seen == Wallets(keyOf, pool, |pool|) && Indexing(old(db), seen)
      ensures !recreate ==> lapoos == old(lapoos)
    {
      hide Index.Indexing, Wallets, Extended, PreviousPool;
      ghost var was := db;
      seen := {};
      NothingIndexed();
      NoWallets(keyOf, pool);
      for i := 0 to |pool|
        invariant seen == Wallets(keyOf, pool, i) && Indexing(was, seen)
        invariant !recreate ==> lapoos == old(lapoos)
      {
        seen := IndexKey(keyOf(pool[i].source), number, seen, was);
        seen := IndexKey(keyOf(pool[i].target), number, seen, was);
        WalletsGrow(keyOf, pool, i);
      }
    }

    /** updateFromNextBlock: index every wallet of the pool about to go on top. */
    method UpdateFromNextBlock(pool: Pool)
      requires |chain| < WRONG && IndexAgrees(keyOf, chain, db) && Prepared()
      modifies `db, `lapoos, `lastIndexedPool
      ensures IndexAgrees(keyOf, chain + [pool], db) && lastIndexedPool == |chain|
      ensures recreate ==> LapoosAgree(keyOf, chain + [pool], lapoos)
      ensures !recreate ==> lapoos == old(lapoos)
    {
      ghost var was := db;
      var seen := IndexWallets(pool, |chain|);
      lastIndexedPool := |chain|;
      WalletsAreTouched(keyOf, pool, |pool|);
      IndexExtends(keyOf, chain, pool, was, db, seen);
      if recreate {
        LapoosExtend(keyOf, chain, pool, lapoos, seen);
      }
    }

    /** The wallets cache notes each transaction as the last one of its source and of its target. */
    method LoadNextBlock(pool: Pool)
      requires LastAgrees(keyOf, chain, last)
      modifies `last
      ensures LastAgrees(keyOf, chain + [pool], last)
    {
      hide LastAfter, InPool, History;
      ghost var was := last;
      forall k: Key ensures LastAfter(keyOf, pool, |chain|, k, 0, was) == LastOf(was, k) {
        LastAtStart(keyOf, pool, |chain|, k, was);
      }
      for i := 0 to |pool|
        invariant forall k: Key :: LastOf(last, k) == LastAfter(keyOf, pool, |chain|, k, i, was)
      {
        ghost var before := last;
        var id := TxId(|chain|, i);
        last := last[keyOf(pool[i].source) := id][keyOf(pool[i].target) := id];
        forall k: Key ensures LastOf(last, k) == LastAfter(keyOf, pool, |chain|, k, i + 1, was) {
          LastStep(keyOf, pool, |chain|, k, i, was);
          assert LastOf(before, k) == LastAfter(keyOf, pool, |chain|, k, i, was);
        }
      }
      forall k: Key ensures LastOf(last, k) == LastTransaction(keyOf, chain + [pool], k) {
        LastJoined(keyOf, chain, pool, k, was);
      }
    }

    /** A block goes on top: the index first, then the wallets cache (finalizeBlock). */
    method AddBlock(pool: Pool)
      requires Valid() && !recreate && |chain| + 1 < WRONG
      modifies this
      ensures Valid() && !recreate && chain == old(chain) + [pool] && lastIndexedPool == |chain| - 1
    {
      forall k: Key ensures Lapoo(k) == PreviousPool(keyOf, chain, k, |chain|) {
        LastPool(keyOf, chain, k);
      }
      UpdateFromNextBlock(pool);
      LoadNextBlock(pool);
      chain := chain + [pool];
    }

    // ----- reading the chain from the database

    method OnStartReadFromDb(lastWrittenPoolSeq: nat)
      modifies `recreate
      ensures recreate == (old(recreate) || lastIndexedPool != lastWrittenPoolSeq)
    {
      if !recreate && lastIndexedPool != lastWrittenPoolSeq {
        recreate := true;
      }
    }

    /** A pool is read: drop an untrusted table at the first one, then index the pool if it has to be. */
    method OnReadFromDb(pool: Pool)
      requires |chain| < WRONG
      requires recreate ==> LapoosAgree(keyOf, chain, lapoos) && (chain != [] ==> IndexAgrees(keyOf, chain, db))
      requires !recreate ==> |chain| <= lastIndexedPool
      modifies `db, `lapoos, `lastIndexedPool
      ensures recreate ==> IndexAgrees(keyOf, chain + [pool], db) && LapoosAgree(keyOf, chain + [pool], lapoos)
      ensures recreate ==> lastIndexedPool == |chain|
      ensures !recreate ==> db == old(db) && lapoos == old(lapoos) && lastIndexedPool == old(lastIndexedPool)
    {
      if |chain| == 0 && recreate {
        db := map[];
        assert IndexAgrees(keyOf, chain, db);
      }
      if recreate || lastIndexedPool < |chain| {
        UpdateFromNextBlock(pool);
      }
    }

    method OnDbReadFinished()
      modifies `recreate, `lapoos
      ensures !recreate && (old(recreate) ==> lapoos == map[]) && (!old(recreate) ==> lapoos == old(lapoos))
    {
      if recreate {
        recreate := false;
        lapoos := map[];
      }
    }

    /** Start up on a database of pools. The table ends up right if it was already right for this chain, or was
        marked for re-creation, or had stopped at another pool. */
    method ReadFromDb(stored: seq<Pool>)
      requires chain == [] && last == map[] && lapoos == map[] && 0 < |stored| < WRONG
      requires recreate || lastIndexedPool != |stored| - 1 || IndexAgrees(keyOf, stored, db)
      modifies this
      ensures Valid() && !recreate && chain == stored && lastIndexedPool == |stored| - 1
    {
      OnStartReadFromDb(|stored| - 1);
      ghost var mode, table := recreate, db;
      for i := 0 to |stored|
        invariant chain == stored[..i] && recreate == mode && LastAgrees(keyOf, chain, last)
        invariant recreate ==>
          LapoosAgree(keyOf, chain, lapoos) && (i > 0 ==> IndexAgrees(keyOf, chain, db) && lastIndexedPool == i - 1)
        invariant !recreate ==> db == table && lapoos == map[] && lastIndexedPool == |stored| - 1
      {
        OnReadFromDb(stored[i]);
        LoadNextBlock(stored[i]);
        chain := chain + [stored[i]];
      }
      assert stored[..|stored|] == stored;
      OnDbReadFinished();
    }

    // ----- removing the top block

    /** The last transaction of a wallet below pool `number`, found by walking back from inside that pool. */
    method FindBelow(addr: Address, number: nat, pool: Pool) returns (id: TxId)
      requires number == |chain| < WRONG && PoolTouches(keyOf, pool, keyOf(addr))
      requires GetPreviousPoolSeq(keyOf(addr), number) == PreviousPool(keyOf, chain, keyOf(addr), number)
      requires Chained(keyOf, chain, db, keyOf(addr), number)
      ensures id == LastTransaction(keyOf, chain, keyOf(addr))
    {
      hide Past, InPool, PoolTouches, Chained, PreviousPool, Iterator.Standing, Iterator.Remaining;
      var it := new Iterator.FromPool(this, addr, number, pool);
      while it.IsValid()
        invariant fresh(it) && it.bc == this && it.key == keyOf(addr) && it.Valid()
        invariant (it.IsValid() && it.number == number) || it.Remaining() == Past(keyOf, chain, it.key, number)
        decreases |it.Remaining()|
      {
        it.Head();
        if it.number < number {
          return TxId(it.number, it.it);
        }
        it.Next();
      }
      it.Ended();
      id := TxId(WRONG, WRONG);
    }

    /** State while the removed pool's wallets are forgotten: those in `seen` have lost their top entry and
        have their new last transaction in `updates`. */
    ghost predicate Forgetting(was: map<(Key, nat), nat>, seen: set<Key>, updates: map<Key, TxId>)
      reads this
    {
      && Shrunk(chain, was, db, seen)
      && updates.Keys == seen
      && forall k: Key :: k in updates ==> updates[k] == LastTransaction(keyOf, chain, k)
    }

    method ForgetKey(addr: Address, number: nat, pool: Pool, updates: map<Key, TxId>, ghost was: map<(Key, nat), nat>)
      returns (updates': map<Key, TxId>)
      requires number == |chain| && |chain| + 1 < WRONG && PoolTouches(keyOf, pool, keyOf(addr))
      requires LeadsDown(keyOf, chain, pool, was) && Forgetting(was, updates.Keys, updates)
      modifies `db
      ensures updates'.Keys == updates.Keys + {keyOf(addr)} && Forgetting(was, updates'.Keys, updates')
    {
      var k := keyOf(addr);
      updates' := updates;
      if k !in updates {
        StillReaches(keyOf, chain, was, db, updates.Keys, k);
        var id := FindBelow(addr, number, pool);
        updates' := updates[k := id];
        db := db - {(k, number)};
        assert updates'.Keys == updates.Keys + {k};
      }
    }

    /** onRemoveBlock, once the top pool is gone from the chain. `pool` is the removed pool as the caller has it:
        complete when it was still deferred, without its transactions when it was read back from storage. */
    method OnRemoveBlock(pool: Pool, ghost top: Pool)
      requires 0 < |chain| && |chain| + 1 < WRONG && (pool == top || pool == [])
      requires IndexAgrees(keyOf, chain + [top], db) && LastAgrees(keyOf, chain + [top], last) &&
        lastIndexedPool == |chain|
      modifies `db, `last, `lastIndexedPool
      ensures lastIndexedPool == |chain| - 1
      ensures pool == top ==> IndexAgrees(keyOf, chain, db) && LastAgrees(keyOf, chain, last)
      ensures pool == [] ==> db == old(db) && last == old(last)
    {
      hide IndexAgrees, LastAgrees, LastTransaction, PreviousPool, LeadsDown, Shrunk, Wallets;
      ghost var was := db;
      IndexLeadsDown(keyOf, chain, top, db);
      NothingLeadsDown(keyOf, chain, db);
      var updates := ForgetWallets(pool, lastIndexedPool);
      lastIndexedPool := lastIndexedPool - 1;
      if pool == top {
        WalletsAreTouched(keyOf, pool, |pool|);
        IndexShrinks(keyOf, chain, pool, was, db, updates.Keys);
        LastShrinks(keyOf, chain, pool, last, updates);
      }
      NoWallets(keyOf, []);
      last := map k | k in last :: if k in updates then updates[k] else last[k];
    }

    lemma NothingForgotten()
      ensures Forgetting(db, {}, map[])
    {
    }

    method ForgetWallets(pool: Pool, number: nat) returns (updates: map<Key, TxId>)
      requires number == |chain| && |chain| + 1 < WRONG && LeadsDown(keyOf, chain, pool, db)
      modifies `db
      ensures updates.Keys == Wallets(keyOf, pool, |pool|) && Forgetting(old(db), updates.Keys, updates)
      ensures pool == [] ==> db == old(db)
    {
      hide Index.Forgetting, Wallets, LeadsDown;
      ghost var was := db;
      updates := map[];
      NothingForgotten();
      NoWallets(keyOf, pool);
      for i := 0 to |pool|
        invariant updates.Keys == Wallets(keyOf, pool, i) && Forgetting(was, updates.Keys, updates)
        invariant pool == [] ==> db == was
      {
        updates := ForgetTransaction(pool, i, number, updates, was);
      }
    }

    method ForgetTransaction(pool: Pool, i: nat, number: nat, updates: map<Key, TxId>, ghost was: map<(Key, nat), nat>)
      returns (updates': map<Key, TxId>)
      requires i < |pool| && number == |chain| && |chain| + 1 < WRONG && LeadsDown(keyOf, chain, pool, was)
      requires updates.Keys == Wallets(keyOf, pool, i) && Forgetting(was, updates.Keys, updates)
      modifies `db
      ensures updates'.Keys == Wallets(keyOf, pool, i + 1) && Forgetting(was, updates'.Keys, updates')
    {
      assert Touches(keyOf, pool[i], keyOf(pool[i].source)) && Touches(keyOf, pool[i], keyOf(pool[i].target));
      updates' := ForgetKey(pool[i].source, number, pool, updates, was);
      updates' := ForgetKey(pool[i].target, number, pool, updates', was);
    }
  }

  // ----- undoing and paging

  /** Adding a block and removing it while it is still deferred restores the table, the last indexed pool and
      every wallet's last transaction. */
  method AddThenRemove(bc: Index, pool: Pool)
    requires bc.Valid() && !bc.recreate && 0 < |bc.chain| && |bc.chain| + 1 < WRONG &&
      bc.lastIndexedPool == |bc.chain| - 1
    modifies bc
    ensures bc.Valid() && bc.chain == old(bc.chain)
    ensures bc.db == old(bc.db) && bc.lastIndexedPool == old(bc.lastIndexedPool)
    ensures forall k: Key :: LastOf(bc.last, k) == old(LastOf(bc.last, k))
  {
    bc.AddBlock(pool);
    bc.chain := bc.chain[..|bc.chain| - 1];
    assert bc.chain == old(bc.chain);
    bc.OnRemoveBlock(pool, pool);
    IndexIsDetermined(bc.keyOf, bc.chain, bc.db, old(bc.db));
    forall k: Key ensures LastOf(bc.last, k) == old(LastOf(bc.last, k)) {
      assert LastOf(bc.last, k) == LastTransaction(bc.keyOf, bc.chain, k);
    }
  }

  /** Adding a block and removing it after it was stored, when it comes back without its transactions: the table is
      right again if and only if the block had none. */
  method AddThenRemoveStored(bc: Index, pool: Pool)
    requires bc.Valid() && !bc.recreate && 0 < |bc.chain| && |bc.chain| + 1 < WRONG &&
      bc.lastIndexedPool == |bc.chain| - 1
    modifies bc
    ensures bc.chain == old(bc.chain) && bc.lastIndexedPool == old(bc.lastIndexedPool)
    ensures IndexAgrees(bc.keyOf, bc.chain, bc.db) <==> pool == []
    ensures bc.db == old(bc.db) <==> pool == []
  {
    bc.AddBlock(pool);
    bc.chain := bc.chain[..|bc.chain| - 1];
    assert bc.chain == old(bc.chain);
    bc.OnRemoveBlock([], pool);
    EmptyRemovalLeavesEntries(bc.keyOf, bc.chain, pool, bc.db);
    if pool == [] {
      IndexIsDetermined(bc.keyOf, bc.chain, bc.db, old(bc.db));
    }
  }

  /** How many transactions a limit admits. The counter is 64-bit and is decremented before it is tested, so a
      limit of zero admits 2^64. */
  function Quota(limit: nat): (r: nat) {
    if limit == 0 then TWO_64 else limit
  }

  ghost function Slice(h: seq<TxId>, offset: nat, count: nat): seq<TxId> {
    if offset >= |h| then [] else if offset + count >= |h| then h[offset..] else h[offset..offset + count]
  }

  /** BlockChain::getTransactions. */
  method GetTransactions(bc: Index, addr: Address, offset: nat, limit: nat) returns (transactions: seq<TxId>)
    requires bc.Valid() && offset < TWO_64 && limit < TWO_64
    ensures transactions == Slice(History(bc.keyOf, bc.chain, bc.keyOf(addr)), offset, Quota(limit))
    ensures var h := History(bc.keyOf, bc.chain, bc.keyOf(addr));
      && (offset >= |h| ==> transactions == [])
      && (offset < |h| && 0 < limit < |h| - offset ==> transactions == h[offset..offset + limit])
      && (offset < |h| && |h| - offset <= limit ==> transactions == h[offset..])
      && (offset < |h| && limit == 0 && |h| - offset <= TWO_64 ==> transactions == h[offset..])
  {
    var it := new Iterator(bc, addr);
    transactions := Collect(it, offset, limit);
    PageIsSlice(History(bc.keyOf, bc.chain, bc.keyOf(addr)), offset, Quota(limit));
  }

  method Collect(it: Iterator, offset: nat, limit: nat) returns (transactions: seq<TxId>)
    requires it.Valid() && limit < TWO_64
    modifies it
    ensures transactions == Page(old(it.Remaining()), offset, Quota(limit))
  {
    transactions := [];
    var skip, left := offset, limit;
    ghost var quota, page := Quota(limit), Page(it.Remaining(), offset, Quota(limit));
    while it.IsValid()
      invariant it.Valid()
      invariant 0 < quota <= TWO_64 && left == if quota == TWO_64 then 0 else quota
      invariant transactions + Page(it.Remaining(), skip, quota) == page
      decreases |it.Remaining()|
    {
      it.Head();
      PageStep(transactions, it.Remaining(), skip, quota);
      if skip > 0 {
        skip := skip - 1;
      } else {
        transactions := transactions + [TxId(it.number, it.it)];
        left := if left == 0 then TWO_64 - 1 else left - 1;
        quota := quota - 1;
        if left == 0 {
          break;
        }
      }
      it.Next();
    }
  }

  /** Skip, then take. */
  ghost function Page(h: seq<TxId>, skip: nat, quota: nat): seq<TxId> {
    if h == [] || quota == 0 then []
    else if skip > 0 then Page(h[1..], skip - 1, quota)
    else [h[0]] + Page(h[1..], 0, quota - 1)
  }

  lemma PageStep(taken: seq<TxId>, h: seq<TxId>, skip: nat, quota: nat)
    requires h != [] && quota > 0
    ensures skip > 0 ==> taken + Page(h, skip, quota) == taken + Page(h[1..], skip - 1, quota)
    ensures skip == 0 ==> taken + Page(h, 0, quota) == (taken + [h[0]]) + Page(h[1..], 0, quota - 1)
  {
  }

  lemma SliceSkips(h: seq<TxId>, skip: nat, quota: nat)
    requires h != [] && skip > 0
    ensures Slice(h, skip, quota) == Slice(h[1..], skip - 1, quota)
  {
  }

  lemma SliceTakes(h: seq<TxId>, quota: nat)
    requires h != [] && quota > 0
    ensures Slice(h, 0, quota) == [h[0]] + Slice(h[1..], 0, quota - 1)
  {
  }

  lemma {:induction false} PageIsSlice(h: seq<TxId>, skip: nat, quota: nat)
    requires quota > 0 || skip == 0
    ensures Page(h, skip, quota) == Slice(h, skip, quota)
  {
    if h == [] || quota == 0 {
    } else {
      if skip > 0 {
        PageIsSlice(h[1..], skip - 1, quota);
        SliceSkips(h, skip, quota);
      } else {
        PageIsSlice(h[1..], 0, quota - 1);
        SliceTakes(h, quota);
      }
    }
  }

  /** `db` is `was` without the entries at the top for the wallets in `seen`. */
  ghost predicate Shrunk(chain: seq<Pool>, was: map<(Key, nat), nat>, db: map<(Key, nat), nat>, seen: set<Key>) {
    && (forall k: Key, s: nat :: (k, s) in db <==> (k, s) in was && !(s == |chain| && k in seen))
    && (forall k: Key, s: nat :: (k, s) in db ==> db[(k, s)] == was[(k, s)])
  }

  /** Wallet `k` can be followed down through the table from a pool on top of `chain`. */
  ghost predicate Reaches(keyOf: Resolver, chain: seq<Pool>, db: map<(Key, nat), nat>, k: Key) {
    && (k, |chain|) in db && db[(k, |chain|)] == PreviousPool(keyOf, chain, k, |chain|)
    && Chained(keyOf, chain, db, k, |chain|)
  }

  ghost predicate LeadsDown(keyOf: Resolver, chain: seq<Pool>, pool: Pool, db: map<(Key, nat), nat>) {
    forall k: Key :: PoolTouches(keyOf, pool, k) ==> Reaches(keyOf, chain, db, k)
  }

  lemma NothingLeadsDown(keyOf: Resolver, chain: seq<Pool>, db: map<(Key, nat), nat>)
    ensures LeadsDown(keyOf, chain, [], db)
  {
  }

  lemma IndexLeadsDown(keyOf: Resolver, chain: seq<Pool>, pool: Pool, db: map<(Key, nat), nat>)
    requires IndexAgrees(keyOf, chain + [pool], db)
    ensures LeadsDown(keyOf, chain, pool, db)
  {
    var all := chain + [pool];
    forall k: Key | PoolTouches(keyOf, pool, k) ensures Reaches(keyOf, chain, db, k) {
      assert all[|chain|] == pool;
      PreviousPoolBelow(keyOf, chain, pool, k, |chain|);
      forall s: nat | s < |chain| && PoolTouches(keyOf, chain[s], k)
        ensures (k, s) in db && db[(k, s)] == PreviousPool(keyOf, chain, k, s)
      {
        assert all[s] == chain[s];
        PreviousPoolBelow(keyOf, chain, pool, k, s);
      }
    }
  }

  /** A wallet not yet forgotten can still be followed down. */
  lemma StillReaches(keyOf: Resolver, chain: seq<Pool>, was: map<(Key, nat), nat>, db: map<(Key, nat), nat>,
    seen: set<Key>, k: Key)
    requires Shrunk(chain, was, db, seen) && k !in seen && Reaches(keyOf, chain, was, k)
    ensures Reaches(keyOf, chain, db, k)
  {
    assert (k, |chain|) in db;
    forall s: nat | s < |chain| && PoolTouches(keyOf, chain[s], k)
      ensures (k, s) in db && db[(k, s)] == PreviousPool(keyOf, chain, k, s)
    {
      assert (k, s) in was;
    }
  }

  lemma IndexShrinks(keyOf: Resolver, chain: seq<Pool>, pool: Pool, was: map<(Key, nat), nat>,
    db: map<(Key, nat), nat>, seen: set<Key>)
    requires IndexAgrees(keyOf, chain + [pool], was) && Shrunk(chain, was, db, seen)
    requires forall k: Key :: k in seen <==> PoolTouches(keyOf, pool, k)
    ensures IndexAgrees(keyOf, chain, db)
  {
    var all := chain + [pool];
    forall k: Key, s: nat ensures (k, s) in db <==> s < |chain| && PoolTouches(keyOf, chain[s], k) {
      assert (k, s) in was <==> s < |all| && PoolTouches(keyOf, all[s], k);
    }
    forall k: Key, s: nat | (k, s) in db && s <= |chain| ensures db[(k, s)] == PreviousPool(keyOf, chain, k, s) {
      PreviousPoolBelow(keyOf, chain, pool, k, s);
    }
  }

  lemma LastShrinks(keyOf: Resolver, chain: seq<Pool>, pool: Pool, last: map<Key, TxId>, updates: map<Key, TxId>)
    requires |chain| < WRONG && LastAgrees(keyOf, chain + [pool], last)
    requires forall k: Key :: k in updates <==> PoolTouches(keyOf, pool, k)
    requires forall k: Key :: k in updates ==> updates[k] == LastTransaction(keyOf, chain, k)
    ensures LastAgrees(keyOf, chain, map k | k in last :: if k in updates then updates[k] else last[k])
  {
    var last' := map k | k in last :: if k in updates then updates[k] else last[k];
    forall k: Key ensures LastOf(last', k) == LastTransaction(keyOf, chain, k) {
      HistoryExtends(keyOf, chain, pool, k);
      if PoolTouches(keyOf, pool, k) {
        InPoolHead(keyOf, pool, |chain|, k, |pool|);
        assert LastOf(last, k) == History(keyOf, chain + [pool], k)[0] == InPool(keyOf, pool, |chain|, k, |pool|)[0];
      } else {
        UntouchedPool(keyOf, pool, |chain|, k, |pool|);
        assert LastOf(last, k) == LastTransaction(keyOf, chain + [pool], k);
      }
    }
  }

  /** A pool that comes back without its transactions leaves its entries behind: the table is then right for the
      shorter chain exactly when the removed pool had no transactions. */
  lemma EmptyRemovalLeavesEntries(keyOf: Resolver, chain: seq<Pool>, pool: Pool, db: map<(Key, nat), nat>)
    requires IndexAgrees(keyOf, chain + [pool], db)
    ensures IndexAgrees(keyOf, chain, db) <==> pool == []
  {
    if pool == [] {
      forall k: Key ensures !PoolTouches(keyOf, pool, k) {
      }
      assert Shrunk(chain, db, db, {}) by {
        assert (chain + [pool])[|chain|] == pool;
      }
      IndexShrinks(keyOf, chain, pool, db, db, {});
    } else {
      var k := keyOf(pool[0].source);
      assert Touches(keyOf, pool[0], k) && (chain + [pool])[|chain|] == pool;
      assert (k, |chain|) in db;
    }
  }

  /** A first block without transactions, and one transaction between two wallets on top of it: its entries stay when
      the block is removed without its transactions. */
  lemma StaleEntry(keyOf: Resolver, t: Tx)
    requires keyOf(t.source) != keyOf(t.target)
    ensures var db := map[(keyOf(t.source), 1) := WRONG, (keyOf(t.target), 1) := WRONG];
      IndexAgrees(keyOf, [[]] + [[t]], db) && !IndexAgrees(keyOf, [[]], db)
  {
    var db := map[(keyOf(t.source), 1) := WRONG, (keyOf(t.target), 1) := WRONG];
    var chain: seq<Pool> := [[]];
    assert (chain + [[t]])[0] == [] && (chain + [[t]])[1] == [t];
    forall x: Key ensures PoolTouches(keyOf, [t], x) <==> x == keyOf(t.source) || x == keyOf(t.target) {
      assert Touches(keyOf, [t][0], x) <==> x == keyOf(t.source) || x == keyOf(t.target);
    }
    forall x: Key ensures PreviousPool(keyOf, chain + [[t]], x, 1) == WRONG {
      assert !PoolTouches(keyOf, [], x);
    }
    EmptyRemovalLeavesEntries(keyOf, chain, [t], db);
  }

  /** The last transaction of `k` once the first `p` of a new pool are in. */
  ghost function LastAfter(keyOf: Resolver, pool: Pool, number: nat, k: Key, p: nat, last: map<Key, TxId>): TxId
    requires p <= |pool|
  {
    var h := InPool(keyOf, pool, number, k, p);
    if h == [] then LastOf(last, k) else h[0]
  }

  lemma LastAtStart(keyOf: Resolver, pool: Pool, number: nat, k: Key, last: map<Key, TxId>)
    ensures LastAfter(keyOf, pool, number, k, 0, last) == LastOf(last, k)
  {
  }

  lemma LastStep(keyOf: Resolver, pool: Pool, number: nat, k: Key, i: nat, last: map<Key, TxId>)
    requires i < |pool|
    ensures LastAfter(keyOf, pool, number, k, i + 1, last)
      == if Touches(keyOf, pool[i], k) then TxId(number, i) else LastAfter(keyOf, pool, number, k, i, last)
  {
  }

  lemma LastJoined(keyOf: Resolver, chain: seq<Pool>, pool: Pool, k: Key, last: map<Key, TxId>)
    requires LastAgrees(keyOf, chain, last)
    ensures LastAfter(keyOf, pool, |chain|, k, |pool|, last) == LastTransaction(keyOf, chain + [pool], k)
  {
    HistoryExtends(keyOf, chain, pool, k);
    assert LastOf(last, k) == LastTransaction(keyOf, chain, k);
  }

  lemma HistoryExtends(keyOf: Resolver, chain: seq<Pool>, pool: Pool, k: Key)
    ensures History(keyOf, chain + [pool], k) == InPool(keyOf, pool, |chain|, k, |pool|) + History(keyOf, chain, k)
  {
    PastBelow(keyOf, chain, pool, k, |chain|);
    assert (chain + [pool])[|chain|] == pool;
  }

  lemma {:induction false} PastBelow(keyOf: Resolver, chain: seq<Pool>, pool: Pool, k: Key, n: nat)
    requires n <= |chain|
    ensures Past(keyOf, chain + [pool], k, n) == Past(keyOf, chain, k, n)
  {
    if n == 0 {
    } else {
      PastBelow(keyOf, chain, pool, k, n - 1);
    }
  }

  /** Last pools by wallet, as kept while the index is re-created. */
  ghost predicate LapoosAgree(keyOf: Resolver, chain: seq<Pool>, lapoos: map<Key, nat>) {
    forall k: Key :: (if k in lapoos then lapoos[k] else WRONG) == PreviousPool(keyOf, chain, k, |chain|)
  }

  /** `db` is `was` plus an entry at the new top for every wallet in `seen`. */
  ghost predicate Extended(keyOf: Resolver, chain: seq<Pool>, was: map<(Key, nat), nat>, db: map<(Key, nat), nat>,
    seen: set<Key>) {
    && (forall k: Key, s: nat :: (k, s) in db <==> (k, s) in was || (s == |chain| && k in seen))
    && (forall k: Key, s: nat :: (k, s) in db ==>
          db[(k, s)] == if s == |chain| && k in seen then PreviousPool(keyOf, chain, k, s)
                        else if (k, s) in was then was[(k, s)] else WRONG)
  }

  lemma ExtendedMore(keyOf: Resolver, chain: seq<Pool>, was: map<(Key, nat), nat>, db: map<(Key, nat), nat>,
    seen: set<Key>, k: Key)
    requires Extended(keyOf, chain, was, db, seen)
    ensures Extended(keyOf, chain, was, db[(k, |chain|) := PreviousPool(keyOf, chain, k, |chain|)], seen + {k})
  {
    var db' := db[(k, |chain|) := PreviousPool(keyOf, chain, k, |chain|)];
    forall x: Key, s: nat ensures (x, s) in db' <==> (x, s) in db || (x == k && s == |chain|) {
    }
  }

  lemma {:induction false} PreviousPoolBelow(keyOf: Resolver, chain: seq<Pool>, pool: Pool, k: Key, s: nat)
    requires s <= |chain|
    ensures PreviousPool(keyOf, chain + [pool], k, s) == PreviousPool(keyOf, chain, k, s)
  {
    if s == 0 {
    } else {
      PreviousPoolBelow(keyOf, chain, pool, k, s - 1);
    }
  }

  lemma IndexExtends(keyOf: Resolver, chain: seq<Pool>, pool: Pool, was: map<(Key, nat), nat>,
    db: map<(Key, nat), nat>, seen: set<Key>)
    requires IndexAgrees(keyOf, chain, was) && Extended(keyOf, chain, was, db, seen)
    requires forall k: Key :: k in seen <==> PoolTouches(keyOf, pool, k)
    ensures IndexAgrees(keyOf, chain + [pool], db)
  {
    var all := chain + [pool];
    forall k: Key, s: nat ensures (k, s) in db <==> s < |all| && PoolTouches(keyOf, all[s], k) {
      assert (k, s) in was <==> s < |chain| && PoolTouches(keyOf, chain[s], k);
    }
    forall k: Key, s: nat | (k, s) in db && s <= |all| ensures db[(k, s)] == PreviousPool(keyOf, all, k, s) {
      assert s < |all|;
      PreviousPoolBelow(keyOf, chain, pool, k, s);
    }
  }

  lemma LapoosExtend(keyOf: Resolver, chain: seq<Pool>, pool: Pool, lapoos: map<Key, nat>, seen: set<Key>)
    requires forall k: Key :: k in seen <==> PoolTouches(keyOf, pool, k)
    requires forall k: Key :: (if k in lapoos then lapoos[k] else WRONG)
                              == if k in seen then |chain| else PreviousPool(keyOf, chain, k, |chain|)
    ensures LapoosAgree(keyOf, chain + [pool], lapoos)
  {
    forall k: Key ensures (if k in lapoos then lapoos[k] else WRONG) ==
      PreviousPool(keyOf, chain + [pool], k, |chain| + 1) {
      PreviousPoolBelow(keyOf, chain, pool, k, |chain|);
      assert (chain + [pool])[|chain|] == pool;
    }
  }

  /** Walks a wallet's transactions from newest to oldest. `number == WRONG` when it has run out. */
  class Iterator {
    const bc: Index
    const key: Key
    var number: nat
    var pool: Pool
    var it: int

    predicate IsValid()
      reads this
    {
      number != WRONG
    }

    /** Standing on a transaction of the wallet, with the index intact below. */
    ghost predicate Standing()
      reads this, bc
    {
      && number <= |bc.chain| < WRONG
      && 0 <= it < |pool| && Touches(bc.keyOf, pool[it], key)
      && bc.GetPreviousPoolSeq(key, number) == PreviousPool(bc.keyOf, bc.chain, key, number)
      && Chained(bc.keyOf, bc.chain, bc.db, key, number)
    }

    ghost predicate Valid()
      reads this, bc
    {
      IsValid() ==> Standing()
    }

    /** What is still to come, the current transaction included. */
    ghost function Remaining(): seq<TxId>
      requires Valid()
      reads this, bc
    {
      if IsValid() then InPool(bc.keyOf, pool, number, key, it + 1) + Past(bc.keyOf, bc.chain, key, number) else []
    }

    /** Start from the wallet's last transaction. */
    constructor (bc: Index, addr: Address)
      requires bc.Valid()
      ensures this.bc == bc && this.key == bc.keyOf(addr) && Valid()
      ensures Remaining() == History(bc.keyOf, bc.chain, bc.keyOf(addr))
    {
      var k := bc.keyOf(addr);
      this.bc, this.key := bc, k;
      var id := LastOf(bc.last, k);
      number, it, pool := WRONG, -1, [];
      new;
      LastPool(bc.keyOf, bc.chain, k);
      PastSkips(bc.keyOf, bc.chain, k, |bc.chain|);
      if id.poolSeq != WRONG {
        number := id.poolSeq;
        pool := bc.chain[number];
        it := id.index;
        LastIsHead(bc.keyOf, bc.chain, k);
      }
    }

    /** Start inside a given pool `s`, which need not be in the chain any more. */
    constructor FromPool(bc: Index, addr: Address, s: nat, p: Pool)
      requires s <= |bc.chain| < WRONG
      requires bc.GetPreviousPoolSeq(bc.keyOf(addr), s) == PreviousPool(bc.keyOf, bc.chain, bc.keyOf(addr), s)
      requires Chained(bc.keyOf, bc.chain, bc.db, bc.keyOf(addr), s)
      ensures this.bc == bc && this.key == bc.keyOf(addr) && Valid()
      ensures PoolTouches(bc.keyOf, p, key) ==> IsValid() && number == s
      ensures PoolTouches(bc.keyOf, p, key) ==>
        Remaining() == InPool(bc.keyOf, p, s, key, |p|) + Past(bc.keyOf, bc.chain, key, s)
      ensures !PoolTouches(bc.keyOf, p, key) ==> Remaining() == []
    {
      this.bc, this.key := bc, bc.keyOf(addr);
      number, pool, it := s, p, |p| - 1;
      new;
      Retreat();
      if it < 0 {
        number := WRONG;
      }
    }

    /** Move back inside the current pool to a transaction of the wallet, or to -1. */
    method Retreat()
      requires -1 <= it < |pool|
      modifies `it
      ensures -1 <= it <= old(it) && (it >= 0 ==> Touches(bc.keyOf, pool[it], key))
      ensures InPool(bc.keyOf, pool, number, key, it + 1) == InPool(bc.keyOf, pool, number, key, old(it) + 1)
      ensures forall j :: it < j <= old(it) ==> !Touches(bc.keyOf, pool[j], key)
    {
      while it >= 0 && !Touches(bc.keyOf, pool[it], key)
        invariant -1 <= it <= old(it)
        invariant InPool(bc.keyOf, pool, number, key, it + 1) == InPool(bc.keyOf, pool, number, key, old(it) + 1)
        invariant forall j :: it < j <= old(it) ==> !Touches(bc.keyOf, pool[j], key)
      {
        it := it - 1;
      }
    }

    lemma Ended()
      requires !IsValid()
      ensures Remaining() == []
    {
    }

    lemma Head()
      requires IsValid() && Valid()
      ensures number <= |bc.chain| && Remaining() != [] && Remaining()[0] == TxId(number, it)
    {
    }

    /** Load the previous pool of the wallet through the index and stand on its last transaction there. */
    method LoadPrevious()
      requires number <= |bc.chain| < WRONG && Chained(bc.keyOf, bc.chain, bc.db, key, number)
      requires bc.GetPreviousPoolSeq(key, number) == PreviousPool(bc.keyOf, bc.chain, key, number)
      modifies this
      ensures Valid() && Remaining() == Past(bc.keyOf, bc.chain, key, old(number))
    {
      PastSkips(bc.keyOf, bc.chain, key, number);
      number := bc.GetPreviousPoolSeq(key, number);
      if number != WRONG {
        pool := bc.chain[number];
        it := |pool| - 1;
        Retreat();
      }
    }

    /** Advance by one transaction of the wallet, through the index when the pool has no more. */
    method Next()
      requires IsValid() && Valid()
      modifies this
      ensures Valid() && Remaining() == old(Remaining())[1..]
      ensures (number == old(number) && pool == old(pool)) || Remaining() == Past(bc.keyOf, bc.chain, key, old(number))
    {
      it := it - 1;
      ghost var rest := InPool(bc.keyOf, pool, number, key, it + 1) + Past(bc.keyOf, bc.chain, key, number);
      assert old(Remaining()) == [TxId(number, it + 1)] + rest;
      Retreat();
      if it < 0 {
        assert rest == Past(bc.keyOf, bc.chain, key, number);
        LoadPrevious();
      }
    }
  }

  /** Restarting at the last transaction sees the whole history. */
  lemma LastIsHead(keyOf: Resolver, chain: seq<Pool>, k: Key)
    requires |chain| < WRONG && PreviousPool(keyOf, chain, k, |chain|) != WRONG
    ensures var id := LastTransaction(keyOf, chain, k);
            && IsTxOf(keyOf, chain, k, id)
            && History(keyOf, chain, k)
               == InPool(keyOf, chain[id.poolSeq], id.poolSeq, k, id.index + 1) + Past(keyOf, chain, k, id.poolSeq)
  {
    PastSkips(keyOf, chain, k, |chain|);
    var p := PreviousPool(keyOf, chain, k, |chain|);
    InPoolHead(keyOf, chain[p], p, k, |chain[p]|);
    InPoolFromHead(keyOf, chain[p], p, k, |chain[p]|);
  }

  lemma {:induction false} InPoolFromHead(keyOf: Resolver, pool: Pool, number: nat, k: Key, p: nat)
    requires p <= |pool| && InPool(keyOf, pool, number, k, p) != []
    ensures var h := InPool(keyOf, pool, number, k, p);
            && h[0].index < p && Touches(keyOf, pool[h[0].index], k)
            && InPool(keyOf, pool, number, k, h[0].index + 1) == h
  {
    if Touches(keyOf, pool[p - 1], k) {
    } else {
      InPoolFromHead(keyOf, pool, number, k, p - 1);
    }
  }
}
