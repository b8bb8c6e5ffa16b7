/** What every run of chain operations keeps, and what delivering one chain out of order ends with. */
module ChainRuns {
  import opened ChainModel

  // ----- every run

  /** `passes` says whether the deferred block is read-only and its group signature holds. */
  datatype Op = StoreBlock(block: Block, bySync: bool)
    | TestCachedBlocks
    | RemoveLastBlock
    | FlushDeferred(passes: bool)
    | ClearCache

  function Step(o: Oracle, s: Chain, op: Op): (s': Chain)
    requires WellFormed(s)
  {
    match op
    case StoreBlock(b, bySync) => Store(o, s, b, bySync).0
    case TestCachedBlocks => Drain(o, s)
    case RemoveLastBlock => RemoveLast(s)
    case FlushDeferred(passes) => if passes then Flush(s) else s
    case ClearCache => s.(cache := map[])
  }

  /** The step makes the node drop its genesis block: something a caller can tell from the top of the chain
      and the block at hand. */
  predicate DropsGenesis(s: Chain, op: Op) {
    match op
    case StoreBlock(b, _) => RemovesGenesis(s, b)
    case TestCachedBlocks => 1 in s.cache && RemovesGenesis(s, s.cache[1].block)
    case RemoveLastBlock => |s.blocks| == 1 && s.removable > 0
    case FlushDeferred(_) => false
    case ClearCache => false
  }

  /** Run the operations, stopping if the genesis block is lost. */
  function Run(o: Oracle, s: Chain, ops: seq<Op>): (s': Chain)
    requires WellFormed(s)
    decreases |ops|
  {
    if ops == [] then s
    else if DropsGenesis(s, ops[0]) then Step(o, s, ops[0])
    else
      StepKeeps(o, s, ops[0]);
      Run(o, Step(o, s, ops[0]), ops[1..])
  }

  predicate KeepsGenesis(o: Oracle, s: Chain, ops: seq<Op>)
    requires WellFormed(s)
    decreases |ops|
  {
    if ops == [] then true
    else if DropsGenesis(s, ops[0]) then false
    else
      StepKeeps(o, s, ops[0]);
      KeepsGenesis(o, Step(o, s, ops[0]), ops[1..])
  }

  /** Every block above genesis was found consistent and correctly signed on top of its parent. */
  ghost predicate Vetted(o: Oracle, blocks: seq<Block>) {
    forall i :: 1 <= i < |blocks| ==> VettedAt(o, blocks, i)
  }

  ghost predicate VettedAt(o: Oracle, blocks: seq<Block>, i: int)
    requires 1 <= i < |blocks|
  {
    Consistent(o, blocks[i]) && o.verifies(blocks[i], if i > 1 then blocks[i - 1].body.confidants else [])
  }

  /** Above number 1 no block without confirmations or without round confirmations. */
  predicate IsConfirmed(b: Block) {
    b.number > 1 ==> b.body.numberConfirmations > 0 && b.body.roundConfirmations > 0
  }

  ghost predicate AllConfirmed(s: Chain) {
    && (forall i :: 0 <= i < |s.blocks| ==> IsConfirmed(s.blocks[i]))
    && forall k :: k in s.cache ==> IsConfirmed(s.cache[k].block)
  }

  lemma StoreKeepsConfirmed(o: Oracle, s: Chain, b: Block, bySync: bool)
    requires WellFormed(s) && AllConfirmed(s)
    ensures AllConfirmed(Store(o, s, b, bySync).0)
  {
    hide Store, Linked;
    StoreSucceedsIff(o, s, b, bySync);
    StoreCaches(o, s, b, bySync);
    var (s', ok) := Store(o, s, b, bySync);
    if b.number == |s.blocks| && ok {
      assert IsConfirmed(Completed(o, s, b, bySync));
    } else {
      assert s'.blocks <= s.blocks;
    }
  }

  /** The cache changes at the number of the block only. */
  lemma StoreCaches(o: Oracle, s: Chain, b: Block, bySync: bool)
    ensures var s' := Store(o, s, b, bySync).0;
      s'.cache == s.cache || (b.number > LastSeq(s) && s'.cache == s.cache[b.number := Cached(b, bySync)]
        && (b.number > 1 ==> b.body.numberConfirmations > 0 && b.body.roundConfirmations > 0))
  {
  }

  lemma {:induction false} DrainKeepsConfirmed(o: Oracle, s: Chain)
    requires WellFormed(s) && AllConfirmed(s)
    ensures AllConfirmed(DrainFrom(o, s))
    decreases |s.cache|
  {
    hide Store, AllConfirmed, RemovesGenesis;
    var next := LastSeq(s) + 1;
    if next !in s.cache {
    } else {
      var c := s.cache[next];
      StoreKeepsWellFormed(o, s, c.block, c.bySync);
      StoreKeepsConfirmed(o, s, c.block, c.bySync);
      var (s1, ok) := Store(o, s, c.block, c.bySync);
      var s2 := s1.(cache := s1.cache - {next});
      FewerConfirmed(s1, s2);
      if ok {
        DrainKeepsConfirmed(o, s2);
      }
    }
  }

  lemma FewerConfirmed(s: Chain, s': Chain)
    requires AllConfirmed(s) && s'.blocks == s.blocks
    requires forall k :: k in s'.cache ==> k in s.cache && s'.cache[k] == s.cache[k]
    ensures AllConfirmed(s')
  {
  }

  lemma StepKeepsConfirmed(o: Oracle, s: Chain, op: Op)
    requires WellFormed(s) && AllConfirmed(s)
    ensures AllConfirmed(Step(o, s, op))
  {
    hide Store, DrainFrom;
    match op
    case StoreBlock(b, bySync) => StoreKeepsConfirmed(o, s, b, bySync);
    case TestCachedBlocks =>
      if |s.cache| > 0 {
        FewerConfirmed(s, Outdated(s));
        DrainKeepsConfirmed(o, Outdated(s));
      }
    case RemoveLastBlock =>
    case FlushDeferred(_) =>
    case ClearCache =>
  }

  lemma StepKeeps(o: Oracle, s: Chain, op: Op)
    requires WellFormed(s)
    ensures WellFormed(Step(o, s, op)) <==> !DropsGenesis(s, op)
    ensures Vetted(o, s.blocks) ==> Vetted(o, Step(o, s, op).blocks)
    ensures AllConfirmed(s) ==> AllConfirmed(Step(o, s, op))
  {
    hide AllConfirmed;
    if AllConfirmed(s) {
      StepKeepsConfirmed(o, s, op);
    }
    match op
    case StoreBlock(b, bySync) =>
      StoreKeepsWellFormed(o, s, b, bySync);
      StoreKeepsVetted(o, s, b, bySync);
    case TestCachedBlocks =>
      if |s.cache| > 0 {
        DrainKeeps(o, Outdated(s));
        DrainKeepsVetted(o, Outdated(s));
      }
    case RemoveLastBlock =>
      RemoveKeepsWellFormed(s);
      RemoveKeepsVetted(o, s);
    case FlushDeferred(_) =>
    case ClearCache =>
  }

  lemma RemoveKeepsVetted(o: Oracle, s: Chain)
    ensures Vetted(o, s.blocks) ==> Vetted(o, RemoveLast(s).blocks)
  {
    var s' := RemoveLast(s);
    forall i | 1 <= i < |s'.blocks| && Vetted(o, s.blocks) ensures VettedAt(o, s'.blocks, i) {
      assert VettedAt(o, s.blocks, i);
    }
  }

  lemma StoreKeepsVetted(o: Oracle, s: Chain, b: Block, bySync: bool)
    requires WellFormed(s)
    ensures Vetted(o, s.blocks) ==> Vetted(o, Store(o, s, b, bySync).0.blocks)
  {
    var s' := Store(o, s, b, bySync).0;
    RemoveKeepsVetted(o, s);
    forall i | 1 <= i < |s'.blocks| && |s'.blocks| > |s.blocks| && Vetted(o, s.blocks)
      ensures VettedAt(o, s'.blocks, i) {
      if i < |s.blocks| {
        assert VettedAt(o, s.blocks, i);
      }
    }
  }

  lemma {:induction false} DrainKeeps(o: Oracle, s: Chain)
    requires WellFormed(s)
    ensures WellFormed(DrainFrom(o, s)) <==> !DropsGenesis(s, TestCachedBlocks)
    decreases |s.cache|
  {
    var next := LastSeq(s) + 1;
    if next !in s.cache {
    } else {
      var c := s.cache[next];
      StoreKeepsWellFormed(o, s, c.block, c.bySync);
      var (s1, ok) := Store(o, s, c.block, c.bySync);
      if ok {
        var s2 := s1.(cache := s1.cache - {next});
        assert |s2.blocks| > 1;
        DrainKeeps(o, s2);
      }
    }
  }

  lemma {:induction false} DrainKeepsVetted(o: Oracle, s: Chain)
    requires WellFormed(s)
    ensures Vetted(o, s.blocks) ==> Vetted(o, DrainFrom(o, s).blocks)
    decreases |s.cache|
  {
    hide Store, Vetted, RemovesGenesis;
    var next := LastSeq(s) + 1;
    if next !in s.cache {
    } else {
      var c := s.cache[next];
      StoreKeepsWellFormed(o, s, c.block, c.bySync);
      StoreKeepsVetted(o, s, c.block, c.bySync);
      var (s1, ok) := Store(o, s, c.block, c.bySync);
      if ok {
        DrainKeepsVetted(o, s1.(cache := s1.cache - {next}));
      }
    }
  }

  /** The next block was consistent but not rightly signed: it is not there, and a removal is allowed from now on. */
  lemma WrongSignatureAllowsRemoval(o: Oracle, s: Chain, b: Block)
    requires WellFormed(s) && b.number == |s.blocks| && s.saved == |s.blocks| && b.prev == LastHash(s)
    requires o.consistent(b) && !o.verifies(b, if b.number > 1 then s.blocks[b.number - 1].body.confidants else [])
    ensures Record(o, s, b) == (s.(removable := if s.removable == 0 then 1 else s.removable), false)
  {
  }

  /** Draining forgets every cached block at or below the top, and keeps no more than was there. */
  lemma DrainForgets(o: Oracle, s: Chain, k: nat)
    requires WellFormed(s)
    ensures k in Drain(o, s).cache ==> k in s.cache && k >= |s.blocks| && Drain(o, s).cache[k] == s.cache[k]
  {
    if |s.cache| > 0 {
      DrainShrinks(o, Outdated(s), k);
    }
  }

  lemma {:induction false} DrainShrinks(o: Oracle, s: Chain, k: nat)
    requires WellFormed(s)
    ensures k in DrainFrom(o, s).cache ==> k in s.cache && DrainFrom(o, s).cache[k] == s.cache[k]
    decreases |s.cache|
  {
    hide Store, RemovesGenesis;
    var next := LastSeq(s) + 1;
    if next !in s.cache {
    } else {
      var c := s.cache[next];
      StoreKeepsWellFormed(o, s, c.block, c.bySync);
      var (s1, ok) := Store(o, s, c.block, c.bySync);
      if ok {
        DrainShrinks(o, s1.(cache := s1.cache - {next}), k);
      }
    }
  }

  /** In every run, whatever is stored, ignored, cached, rejected or removed, the persisted blocks followed by
      the deferred one stay a hash-linked run of consecutive sequences from genesis, unless and only unless a
      step drops genesis itself. No block gets in without passing the checks, and none above number 1 gets into the
      chain or the cache without both kinds of confirmations. */
  lemma {:induction false} RunKeeps(o: Oracle, s: Chain, ops: seq<Op>)
    requires WellFormed(s)
    ensures WellFormed(Run(o, s, ops)) <==> KeepsGenesis(o, s, ops)
    ensures Vetted(o, s.blocks) ==> Vetted(o, Run(o, s, ops).blocks)
    ensures AllConfirmed(s) ==> AllConfirmed(Run(o, s, ops))
    decreases |ops|
  {
    if ops == [] {
    } else {
      StepKeeps(o, s, ops[0]);
      if !DropsGenesis(s, ops[0]) {
        RunKeeps(o, Step(o, s, ops[0]), ops[1..]);
      }
    }
  }

  // ----- delivering one chain in any order

  /** Every block of `t` above genesis is one the node accepts by synchronisation, on top of the ones before it. */
  ghost predicate Acceptable(o: Oracle, t: seq<Block>) {
    && Linked(t) && t != []
    && forall i :: 1 <= i < |t| ==> AcceptableAt(o, t, i)
  }

  ghost predicate AcceptableAt(o: Oracle, t: seq<Block>, i: int)
    requires 1 <= i < |t|
  {
    && IsConfirmed(t[i]) && t[i].signatures > 0
    && VettedAt(o, t, i) && o.complete(HashBlock(t[i - 1]), t[i].body, true) == t[i].body.content
  }

  /** The state holds a prefix of `t` and, in the cache, blocks of `t` at or above `from`. */
  ghost predicate Holds(s: Chain, t: seq<Block>, from: nat) {
    && 1 <= |s.blocks| <= |t| && s.blocks == t[..|s.blocks|] && s.saved <= |s.blocks| <= s.saved + 1
    && forall k :: k in s.cache ==> from <= k < |t| && s.cache[k] == Cached(t[k], true)
  }

  /** Nothing in the cache could be recorded now: the next block is missing. */
  ghost predicate Settled(s: Chain, t: seq<Block>) {
    Holds(s, t, |s.blocks| + 1)
  }

  /** The node has block `x`, in the chain or in the cache. */
  predicate Has(s: Chain, x: nat) {
    x < |s.blocks| || x in s.cache
  }

  lemma HoldsIsWellFormed(o: Oracle, s: Chain, t: seq<Block>, from: nat)
    requires Acceptable(o, t) && Holds(s, t, from)
    ensures WellFormed(s)
  {
    LinkedPrefix(t, |s.blocks|);
  }

  /** The next block of `t` is always recorded. */
  lemma StoreNext(o: Oracle, s: Chain, t: seq<Block>, from: nat)
    requires Acceptable(o, t) && Holds(s, t, from) && |s.blocks| < |t|
    ensures Store(o, s, t[|s.blocks|], true)
         == (s.(blocks := t[..|s.blocks| + 1], saved := |s.blocks|, removable := 1), true)
  {
    var n := |s.blocks|;
    assert AcceptableAt(o, t, n);
    assert t[n].prev == ParentHash(t, n) == LastHash(s);
    assert n > 1 ==> VettedAt(o, t, n - 1) by {
      assert n > 1 ==> AcceptableAt(o, t, n - 1);
    }
    assert t[..n] + [t[n]] == t[..n + 1];
  }

  /** Recording one block from the cache. */
  lemma DrainNext(o: Oracle, s: Chain, t: seq<Block>) returns (s2: Chain)
    requires Acceptable(o, t) && Holds(s, t, |s.blocks|) && WellFormed(s) && |s.blocks| in s.cache
    ensures s2.cache == s.cache - {|s.blocks|} && |s2.blocks| == |s.blocks| + 1
    ensures Holds(s2, t, |s2.blocks|) && WellFormed(s2) && DrainFrom(o, s) == DrainFrom(o, s2)
    ensures forall x: nat :: Has(s2, x) == Has(s, x)
  {
    var n := |s.blocks|;
    StoreNext(o, s, t, n);
    var s1 := Store(o, s, t[n], true).0;
    s2 := s1.(cache := s1.cache - {n});
    assert Holds(s2, t, n + 1);
    HoldsIsWellFormed(o, s2, t, n + 1);
  }

  lemma DrainNothing(o: Oracle, s: Chain, t: seq<Block>)
    requires Holds(s, t, |s.blocks|) && WellFormed(s) && |s.blocks| !in s.cache
    ensures DrainFrom(o, s) == s && Settled(s, t)
  {
  }

  lemma {:induction false} DrainSettles(o: Oracle, s: Chain, t: seq<Block>)
    requires Acceptable(o, t) && Holds(s, t, |s.blocks|) && WellFormed(s)
    ensures Settled(DrainFrom(o, s), t) && forall x: nat :: Has(DrainFrom(o, s), x) == Has(s, x)
    decreases |s.cache|
  {
    hide DrainFrom, Holds, Acceptable, WellFormed, Settled, Has;
    if |s.blocks| !in s.cache {
      DrainNothing(o, s, t);
    } else {
      var s2 := DrainNext(o, s, t);
      DrainSettles(o, s2, t);
    }
  }

  /** One delivery: store the block, then record what the cache has for it. */
  lemma DeliverOne(o: Oracle, s: Chain, t: seq<Block>, b: Block)
    requires Acceptable(o, t) && Settled(s, t) && b.number < |t| && b == t[b.number]
    ensures WellFormed(s)
    ensures var (s1, ok) := Store(o, s, b, true);
            && ok && WellFormed(s1) && !DropsGenesis(s1, TestCachedBlocks)
            && Settled(Drain(o, s1), t)
            && forall x: nat :: Has(Drain(o, s1), x) <==> Has(s, x) || x == b.number
  {
    hide Store, Drain, Holds, Acceptable, WellFormed;
    HoldsIsWellFormed(o, s, t, |s.blocks| + 1);
    StoreDelivered(o, s, t, b);
    var s1 := Store(o, s, b, true).0;
    HoldsIsWellFormed(o, s1, t, |s1.blocks|);
    DrainDelivered(o, s1, t);
  }

  /** Recorded, cached, or known already. */
  lemma StoreDelivered(o: Oracle, s: Chain, t: seq<Block>, b: Block)
    requires Acceptable(o, t) && Settled(s, t) && b.number < |t| && b == t[b.number]
    ensures var (s1, ok) := Store(o, s, b, true);
      ok && Holds(s1, t, |s1.blocks|) && forall x: nat :: Has(s1, x) <==> Has(s, x) || x == b.number
  {
    if b.number == |s.blocks| {
      StoreNext(o, s, t, |s.blocks| + 1);
    } else if b.number > |s.blocks| {
      assert AcceptableAt(o, t, b.number);
    }
  }

  lemma DrainDelivered(o: Oracle, s: Chain, t: seq<Block>)
    requires Acceptable(o, t) && Holds(s, t, |s.blocks|) && WellFormed(s)
    ensures !DropsGenesis(s, TestCachedBlocks)
    ensures Settled(Drain(o, s), t) && forall x: nat :: Has(Drain(o, s), x) == Has(s, x)
  {
    assert 1 in s.cache && |s.blocks| == 1 ==> t[1].prev == ParentHash(t, 1);
    if |s.cache| > 0 {
      assert Outdated(s) == s;
      DrainSettles(o, s, t);
    } else {
      assert s.cache == map[];
    }
  }

  /** PoolSynchronizer::getBlockReply: deliver a batch of blocks. `written` is the caller's copy of the last
      sequence, refreshed after every successful store. Stops if the genesis block is lost. */
  function Deliver(o: Oracle, s: Chain, written: nat, ds: seq<Block>): (s': Chain)
    requires WellFormed(s)
    decreases |ds|
  {
    if ds == [] then s
    else
      var b := ds[0];
      if written > b.number || b.signatures == 0 then Deliver(o, s, written, ds[1..])
      else
        var (s1, ok) := Store(o, s, b, true);
        StoreKeepsWellFormed(o, s, b, true);
        if !ok then
          if RemovesGenesis(s, b) then s1 else Deliver(o, s1, written, ds[1..])
        else
          StepKeeps(o, s1, TestCachedBlocks);
          if DropsGenesis(s1, TestCachedBlocks) then Drain(o, s1)
          else Deliver(o, Drain(o, s1), LastSeq(Drain(o, s1)), ds[1..])
  }

  ghost predicate Delivered(ds: seq<Block>, x: nat) {
    exists j :: 0 <= j < |ds| && ds[j].number == x
  }

  ghost predicate PartOf(ds: seq<Block>, t: seq<Block>) {
    forall j :: 0 <= j < |ds| ==> ds[j].number < |t| && ds[j] == t[ds[j].number]
  }

  /** Delivering blocks of one chain in any order, with duplicates, records exactly the longest run that
      extends the old top without a gap and caches exactly the delivered blocks beyond the gap. */
  lemma {:induction false} DeliverSettles(o: Oracle, s: Chain, t: seq<Block>, ds: seq<Block>)
    requires Acceptable(o, t) && Settled(s, t) && PartOf(ds, t)
    ensures WellFormed(s)
    ensures var s' := Deliver(o, s, LastSeq(s), ds);
            Settled(s', t) && forall x: nat :: Has(s', x) <==> Has(s, x) || Delivered(ds, x)
    decreases |ds|
  {
    HoldsIsWellFormed(o, s, t, |s.blocks| + 1);
    if ds == [] {
    } else {
      var b, rest := ds[0], ds[1..];
      assert PartOf(rest, t) by {
        assert forall j :: 0 <= j < |rest| ==> rest[j] == ds[j + 1];
      }
      forall x: nat ensures Delivered(ds, x) <==> x == b.number || Delivered(rest, x) {
        DeliveredSplits(ds, x);
      }
      if LastSeq(s) > b.number || b.signatures == 0 {
        assert b.number > 0 ==> AcceptableAt(o, t, b.number);
        DeliverSettles(o, s, t, rest);
      } else {
        DeliverOne(o, s, t, b);
        DeliverSettles(o, Drain(o, Store(o, s, b, true).0), t, rest);
      }
    }
  }

  lemma DeliveredSplits(ds: seq<Block>, x: nat)
    requires ds != []
    ensures Delivered(ds, x) <==> x == ds[0].number || Delivered(ds[1..], x)
  {
    if Delivered(ds[1..], x) {
      var j :| 0 <= j < |ds[1..]| && ds[1..][j].number == x;
      assert ds[j + 1].number == x;
    }
    if Delivered(ds, x) && x != ds[0].number {
      var j :| 0 <= j < |ds| && ds[j].number == x;
      assert ds[1..][j - 1].number == x;
    }
  }

  /** What the node has determines the chain and the cache. */
  lemma SettledIsDetermined(s: Chain, s': Chain, t: seq<Block>)
    requires Settled(s, t) && Settled(s', t) && forall x: nat :: Has(s, x) == Has(s', x)
    ensures s.blocks == s'.blocks && s.cache == s'.cache
  {
    assert !Has(s, |s.blocks|) && !Has(s', |s'.blocks|);
    assert |s.blocks| == |s'.blocks|;
    forall k: nat ensures k in s.cache <==> k in s'.cache {
      assert Has(s, k) == Has(s', k);
    }
  }

  /** The order and the multiplicity of deliveries do not matter. */
  lemma DeliveryOrderIsIrrelevant(o: Oracle, s: Chain, t: seq<Block>, ds: seq<Block>, ds': seq<Block>)
    requires Acceptable(o, t) && Settled(s, t) && PartOf(ds, t) && PartOf(ds', t)
    requires forall x: nat :: Delivered(ds, x) == Delivered(ds', x)
    ensures WellFormed(s)
    ensures var s1, s2 := Deliver(o, s, LastSeq(s), ds), Deliver(o, s, LastSeq(s), ds');
            s1.blocks == s2.blocks && s1.cache == s2.cache
  {
    DeliverSettles(o, s, t, ds);
    DeliverSettles(o, s, t, ds');
    SettledIsDetermined(Deliver(o, s, LastSeq(s), ds), Deliver(o, s, LastSeq(s), ds'), t);
  }

  /** Once every missing block has been delivered the node holds the whole chain and an empty cache. */
  lemma DeliveryCompletes(o: Oracle, s: Chain, t: seq<Block>, ds: seq<Block>)
    requires Acceptable(o, t) && Settled(s, t) && PartOf(ds, t)
    requires forall x: nat :: x < |t| ==> Has(s, x) || Delivered(ds, x)
    ensures WellFormed(s)
    ensures var s' := Deliver(o, s, LastSeq(s), ds); s'.blocks == t && s'.cache == map[]
  {
    DeliverSettles(o, s, t, ds);
    var s' := Deliver(o, s, LastSeq(s), ds);
    assert !Has(s', |s'.blocks|);
    assert t[..|t|] == t;
  }
}
