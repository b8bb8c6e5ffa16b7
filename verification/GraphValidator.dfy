/** Batch validation: the per-transaction pass, then the graph phase that unlinks transactions until no
    wallet is negative. Covers batches without new_state transactions. */
module GraphValidator {
  import opened Addresses
  import opened InnerIds
  import opened GraphLedger
  import opened GraphPasses

  /** Starting balances, amounts and fees are not negative and every transaction is ordinary. */
  ghost predicate Sound(e: Env, txs: seq<Tx>) {
    && (forall k: Key :: Seed(e, k).balance >= 0)
    && forall j :: 0 <= j < |txs|
         ==> txs[j].amount >= 0 && txs[j].maxFee >= 0 && txs[j].countedFee >= 0 && Ordinary(e, txs[j])
  }

  /** What the mask says of transactions that were still admitted before the batch: charged and credited. A deploy
      rejected for its address alone stays so. */
  predicate Included(r: Reason) {
    r == NoReject || r == MalformedContractAddress
  }

  ghost predicate AllOrdinary(e: Env, txs: seq<Tx>) {
    forall j :: 0 <= j < |txs| ==> Ordinary(e, txs[j])
  }

  ghost predicate Solvent(e: Env, g: Graph) {
    forall k: Key :: Balance(e, g, k) >= 0
  }

  /** The marks a batch starts with: only signatures have been checked. */
  predicate SignaturesChecked(mask: seq<Reason>) {
    forall j :: 0 <= j < |mask| ==> mask[j] == NoReject || mask[j] == WrongSignature
  }

  /** What the transactions with one mark, taken alone, do to wallet `k`: charges and credits in full. */
  ghost function Marked(e: Env, txs: seq<Tx>, mask: seq<Reason>, r: Reason, k: Key, n: nat): int
    requires n <= |txs| == |mask|
  {
    if n == 0 then 0
    else Marked(e, txs, mask, r, k, n - 1) + if mask[n - 1] == r then Entry(e, txs[n - 1], Linked, k) else 0
  }

  /** What wallet `k` would hold if exactly the admitted transactions took place. */
  ghost function AdmittedBalance(e: Env, txs: seq<Tx>, mask: seq<Reason>, k: Key): int
    requires |txs| == |mask|
  {
    Seed(e, k).balance + Marked(e, txs, mask, NoReject, k, |txs|)
  }

  /** The balances are those of the admitted transactions. */
  ghost predicate Settled(e: Env, txs: seq<Tx>, g: Graph) {
    |g.mask| == |txs| && forall k: Key :: Balance(e, g, k) == AdmittedBalance(e, txs, g.mask, k)
  }

  /** Every negative wallet is on the stack or among `pending`. */
  ghost predicate Covered(e: Env, g: Graph, stack: seq<Key>, pending: set<Key>) {
    forall k: Key :: Balance(e, g, k) < 0 ==> k in stack || k in pending
  }

  lemma DropNotNeeded(e: Env, txs: seq<Tx>, g: Graph, k: Key, sparing: bool)
    requires Balance(e, g, k) >= 0
    ensures DroppedOne(e, txs, g, g, k, sparing, true, NO_IND)
  {
  }

  lemma DropNotFound(e: Env, txs: seq<Tx>, g: Graph, g': Graph, k: Key, debt: int, sparing: bool)
    requires Inv(e, txs, g) && SameView(e, g, g') && debt == -Balance(e, g, k) > 0
    requires forall j :: NO_IND < j ==> !Eligible(e, txs, g, k, debt, sparing, j)
    ensures Inv(e, txs, g') && DroppedOne(e, txs, g, g', k, sparing, false, NO_IND)
  {
    hide Inv;
    SameViewKeeps(e, txs, g, g');
  }

  /** Unlinking what the search found; the search has only copied wallets. */
  lemma DropCompletes(e: Env, txs: seq<Tx>, g: Graph, g1: Graph, g': Graph, k: Key, ref: Ref, i: nat, sparing: bool)
    requires Inv(e, txs, g) && SameView(e, g, g1) && Balance(e, g, k) < 0 && RefTo(e, txs, g, k, ref, i)
    requires Newest(e, txs, g, k, -Balance(e, g, k), sparing, i) && Unlinks(e, txs, g1, g', k, ref, i)
    ensures Inv(e, txs, g') && DroppedOne(e, txs, g, g', k, sparing, true, i)
    ensures LinkedCount(g'.status) < LinkedCount(g.status)
  {
    assert Unlinks(e, txs, g, g', k, ref, i);
    UnlinkKeeps(e, txs, g, g', k, ref, i);
  }

  /** A wallet with nothing left on its list is not negative. */
  lemma EmptyListIsCovered(e: Env, txs: seq<Tx>, g: Graph, k: Key)
    requires Sound(e, txs) && Inv(e, txs, g)
    requires forall j :: 0 <= j < |txs| ==> !On(e, txs, g.status, k, j)
    ensures Balance(e, g, k) >= 0
  {
    LedgerWithoutDebits(e, txs, g.status, k, |txs|);
  }

  /** Unlinking can only make its target a new debtor, so pushing a negative target keeps the stack complete. */
  lemma PushKeepsCovered(e: Env, txs: seq<Tx>, g: Graph, g': Graph, k: Key, i: nat, stack: seq<Key>, stack': seq<Key>)
    requires Drops(e, txs, g, g', k, i) && Covered(e, g, stack, {k}) && stack <= stack'
    requires Balance(e, g', e.keyOf(txs[i].target)) < 0 ==> e.keyOf(txs[i].target) in stack'
    ensures Covered(e, g', stack', {k})
  {
    forall x: Key | Balance(e, g', x) < 0 ensures x in stack' || x in {k} {
      assert x == k || x == e.keyOf(txs[i].target) || Balance(e, g, x) < 0;
      assert forall y :: y in stack ==> y in stack';
    }
  }

  /** Popping the top wallet leaves it the only debtor that may be off the stack. */
  lemma PopKeeps(e: Env, g: Graph, g1: Graph, stack: seq<Key>, g2: Graph)
    requires stack != [] && SameView(e, g1, g2) && OnlyUnlinks(e, g, g1)
    ensures OnlyUnlinks(e, g, g2)
    ensures var top := |stack| - 1;
            && (Covered(e, g1, stack, {}) ==> Covered(e, g2, stack[..top], {stack[top]}))
            && (Covered(e, g1, stack, {}) && Balance(e, g2, stack[top]) >= 0 ==> Covered(e, g2, stack[..top], {}))
  {
    var top := |stack| - 1;
    assert stack == stack[..top] + [stack[top]];
  }

  lemma NothingUnlinked(e: Env, txs: seq<Tx>, g: Graph)
    requires Inv(e, txs, g)
    ensures OnlyUnlinks(e, g, g)
  {
  }

  lemma NotSolvent(e: Env, g: Graph, g': Graph, k: Key)
    requires Balance(e, g', k) < 0
    ensures Solvent(e, g) ==> !SameView(e, g, g')
  {
    if Solvent(e, g) {
      assert Balance(e, g, k) >= 0;
    }
    if SameView(e, g, g') {
      assert View(e, g', k) == View(e, g, k);
    }
  }

  lemma ProgressFacts(e: Env, txs: seq<Tx>, g: Graph, stack: seq<Key>, g': Graph, stack': seq<Key>, k: Key, done: bool)
    requires Progress(e, txs, g, stack, g', stack', k, done)
    ensures OnlyUnlinks(e, g, g') && LinkedCount(g'.status) <= LinkedCount(g.status)
    ensures stack' == stack || LinkedCount(g'.status) < LinkedCount(g.status)
    ensures Sound(e, txs) && done && Covered(e, g, stack, {k}) ==> Covered(e, g', stack', {})
  {
  }

  lemma AllCovered(e: Env, g: Graph, stack: seq<Key>, g': Graph)
    ensures Covered(e, g', [], {}) ==> Solvent(e, g')
  {
  }

  lemma OnlyUnlinksComposes(e: Env, g0: Graph, g1: Graph, g2: Graph)
    requires OnlyUnlinks(e, g0, g1) && OnlyUnlinks(e, g1, g2)
    ensures OnlyUnlinks(e, g0, g2)
  {
  }

  /** What one pass over wallet `k`, or several in a row, achieve: they only unlink, they push onto the
      stack only after unlinking, and they keep track of every debtor. */
  ghost predicate Progress(e: Env, txs: seq<Tx>, g: Graph, stack: seq<Key>, g': Graph, stack': seq<Key>, k: Key,
    done: bool) {
    && OnlyUnlinks(e, g, g')
    && LinkedCount(g'.status) <= LinkedCount(g.status)
    && (stack' == stack || LinkedCount(g'.status) < LinkedCount(g.status))
    && (Sound(e, txs) && Covered(e, g, stack, {k}) ==> Covered(e, g', stack', if done then {} else {k}))
  }

  lemma ProgressComposes(e: Env, txs: seq<Tx>, g0: Graph, s0: seq<Key>, g1: Graph, s1: seq<Key>,
                         g2: Graph, s2: seq<Key>, k: Key, done: bool)
    requires Progress(e, txs, g0, s0, g1, s1, k, false) && Progress(e, txs, g1, s1, g2, s2, k, done)
    ensures Progress(e, txs, g0, s0, g2, s2, k, done)
  {
  }

  lemma OneProgress(e: Env, txs: seq<Tx>, g: Graph, stack: seq<Key>, g': Graph, stack': seq<Key>, k: Key,
                    sparing: bool, done: bool, hit: int)
    requires MaskAgrees(e, txs, g) && DroppedOne(e, txs, g, g', k, sparing, done, hit)
    requires Balance(e, g, k) < 0 && done && !sparing ==>
               var dest := e.keyOf(txs[hit].target);
               stack' == stack + if Balance(e, g', dest) < 0 then [dest] else []
    requires Balance(e, g, k) >= 0 || !done || sparing ==> stack' == stack
    ensures Progress(e, txs, g, stack, g', stack', k, done)
  {
    if Balance(e, g, k) < 0 && done {
      LinkedCountUpdate(g.status, hit, Unlinked);
      if Sound(e, txs) && Covered(e, g, stack, {k}) {
        PushKeepsCovered(e, txs, g, g', k, hit, stack, stack');
        assert Balance(e, g', k) >= 0 || (e.keyOf(txs[hit].target) == k && !sparing);
      }
    }
  }

  lemma InvFacts(e: Env, txs: seq<Tx>, g: Graph)
    requires Inv(e, txs, g)
    ensures MaskAgrees(e, txs, g)
  {
  }

  lemma HitWhenNegative(e: Env, txs: seq<Tx>, g: Graph, g': Graph, k: Key, done: bool, hit: int)
    requires Balance(e, g, k) < 0 && DroppedOne(e, txs, g, g', k, false, done, hit)
    ensures done ==> hit >= 0
    ensures !done ==> Balance(e, g', k) == Balance(e, g, k)
  {
  }

  lemma FourthPass(e: Env, txs: seq<Tx>, g0: Graph, g3: Graph, g4: Graph, stack: seq<Key>, stack': seq<Key>, k: Key,
    done: bool)
    requires Balance(e, g0, k) < 0 && NewestBelow(e, txs, g0, k, [], true, |txs|) == NO_IND
    requires var all := Swept(e, txs, g0, k, [], true, |txs|);
      NewestBelow(e, txs, g0, k, all, false, |txs|) == NO_IND && DropsAll(e, txs, g0, g3, k, all)
    requires Balance(e, g3, k) < 0 && Drained(e, txs, g3, stack, g4, stack', k) && done == (Balance(e, g4, k) >= 0)
    ensures Escalates(e, txs, g0, stack, g4, stack', k, done)
  {
    hide Swept, NewestBelow, DropsAll, Pushed, Escalates, Balance;
    FourthPassEnds(e, txs, g0, g3, g4, stack, stack', k, done);
  }

  lemma NothingLeftIsCovered(e: Env, txs: seq<Tx>, g: Graph, g': Graph, k: Key)
    requires Sound(e, txs) && Inv(e, txs, g') && Pruned(e, txs, g, g', k, NO_IND, false)
    ensures Balance(e, g', k) >= 0
  {
    EmptyListIsCovered(e, txs, g', k);
  }

  lemma SparingProgress(e: Env, txs: seq<Tx>, g: Graph, g': Graph, k: Key, stop: int, stack: seq<Key>)
    requires Pruned(e, txs, g, g', k, stop, true)
    ensures Progress(e, txs, g, stack, g', stack, k, Balance(e, g', k) >= 0)
  {
  }

  // ----- scanning a list while unlinking from it

  /** What is left above `i` on `k`'s list cannot be dropped without hurting a target. */
  ghost predicate LeftHurts(e: Env, txs: seq<Tx>, g: Graph, k: Key, i: int) {
    forall j :: i < j && On(e, txs, g.status, k, j) ==> !Harmless(e, txs, g, j)
  }

  ghost predicate NothingLeft(e: Env, txs: seq<Tx>, g: Graph, k: Key, i: int) {
    forall j :: i < j ==> !On(e, txs, g.status, k, j)
  }

  ghost predicate NoNewDebtor(e: Env, g: Graph, g': Graph, k: Key) {
    forall x: Key :: x != k && Balance(e, g', x) < 0 ==> Balance(e, g, x) < 0
  }

  /** A pass over `k`'s list that has looked at every index above `i`. */
  ghost predicate Pruned(e: Env, txs: seq<Tx>, g: Graph, g': Graph, k: Key, i: int, sparing: bool) {
    && OnlyUnlinks(e, g, g')
    && LinkedCount(g'.status) <= LinkedCount(g.status)
    && (Sound(e, txs) && sparing ==> NoNewDebtor(e, g, g', k))
    && (Sound(e, txs) && sparing && Balance(e, g', k) < 0 ==> LeftHurts(e, txs, g', k, i))
    && (!sparing ==> NothingLeft(e, txs, g', k, i))
  }

  /** The loop state of such a pass: `ref` holds `i`, the next index to look at. */
  ghost predicate Scanning(e: Env, txs: seq<Tx>, g: Graph, g': Graph, k: Key, ref: Ref, i: int, sparing: bool) {
    && Inv(e, txs, g') && NO_IND <= i < |txs| && RefTo(e, txs, g', k, ref, i)
    && (i != NO_IND ==> On(e, txs, g'.status, k, i))
    && Pruned(e, txs, g, g', k, i, sparing)
  }

  lemma ScanStart(e: Env, txs: seq<Tx>, g: Graph, k: Key, sparing: bool)
    requires Inv(e, txs, g)
    ensures Scanning(e, txs, g, g, k, HeadOf(k), View(e, g, k).last, sparing)
  {
    assert IsPrevious(e, txs, g.status, k, |txs|, View(e, g, k).last);
  }

  /** What a scan knows of the index in hand. */
  lemma ScanFacts(e: Env, txs: seq<Tx>, g: Graph, g': Graph, k: Key, ref: Ref, i: int, sparing: bool)
    requires Scanning(e, txs, g, g', k, ref, i, sparing)
    ensures Inv(e, txs, g') && Pruned(e, txs, g, g', k, i, sparing) && NO_IND <= i < |txs|
    ensures |g'.list| == |g'.status| == |g'.mask| == |txs| && RefTo(e, txs, g', k, ref, i)
    ensures (ref.LinkOf? ==> ref.j < |txs|) && (ref.HeadOf? ==> ref.k == k)
    ensures i != NO_IND ==> On(e, txs, g'.status, k, i)
  {
  }

  lemma HarmlessSeen(e: Env, txs: seq<Tx>, g: Graph, g': Graph, i: nat)
    requires i < |txs| && SameView(e, g, g')
    ensures Harmless(e, txs, g, i) <==> txs[i].amount <= Balance(e, g', e.keyOf(txs[i].target))
  {
  }

  lemma UnlinkSeen(e: Env, txs: seq<Tx>, g: Graph, g1: Graph, g': Graph, k: Key, ref: Ref, i: nat)
    requires SameView(e, g, g1) && Unlinks(e, txs, g1, g', k, ref, i)
    ensures Unlinks(e, txs, g, g', k, ref, i) && g.list == g1.list
  {
    forall x: Key ensures View(e, g', x) == UnlinkedWallet(e, txs, g, k, ref, i, x) {
      assert View(e, g1, x) == View(e, g, x);
    }
  }

  lemma NothingPruned(e: Env, txs: seq<Tx>, g: Graph, k: Key, sparing: bool)
    requires Inv(e, txs, g) && Balance(e, g, k) >= 0
    ensures Pruned(e, txs, g, g, k, |txs|, sparing)
  {
  }

  lemma SweepFrom(e: Env, txs: seq<Tx>, g: Graph, k: Key, sparing: bool)
    requires Inv(e, txs, g)
    ensures Sweeping(e, txs, g, g, k, [], sparing, View(e, g, k).last + 1)
  {
    hide Sweeping, Swept;
    assert IsPrevious(e, txs, g.status, k, |txs|, View(e, g, k).last);
    SweepStart(e, txs, g, k, sparing, View(e, g, k).last);
  }

  lemma SweepPast(e: Env, txs: seq<Tx>, g: Graph, g1: Graph, g2: Graph, k: Key, d: seq<int>, i: nat)
    requires Inv(e, txs, g1) && On(e, txs, g1.status, k, i) && SameView(e, g1, g2)
    requires Sweeping(e, txs, g, g1, k, d, true, i + 1) && Balance(e, g1, k) < 0 && !Harmless(e, txs, g1, i)
    ensures |g1.list| == |txs| && Sweeping(e, txs, g, g2, k, d, true, g1.list[i] + 1)
  {
    hide Sweeping, Swept, Harmless;
    SweepSkips(e, txs, g, g1, g2, k, d, i);
    assert IsPrevious(e, txs, g1.status, k, i, g1.list[i]);
    SweepOn(e, txs, g, g2, k, d, true, i, g1.list[i]);
  }

  lemma SweepDown(e: Env, txs: seq<Tx>, g: Graph, g1: Graph, g2: Graph, k: Key, ref: Ref, d: seq<int>, sparing: bool,
    i: nat)
    requires Inv(e, txs, g1) && On(e, txs, g1.status, k, i) && Unlinks(e, txs, g1, g2, k, ref, i)
    requires Sweeping(e, txs, g, g1, k, d, sparing, i + 1) && Balance(e, g1, k) < 0
    requires sparing ==> Harmless(e, txs, g1, i)
    ensures |g1.list| == |txs| && Sweeping(e, txs, g, g2, k, d + [i], sparing, g1.list[i] + 1)
  {
    hide Sweeping, Swept, Harmless;
    UnlinkIsDrop(e, txs, g1, g2, k, ref, i);
    SweepDrops(e, txs, g, g1, g2, k, d, sparing, i);
    var next := g1.list[i];
    assert IsPrevious(e, txs, g1.status, k, i, next);
    PreviousAfterUnlink(e, txs, g1.status, k, i, next, k, i, next);
    SweepOn(e, txs, g, g2, k, d + [i], sparing, i, next);
  }

  lemma UnlinkIsDrop(e: Env, txs: seq<Tx>, g: Graph, g': Graph, k: Key, ref: Ref, i: nat)
    requires Unlinks(e, txs, g, g', k, ref, i)
    ensures Drops(e, txs, g, g', k, i)
  {
  }

  /** Skip an index that would hurt its target. */
  lemma ScanSkip(e: Env, txs: seq<Tx>, g: Graph, g1: Graph, g2: Graph, k: Key, ref: Ref, i: nat)
    requires Scanning(e, txs, g, g1, k, ref, i, true) && SameView(e, g1, g2) && !Harmless(e, txs, g1, i)
    ensures Scanning(e, txs, g, g2, k, LinkOf(i), g1.list[i], true) && g1.list[i] < i
  {
    SameViewKeeps(e, txs, g1, g2);
    assert IsPrevious(e, txs, g1.status, k, i, g1.list[i]);
    if Sound(e, txs) && Balance(e, g2, k) < 0 {
      SkipHurts(e, txs, g1, g2, k, i);
    }
  }

  lemma SkipHurts(e: Env, txs: seq<Tx>, g1: Graph, g2: Graph, k: Key, i: nat)
    requires LeftHurts(e, txs, g1, k, i) && SameView(e, g1, g2) && !Harmless(e, txs, g1, i)
    requires i < |g1.list| && IsPrevious(e, txs, g1.status, k, i, g1.list[i])
    ensures LeftHurts(e, txs, g2, k, g1.list[i])
  {
    forall j | g1.list[i] < j && On(e, txs, g2.status, k, j) ensures !Harmless(e, txs, g2, j) {
      assert On(e, txs, g1.status, k, j);
      assert View(e, g2, e.keyOf(txs[j].target)) == View(e, g1, e.keyOf(txs[j].target));
    }
  }

  /** Unlink the index under `ref`. */
  lemma ScanDrop(e: Env, txs: seq<Tx>, g: Graph, g1: Graph, g2: Graph, k: Key, ref: Ref, i: nat, sparing: bool)
    requires Scanning(e, txs, g, g1, k, ref, i, sparing) && Unlinks(e, txs, g1, g2, k, ref, i)
    requires Balance(e, g1, k) < 0 && (sparing ==> Harmless(e, txs, g1, i))
    ensures Scanning(e, txs, g, g2, k, ref, g1.list[i], sparing) && g1.list[i] < i
    ensures LinkedCount(g2.status) < LinkedCount(g.status)
  {
    UnlinkKeeps(e, txs, g1, g2, k, ref, i);
    assert IsPrevious(e, txs, g1.status, k, i, g1.list[i]);
    PruneDrop(e, txs, g, g1, g2, k, ref, i, sparing);
  }

  lemma PruneDrop(e: Env, txs: seq<Tx>, g: Graph, g1: Graph, g2: Graph, k: Key, ref: Ref, i: nat, sparing: bool)
    requires Pruned(e, txs, g, g1, k, i, sparing) && Unlinks(e, txs, g1, g2, k, ref, i)
    requires On(e, txs, g1.status, k, i) && IsPrevious(e, txs, g1.status, k, i, g1.list[i])
    requires Balance(e, g1, k) < 0 && (sparing ==> Harmless(e, txs, g1, i))
    requires LinkedCount(g2.status) < LinkedCount(g1.status)
    ensures Pruned(e, txs, g, g2, k, g1.list[i], sparing)
  {
    if Sound(e, txs) && sparing {
      DropHurts(e, txs, g1, g2, k, ref, i);
      DebtorsCompose(e, g, g1, g2, k);
    }
    if !sparing {
      forall j | g1.list[i] < j ensures !On(e, txs, g2.status, k, j) {
        assert !On(e, txs, g1.status, k, j) || j == i;
      }
    }
  }

  lemma DebtorsCompose(e: Env, g: Graph, g1: Graph, g2: Graph, k: Key)
    requires NoNewDebtor(e, g, g1, k) && NoNewDebtor(e, g1, g2, k)
    ensures NoNewDebtor(e, g, g2, k)
  {
  }

  lemma DropHurts(e: Env, txs: seq<Tx>, g1: Graph, g2: Graph, k: Key, ref: Ref, i: nat)
    requires Unlinks(e, txs, g1, g2, k, ref, i) && Harmless(e, txs, g1, i) && Balance(e, g1, k) < 0
    requires forall j :: 0 <= j < |txs| ==> txs[j].amount >= 0
    requires LeftHurts(e, txs, g1, k, i) && IsPrevious(e, txs, g1.status, k, i, g1.list[i])
    ensures NoNewDebtor(e, g1, g2, k)
    ensures Balance(e, g2, k) < 0 ==> LeftHurts(e, txs, g2, k, g1.list[i])
  {
    if Balance(e, g2, k) < 0 {
      forall j | g1.list[i] < j && On(e, txs, g2.status, k, j) ensures !Harmless(e, txs, g2, j) {
        assert On(e, txs, g1.status, k, j) && j != i;
        assert View(e, g2, e.keyOf(txs[j].target)) == UnlinkedWallet(e, txs, g1, k, ref, i, e.keyOf(txs[j].target));
      }
    }
  }

  lemma SearchNext(e: Env, txs: seq<Tx>, g: Graph, k: Key, debt: int, sparing: bool, i: nat)
    requires Threaded(e, txs, g) && On(e, txs, g.status, k, i) && !Eligible(e, txs, g, k, debt, sparing, i)
    requires forall j :: i < j ==> !Eligible(e, txs, g, k, debt, sparing, j)
    ensures IsPrevious(e, txs, g.status, k, i, g.list[i])
    ensures forall j :: g.list[i] < j ==> !Eligible(e, txs, g, k, debt, sparing, j)
  {
    assert IsPrevious(e, txs, g.status, k, i, g.list[i]);
  }

  // ----- the fourth pass

  /** Its loop state: nothing is spared, and every new debtor is on the stack. */
  ghost predicate Draining(e: Env, txs: seq<Tx>, g: Graph, stack: seq<Key>, g': Graph, stack': seq<Key>,
                           k: Key, ref: Ref, i: int, d: seq<int>) {
    && Scanning(e, txs, g, g', k, ref, i, false)
    && Sweeping(e, txs, g, g', k, d, false, i + 1) && stack' == stack + Pushed(e, txs, g, k, d, 0)
    && (Covered(e, g, stack, {k}) ==> Covered(e, g', stack', {k}))
    && (stack' == stack || LinkedCount(g'.status) < LinkedCount(g.status))
  }

  lemma NoProgress(e: Env, txs: seq<Tx>, g: Graph, stack: seq<Key>, k: Key)
    requires Inv(e, txs, g) && Balance(e, g, k) >= 0
    ensures Progress(e, txs, g, stack, g, stack, k, true)
  {
  }

  lemma DrainStart(e: Env, txs: seq<Tx>, g: Graph, stack: seq<Key>, k: Key)
    requires Inv(e, txs, g)
    ensures Draining(e, txs, g, stack, g, stack, k, HeadOf(k), View(e, g, k).last, [])
  {
    hide Scanning, Sweeping;
    ScanStart(e, txs, g, k, false);
    SweepFrom(e, txs, g, k, false);
  }

  /** What the link in hand points to. */
  lemma DrainRef(e: Env, txs: seq<Tx>, g: Graph, stack: seq<Key>, g': Graph, stack': seq<Key>, k: Key, ref: Ref, i: int,
    d: seq<int>)
    requires Draining(e, txs, g, stack, g', stack', k, ref, i, d)
    ensures |g'.list| == |g'.status| == |g'.mask| == |txs| && NO_IND <= i < |txs|
    ensures RefTo(e, txs, g', k, ref, i) && (ref.LinkOf? ==> ref.j < |txs|)
  {
  }

  lemma DrainDrop(e: Env, txs: seq<Tx>, g: Graph, stack: seq<Key>, g1: Graph, stack1: seq<Key>,
                  g2: Graph, stack2: seq<Key>, k: Key, ref: Ref, i: nat, d: seq<int>)
    requires Draining(e, txs, g, stack, g1, stack1, k, ref, i, d) && Balance(e, g1, k) < 0
    requires Unlinks(e, txs, g1, g2, k, ref, i)
    requires var dest := e.keyOf(txs[i].target); stack2 == stack1 + if Balance(e, g2, dest) < 0 then [dest] else []
    ensures Draining(e, txs, g, stack, g2, stack2, k, ref, g1.list[i], d + [i]) && g1.list[i] < i
  {
    hide Scanning, Sweeping, Pushed, Drops, Unlinks, Covered, Inv, LinkedCount, On, RefTo, Pruned, View;
    ScanFacts(e, txs, g, g1, k, ref, i, false);
    UnlinkIsDrop(e, txs, g1, g2, k, ref, i);
    SweepDown(e, txs, g, g1, g2, k, ref, d, false, i);
    StackGrows(e, txs, g, g1, g2, stack, stack1, stack2, k, d, i);
    ScanDrop(e, txs, g, g1, g2, k, ref, i, false);
    if Covered(e, g1, stack1, {k}) {
      PushKeepsCovered(e, txs, g1, g2, k, i, stack1, stack2);
    }
  }

  lemma DrainEnd(e: Env, txs: seq<Tx>, g: Graph, stack: seq<Key>, g': Graph, stack': seq<Key>, k: Key, ref: Ref, i: int,
    d: seq<int>)
    requires Draining(e, txs, g, stack, g', stack', k, ref, i, d) && (i == NO_IND || Balance(e, g', k) >= 0)
    ensures Inv(e, txs, g') && Pruned(e, txs, g, g', k, i, false)
    ensures Progress(e, txs, g, stack, g', stack', k, Balance(e, g', k) >= 0)
    ensures Drained(e, txs, g, stack, g', stack', k)
  {
    hide Sweeping, Swept, Pushed, DropsAll;
    SweepEnds(e, txs, g, g', k, d, false, i + 1);
  }

  /** Given up one after the other, with the targets that came into debt on the stack. */
  ghost predicate Drained(e: Env, txs: seq<Tx>, g: Graph, stack: seq<Key>, g': Graph, stack': seq<Key>, k: Key) {
    var d := Swept(e, txs, g, k, [], false, |txs|);
    DropsAll(e, txs, g, g', k, d) && stack' == stack + Pushed(e, txs, g, k, d, 0)
  }

  lemma NothingDrained(e: Env, txs: seq<Tx>, g: Graph, stack: seq<Key>, k: Key)
    requires Inv(e, txs, g) && Balance(e, g, k) >= 0
    ensures Drained(e, txs, g, stack, g, stack, k)
  {
    SweptUnfolds(e, txs, g, k, [], false, |txs|);
    DropsNothing(e, txs, g, g, k);
  }

  lemma StackGrows(e: Env, txs: seq<Tx>, g: Graph, g1: Graph, g2: Graph, stack: seq<Key>, stack1: seq<Key>,
    stack2: seq<Key>, k: Key, d: seq<int>, i: nat)
    requires Sweeping(e, txs, g, g1, k, d, false, i + 1) && stack1 == stack + Pushed(e, txs, g, k, d, 0)
    requires Drops(e, txs, g1, g2, k, i)
    requires var dest := e.keyOf(txs[i].target); stack2 == stack1 + if Balance(e, g2, dest) < 0 then [dest] else []
    ensures Indices(txs, d + [i]) && stack2 == stack + Pushed(e, txs, g, k, d + [i], 0)
  {
    hide Swept, Pushed, After;
    DropsOneMore(e, txs, g, g1, g2, k, d, i);
    PushedMore(e, txs, g, k, d, 0, i);
  }

  /** The verdict on one transaction from the checks that do not look at balances. */
  function Precheck(e: Env, t: Tx, tail: Tail): (r: Reason) {
    if !IsAllowed(tail, t.innerId) then
      if Contains(tail, t.innerId) then DuplicatedInnerId else DisabledInnerId
    else if t.source == t.target then SourceIsTarget
    else if t.maxFee < t.countedFee then InsufficientMaxFee
    else if !t.executable && e.isContract(t.source) then MalformedTransaction
    else NoReject
  }

  lemma FreshInv(e: Env, txs: seq<Tx>, g: Graph)
    requires g.wallets == map[] && |g.list| == |g.status| == |g.mask| == |txs|
    requires forall j :: 0 <= j < |txs| ==> g.status[j].Idle?
    ensures Inv(e, txs, g) && InnerIdsSpent(e, txs, g)
  {
    forall k: Key ensures Ledger(e, txs, g.status, k, |txs|) == 0 {
      IdleLedger(e, txs, g.status, k, |txs|);
    }
  }

  lemma FreshCovered(e: Env, txs: seq<Tx>, g: Graph)
    requires g.wallets == map[]
    ensures Sound(e, txs) ==> Covered(e, g, [], {})
  {
  }

  lemma SpentAfterGraph(e: Env, txs: seq<Tx>, g: Graph, g': Graph)
    requires InnerIdsSpent(e, txs, g) && OnlyUnlinks(e, g, g') && |g.status| == |txs|
    ensures InnerIdsSpent(e, txs, g')
  {
    SpentStays(e, txs, g, g');
  }

  lemma {:induction false} IdleLedger(e: Env, txs: seq<Tx>, status: seq<Status>, k: Key, n: nat)
    requires n <= |txs| == |status| && forall j :: 0 <= j < |txs| ==> status[j].Idle?
    ensures Ledger(e, txs, status, k, n) == 0
  {
    if n == 0 {
    } else {
      IdleLedger(e, txs, status, k, n - 1);
    }
  }

  /** The verdict on one transaction given its source wallet. */
  function Verdict(e: Env, t: Tx, w: Wallet): (r: Reason) {
    if Precheck(e, t, w.tail) != NoReject then Precheck(e, t, w.tail)
    else if w.balance - Charge(e, t) < 0 && e.isContract(t.source) then NegativeResult
    else NoReject
  }

  /** The final verdict: a deploy that passed has its address checked as well. */
  function Recorded(t: Tx, r: Reason): (r': Reason) {
    if r == NoReject && t.badDeploy then MalformedContractAddress else r
  }

  /** What becomes of a transaction with a verdict. */
  function Outcome(r: Reason): (s: Status) {
    if r == NoReject then Linked else if r == NegativeResult then Stranded else Idle
  }

  /** The source goes on the stack when it is accepted with more than it holds. */
  ghost function Indebted(e: Env, t: Tx, g: Graph, r: Reason): (ks: seq<Key>) {
    if r == NoReject && Balance(e, g, e.keyOf(t.source)) < Charge(e, t) then [e.keyOf(t.source)] else []
  }

  /** What the pass makes of index `i`. */
  ghost predicate Judges(e: Env, txs: seq<Tx>, a: Scene, b: Scene, i: nat)
    requires i < |txs| == |a.graph.mask|
  {
    var r := Verdict(e, txs[i], View(e, a.graph, e.keyOf(txs[i].source)));
    var g' := b.graph.(mask := a.graph.mask);
    && b.graph.mask == a.graph.mask[i := Recorded(txs[i], r)] && b.stack == a.stack + Indebted(e, txs[i], a.graph, r)
    && (r == NoReject ==> Accepts(e, txs, a.graph, g', i))
    && (r == NegativeResult ==> Strands(e, txs, a.graph, g', i))
    && (r != NoReject && r != NegativeResult ==> SameView(e, a.graph, g'))
  }

  /** The pass over a batch: every transaction still admitted is judged in turn. */
  ghost predicate Passes(e: Env, txs: seq<Tx>, steps: seq<Scene>, n: nat)
    requires n <= |txs|
  {
    && |steps| == n + 1
    && (forall i :: 0 <= i <= n ==> |steps[i].graph.mask| == |txs| && Inv(e, txs, steps[i].graph))
    && forall i :: 0 <= i < n ==> PassesAt(e, txs, steps, i)
  }

  ghost predicate PassesAt(e: Env, txs: seq<Tx>, steps: seq<Scene>, i: nat)
    requires i < |txs| && i + 1 < |steps| && |steps[i].graph.mask| == |txs|
  {
    if steps[i].graph.mask[i] == NoReject then Judges(e, txs, steps[i], steps[i + 1], i) else steps[i + 1] == steps[i]
  }

  lemma PassesOneMore(e: Env, txs: seq<Tx>, steps: seq<Scene>, n: nat, b: Scene)
    requires n < |txs| && Passes(e, txs, steps, n) && |b.graph.mask| == |txs| && Inv(e, txs, b.graph)
    requires if steps[n].graph.mask[n] == NoReject then Judges(e, txs, steps[n], b, n) else b == steps[n]
    ensures Passes(e, txs, steps + [b], n + 1)
  {
    hide Judges, Inv;
    forall i | 0 <= i < n + 1 ensures PassesAt(e, txs, steps + [b], i) {
      if i < n {
        assert PassesAt(e, txs, steps, i);
      }
    }
  }

  lemma InvLengths(e: Env, txs: seq<Tx>, g: Graph)
    requires Inv(e, txs, g)
    ensures |g.list| == |g.status| == |g.mask| == |txs|
  {
  }

  /** Debts do not depend on the mask. */
  lemma CoveredApart(e: Env, g: Graph, mask: seq<Reason>, stack: seq<Key>)
    ensures Covered(e, g, stack, {}) ==> Covered(e, g.(mask := mask), stack, {})
  {
    assert forall k: Key :: View(e, g.(mask := mask), k) == View(e, g, k);
  }

  /** The inner ids of all wallets but one are as they were. */
  ghost predicate OtherTails(e: Env, g: Graph, g': Graph, k: Key) {
    forall x: Key :: x != k ==> View(e, g', x).tail == View(e, g, x).tail
  }

  /** Whatever the verdict on index `i`, recording it in the mask keeps everything. */
  lemma RecordKeeps(e: Env, txs: seq<Tx>, g: Graph, g': Graph, i: nat, r: Reason)
    requires Inv(e, txs, g) && InnerIdsSpent(e, txs, g) && i < |txs| && g.mask[i] == NoReject
    requires forall j :: i <= j < |txs| ==> g.status[j].Idle?
    requires r == Verdict(e, txs[i], View(e, g, e.keyOf(txs[i].source))) && g'.mask == g.mask
    requires r == NoReject ==> Accepts(e, txs, g, g', i)
    requires r != NoReject && r != NegativeResult ==> SameView(e, g, g')
    requires r == NegativeResult ==> Strands(e, txs, g, g', i)
    ensures var g'' := g'.(mask := g.mask[i := Recorded(txs[i], r)]);
            && Inv(e, txs, g'') && InnerIdsSpent(e, txs, g'') && (Included(g''.mask[i]) ==> g''.status[i].Linked?)
            && |g.status| == |g.mask| == |txs| && g''.status == g.status[i := Outcome(r)]
            && OtherTails(e, g, g'', e.keyOf(txs[i].source))
  {
    var r' := Recorded(txs[i], r);
    var g'' := g'.(mask := g.mask[i := r']);
    if r == NoReject {
      AcceptKeeps(e, txs, g, g', i);
      AcceptSpends(e, txs, g, g', i);
      SpentStays(e, txs, g', g'');
    } else if r == NegativeResult {
      StrandKeeps(e, txs, g, g'', i);
      SpentStays(e, txs, g, g'');
    } else {
      SameViewKeeps(e, txs, g, g');
      RejectKeeps(e, txs, g', i, r');
      SpentStays(e, txs, g, g'');
    }
  }

  // ----- what the mask says of the balances

  /** No deploy with a wrong address is still linked. */
  ghost predicate NoMisaddressed(txs: seq<Tx>, status: seq<Status>) {
    forall j :: 0 <= j < |txs| && j < |status| && status[j].Linked? ==> !txs[j].badDeploy
  }

  /** The balances of an ordinary batch are read off the mask: what was unlinked on the way has left no trace. */
  lemma MaskDeterminesBalances(e: Env, txs: seq<Tx>, g: Graph, k: Key)
    requires Inv(e, txs, g) && AllOrdinary(e, txs)
    requires forall j :: 0 <= j < |txs| && Included(g.mask[j]) ==> g.status[j].Linked?
    ensures Balance(e, g, k)
      == AdmittedBalance(e, txs, g.mask, k) + Marked(e, txs, g.mask, MalformedContractAddress, k, |txs|)
  {
    LedgerOfMask(e, txs, g, k, |txs|);
  }

  lemma {:induction false} LedgerOfMask(e: Env, txs: seq<Tx>, g: Graph, k: Key, n: nat)
    requires MaskAgrees(e, txs, g) && AllOrdinary(e, txs) && n <= |txs|
    requires forall j :: 0 <= j < |txs| && Included(g.mask[j]) ==> g.status[j].Linked?
    ensures Ledger(e, txs, g.status, k, n)
      == Marked(e, txs, g.mask, NoReject, k, n) + Marked(e, txs, g.mask, MalformedContractAddress, k, n)
  {
    if n == 0 {
    } else {
      LedgerOfMask(e, txs, g, k, n - 1);
    }
  }

  lemma {:induction false} AdmittedLedger(e: Env, txs: seq<Tx>, g: Graph, k: Key, n: nat)
    requires MaskAgrees(e, txs, g) && AllOrdinary(e, txs) && NoMisaddressed(txs, g.status) && n <= |txs|
    requires forall j :: 0 <= j < |txs| && g.mask[j] == NoReject ==> g.status[j].Linked?
    ensures Ledger(e, txs, g.status, k, n) == Marked(e, txs, g.mask, NoReject, k, n)
  {
    if n == 0 {
    } else {
      AdmittedLedger(e, txs, g, k, n - 1);
    }
  }

  lemma AdmittedSettle(e: Env, txs: seq<Tx>, g: Graph)
    requires Inv(e, txs, g) && AllOrdinary(e, txs) && NoMisaddressed(txs, g.status)
    requires forall j :: 0 <= j < |txs| && g.mask[j] == NoReject ==> g.status[j].Linked?
    ensures Settled(e, txs, g)
  {
    forall k: Key ensures Balance(e, g, k) == AdmittedBalance(e, txs, g.mask, k) {
      AdmittedLedger(e, txs, g, k, |txs|);
    }
  }

  /** All of it for a finished batch. */
  lemma BatchResult(e: Env, txs: seq<Tx>, before: seq<Reason>, g: Graph)
    requires Inv(e, txs, g) && |before| == |g.mask| == |g.status| == |txs|
    requires forall j :: 0 <= j < |txs| ==>
      && (before[j] == NoReject && Included(g.mask[j]) ==> g.status[j].Linked?)
      && (before[j] != NoReject ==> g.mask[j] == before[j] && g.status[j].Idle?)
    ensures AllOrdinary(e, txs) && SignaturesChecked(before) ==>
      forall k: Key :: Balance(e, g, k)
        == AdmittedBalance(e, txs, g.mask, k) + Marked(e, txs, g.mask, MalformedContractAddress, k, |txs|)
    ensures AllOrdinary(e, txs) && NoMisaddressed(txs, g.status) ==> Settled(e, txs, g)
    ensures Sound(e, txs) && Solvent(e, g) && NoMisaddressed(txs, g.status) ==>
      forall k: Key :: AdmittedBalance(e, txs, g.mask, k) >= 0
  {
    hide Inv, Balance, AdmittedBalance, Marked, NoMisaddressed, AllOrdinary, Settled, Solvent, Sound;
    if AllOrdinary(e, txs) && SignaturesChecked(before) {
      forall k: Key ensures Balance(e, g, k)
        == AdmittedBalance(e, txs, g.mask, k) + Marked(e, txs, g.mask, MalformedContractAddress, k, |txs|)
      {
        MaskDeterminesBalances(e, txs, g, k);
      }
    }
    if AllOrdinary(e, txs) && NoMisaddressed(txs, g.status) {
      AdmittedSettle(e, txs, g);
    }
    SettledSolvent(e, txs, g);
  }

  lemma SettledSolvent(e: Env, txs: seq<Tx>, g: Graph)
    requires |g.mask| == |txs|
    ensures Sound(e, txs) ==> AllOrdinary(e, txs)
    ensures Settled(e, txs, g) && Solvent(e, g) ==> forall k: Key :: AdmittedBalance(e, txs, g.mask, k) >= 0
  {
    if Settled(e, txs, g) && Solvent(e, g) {
      forall k: Key ensures AdmittedBalance(e, txs, g.mask, k) >= 0 {
        assert Balance(e, g, k) >= 0;
      }
    }
  }

  class Validator {
    const env: Env
    const trxs: seq<Tx>
    var wallets: map<Key, Wallet>
    var trxList: seq<int>
    var negativeNodes: seq<Key>
    var mask: seq<Reason>
    var removed: nat
    ghost var status: seq<Status>

    ghost function G(): Graph
      reads this
    {
      Graph(wallets, trxList, mask, status)
    }

    /** The state at the start of an iteration: cleared wallet table and reset lists. */
    ghost predicate Fresh()
      reads this
    {
      && wallets == map[] && negativeNodes == [] && removed == 0 && |mask| == |trxs|
      && |trxList| == |status| == |trxs|
      && (forall j :: 0 <= j < |trxs| ==> trxList[j] == NO_IND && status[j].Idle?)
    }

    constructor (env: Env, trxs: seq<Tx>, mask: seq<Reason>)
      requires |mask| == |trxs|
      ensures this.env == env && this.trxs == trxs && this.mask == mask && Fresh()
    {
      this.env, this.trxs, this.mask := env, trxs, mask;
      wallets, negativeNodes, removed := map[], [], 0;
      trxList := seq(|trxs|, _ => NO_IND);
      status := seq(|trxs|, _ => Idle);
    }

    /** WalletsState::getData: copy a wallet on first read. */
    method GetData(k: Key)
      modifies `wallets
      ensures wallets == old(wallets)[k := View(env, old(G()), k)]
      ensures SameView(env, old(G()), G())
    {
      if k !in wallets {
        wallets := wallets[k := Seed(env, k)];
      }
    }

    // ----- graph phase

    method Deref(ref: Ref) returns (i: int)
      requires ref.HeadOf? ==> ref.k in wallets
      requires ref.LinkOf? ==> ref.j < |trxList|
      ensures i == match ref case HeadOf(k) => wallets[k].last case LinkOf(j) => trxList[j]
    {
      match ref
      case HeadOf(k) => i := wallets[k].last;
      case LinkOf(j) => i := trxList[j];
    }

    /** The statements all four passes share: reject, refund, debit the target, unlink through `ref`. */
    method Unlink(node: Key, ref: Ref, i: nat) returns (dest: Key)
      requires |trxList| == |status| == |trxs| == |mask| && i < |trxs| && node in wallets
      requires if ref.HeadOf? then ref.k == node else ref.j < |trxs|
      modifies `wallets, `trxList, `mask, `removed, `status
      ensures dest == env.keyOf(trxs[i].target) && node in wallets && dest in wallets
      ensures Unlinks(env, trxs, old(G()), G(), node, ref, i) && removed == old(removed) + 1
    {
      var t := trxs[i];
      dest := env.keyOf(t.target);
      GetData(dest);
      mask := mask[i := NegativeResult];
      var w, next := wallets, trxList[i];
      w := w[node := w[node].(balance := w[node].balance + Refund(env, t))];
      w := w[dest := w[dest].(balance := w[dest].balance - t.amount)];
      match ref {
        case HeadOf(k) => w := w[k := w[k].(last := next)];
        case LinkOf(j) => trxList := trxList[j := next];
      }
      wallets, trxList := w, trxList[i := NO_IND];
      removed := removed + 1;
      status := status[i := Unlinked];
    }

    /** Search `node`'s list from the newest index for one whose refund covers `absBalance` and, if asked,
        that does not hurt its target. Only copies wallets on first read. */
    method Search(node: Key, absBalance: int, sparing: bool) returns (prevNext: Ref, i: int)
      requires Inv(env, trxs, G()) && node in wallets
      modifies `wallets
      ensures |mask| == |status| == |trxList| == |trxs|
      ensures node in wallets && SameView(env, old(G()), G())
      ensures RefTo(env, trxs, old(G()), node, prevNext, i) && NO_IND <= i < |trxs|
      ensures i != NO_IND ==> Eligible(env, trxs, old(G()), node, absBalance, sparing, i)
      ensures forall j :: i < j ==> !Eligible(env, trxs, old(G()), node, absBalance, sparing, j)
    {
      ghost var g := G();
      prevNext := HeadOf(node);
      i := Deref(prevNext);
      assert IsPrevious(env, trxs, status, node, |trxs|, View(env, g, node).last);
      while i != NO_IND
        invariant node in wallets && SameView(env, g, G()) && NO_IND <= i < |trxs|
        invariant i != NO_IND ==> On(env, trxs, g.status, node, i)
        invariant RefTo(env, trxs, g, node, prevNext, i)
        invariant forall j :: i < j ==> !Eligible(env, trxs, g, node, absBalance, sparing, j)
        decreases i
      {
        if Refund(env, trxs[i]) >= absBalance {
          var dest := env.keyOf(trxs[i].target);
          GetData(dest);
          if !sparing || trxs[i].amount <= wallets[dest].balance {
            return;
          }
        }
        SearchNext(env, trxs, g, node, absBalance, sparing, i);
        prevNext := LinkOf(i);
        i := Deref(prevNext);
      }
    }

    /** First pass: drop the newest transfer that lifts the wallet by itself and does not hurt its target. */
    method RemovePositiveOne(node: Key) returns (done: bool, ghost hit: int)
      requires Inv(env, trxs, G()) && node in wallets
      modifies `wallets, `trxList, `mask, `removed, `status
      ensures Inv(env, trxs, G()) && node in wallets
      ensures DroppedOne(env, trxs, old(G()), G(), node, true, done, hit)
    {
      hide Inv, SameView, Unlinks, Eligible, DroppedOne, RefTo;
      ghost var g := G();
      if wallets[node].balance >= 0 {
        DropNotNeeded(env, trxs, g, node, true);
        return true, NO_IND;
      }
      var prevNext, i := Search(node, -wallets[node].balance, true);
      if i == NO_IND {
        DropNotFound(env, trxs, g, G(), node, -Balance(env, g, node), true);
        return false, NO_IND;
      }
      ghost var g1 := G();
      var dest := Unlink(node, prevNext, i);
      DropCompletes(env, trxs, g, g1, G(), node, prevNext, i, true);
      return true, i;
    }

    /** One iteration of the second pass: skip index `i` or unlink it. */
    method PruneAt(node: Key, ref: Ref, i: nat, ghost g: Graph, ghost d: seq<int>)
      returns (ref': Ref, ghost d': seq<int>)
      requires node in wallets && wallets[node].balance < 0 && Scanning(env, trxs, g, G(), node, ref, i, true)
      requires Sweeping(env, trxs, g, G(), node, d, true, i + 1)
      modifies `wallets, `trxList, `mask, `removed, `status
      ensures node in wallets && Scanning(env, trxs, g, G(), node, ref', old(trxList[i]), true)
      ensures Sweeping(env, trxs, g, G(), node, d', true, old(trxList[i]) + 1)
      ensures old(trxList[i]) < i
    {
      hide Scanning, Sweeping, Unlinks, SameView, Harmless, Inv, Pruned, RefTo, On;
      ScanFacts(env, trxs, g, G(), node, ref, i, true);
      ghost var g1 := G();
      var t := trxs[i];
      var dest := env.keyOf(t.target);
      GetData(dest);
      HarmlessSeen(env, trxs, g1, G(), i);
      if t.amount > wallets[dest].balance {
        ScanSkip(env, trxs, g, g1, G(), node, ref, i);
        SweepPast(env, trxs, g, g1, G(), node, d, i);
        ref', d' := LinkOf(i), d;
      } else {
        ghost var g2 := G();
        dest := Unlink(node, ref, i);
        UnlinkSeen(env, trxs, g1, g2, G(), node, ref, i);
        ScanDrop(env, trxs, g, g1, G(), node, ref, i, true);
        SweepDown(env, trxs, g, g1, G(), node, ref, d, true, i);
        ref', d' := ref, d + [i];
      }
    }

    /** Second pass: drop every transfer that does not hurt its target, newest first, until the wallet is
        not negative. */
    method RemovePositiveAll(node: Key) returns (done: bool, ghost stop: int)
      requires Inv(env, trxs, G()) && node in wallets
      modifies `wallets, `trxList, `mask, `removed, `status
      ensures Inv(env, trxs, G()) && node in wallets
      ensures done == (Balance(env, G(), node) >= 0)
      ensures Pruned(env, trxs, old(G()), G(), node, stop, true) && (!done ==> stop == NO_IND)
      ensures DropsAll(env, trxs, old(G()), G(), node, Swept(env, trxs, old(G()), node, [], true, |trxs|))
    {
      hide Sweeping, Swept, DropsAll, Scanning, Pruned, Inv;
      ghost var g := G();
      SweepFrom(env, trxs, g, node, true);
      if wallets[node].balance >= 0 {
        SweepEnds(env, trxs, g, g, node, [], true, View(env, g, node).last + 1);
        NothingPruned(env, trxs, g, node, true);
        return true, |trxs|;
      }
      ghost var d: seq<int> := [];
      ScanStart(env, trxs, g, node, true);
      var prevNext := HeadOf(node);
      var i := Deref(prevNext);
      while i != NO_IND
        invariant node in wallets && Scanning(env, trxs, g, G(), node, prevNext, i, true)
        invariant Sweeping(env, trxs, g, G(), node, d, true, i + 1)
        invariant wallets[node].balance < 0 && i >= NO_IND
        decreases i
      {
        ScanFacts(env, trxs, g, G(), node, prevNext, i, true);
        ghost var next := trxList[i];
        prevNext, d := PruneAt(node, prevNext, i, g, d);
        ScanFacts(env, trxs, g, G(), node, prevNext, next, true);
        if wallets[node].balance >= 0 {
          SweepEnds(env, trxs, g, G(), node, d, true, next + 1);
          return true, next;
        }
        i := Deref(prevNext);
      }
      ScanFacts(env, trxs, g, G(), node, prevNext, i, true);
      SweepEnds(env, trxs, g, G(), node, d, true, 0);
      return false, NO_IND;
    }

    /** Third pass: drop the newest transfer that lifts the wallet by itself, even if its target becomes
        negative and has to be visited in turn. */
    method RemoveNegativeOne(node: Key) returns (done: bool, ghost hit: int)
      requires Inv(env, trxs, G()) && node in wallets
      modifies `wallets, `trxList, `mask, `removed, `status, `negativeNodes
      ensures Inv(env, trxs, G()) && node in wallets
      ensures DroppedOne(env, trxs, old(G()), G(), node, false, done, hit)
      ensures hit == NO_IND ==> negativeNodes == old(negativeNodes)
      ensures NO_IND <= hit < |trxs| && (!done ==> hit == NO_IND)
      ensures hit != NO_IND ==>
                var dest := env.keyOf(trxs[hit].target);
                && negativeNodes == old(negativeNodes) + (if Balance(env, G(), dest) < 0 then [dest] else [])
                && LinkedCount(status) < old(LinkedCount(status))
    {
      hide Inv, SameView, Unlinks, Eligible, DroppedOne, RefTo, LinkedCount;
      ghost var g := G();
      if wallets[node].balance >= 0 {
        DropNotNeeded(env, trxs, g, node, false);
        return true, NO_IND;
      }
      var prevNext, i := Search(node, -wallets[node].balance, false);
      if i == NO_IND {
        DropNotFound(env, trxs, g, G(), node, -Balance(env, g, node), false);
        return false, NO_IND;
      }
      ghost var g1 := G();
      var dest := Unlink(node, prevNext, i);
      DropCompletes(env, trxs, g, g1, G(), node, prevNext, i, false);
      if wallets[dest].balance < 0 {
        negativeNodes := negativeNodes + [dest];
      }
      return true, i;
    }

    /** Fourth pass: drop the wallet's transfers, newest first, until it is not negative. */
    method RemoveNegativeAll(node: Key) returns (done: bool, ghost stop: int)
      requires Inv(env, trxs, G()) && node in wallets
      modifies `wallets, `trxList, `mask, `removed, `status, `negativeNodes
      ensures Inv(env, trxs, G()) && node in wallets
      ensures done == (Balance(env, G(), node) >= 0)
      ensures old(Balance(env, G(), node)) < 0 ==> Pruned(env, trxs, old(G()), G(), node, stop, false)
      ensures old(Balance(env, G(), node)) >= 0 ==> G() == old(G())
      ensures !done ==> stop == NO_IND
      ensures Progress(env, trxs, old(G()), old(negativeNodes), G(), negativeNodes, node, done)
      ensures Drained(env, trxs, old(G()), old(negativeNodes), G(), negativeNodes, node)
    {
      hide Draining, Inv, Pruned, Unlinks, Progress, Drained;
      ghost var g, stack := G(), negativeNodes;
      if wallets[node].balance >= 0 {
        NoProgress(env, trxs, g, stack, node);
        NothingDrained(env, trxs, g, stack, node);
        return true, |trxs|;
      }
      DrainStart(env, trxs, g, stack, node);
      ghost var d: seq<int> := [];
      var prevNext := HeadOf(node);
      var i := Deref(prevNext);
      while i != NO_IND
        invariant node in wallets && Draining(env, trxs, g, stack, G(), negativeNodes, node, prevNext, i, d)
        invariant wallets[node].balance < 0
        decreases i
      {
        ghost var g1, stack1 := G(), negativeNodes;
        DrainRef(env, trxs, g, stack, g1, stack1, node, prevNext, i, d);
        ghost var next := trxList[i];
        var dest := Unlink(node, prevNext, i);
        if wallets[dest].balance < 0 {
          negativeNodes := negativeNodes + [dest];
        }
        DrainDrop(env, trxs, g, stack, g1, stack1, G(), negativeNodes, node, prevNext, i, d);
        d := d + [i];
        DrainRef(env, trxs, g, stack, G(), negativeNodes, node, prevNext, next, d);
        if wallets[node].balance >= 0 {
          DrainEnd(env, trxs, g, stack, G(), negativeNodes, node, prevNext, next, d);
          return true, next;
        }
        i := Deref(prevNext);
      }
      DrainEnd(env, trxs, g, stack, G(), negativeNodes, node, prevNext, i, d);
      return false, NO_IND;
    }

    /** The four passes in order, stopping at the first that succeeds. */
    method RemoveTransactions(node: Key) returns (done: bool)
      requires Inv(env, trxs, G()) && node in wallets
      modifies `wallets, `trxList, `mask, `removed, `status, `negativeNodes
      ensures Inv(env, trxs, G()) && (done || !Sound(env, trxs))
      ensures Progress(env, trxs, old(G()), old(negativeNodes), G(), negativeNodes, node, done)
      ensures Escalates(env, trxs, old(G()), old(negativeNodes), G(), negativeNodes, node, done)
    {
      hide Inv, Progress, Escalates, DroppedOne, Pruned, DropsAll, Drained, Sound, Swept, NewestBelow, Escalation,
        LinkedCount;
      ghost var g0, s0 := G(), negativeNodes;
      InvLengths(env, trxs, g0);
      ghost var hit: int;
      done, hit := RemovePositiveOne(node);
      ghost var g1 := G();
      InvFacts(env, trxs, g0);
      OneProgress(env, trxs, g0, s0, g1, s0, node, true, done, hit);
      if done {
        FirstPassEnds(env, trxs, g0, g1, s0, node, hit);
        return;
      }
      FirstPassFails(env, trxs, g0, g1, node, hit);
      done, hit := RemovePositiveAll(node);
      ghost var g2 := G();
      SecondPass(env, trxs, g0, g1, g2, s0, node);
      SparingProgress(env, trxs, g1, g2, node, hit, s0);
      ProgressComposes(env, trxs, g0, s0, g1, s0, g2, s0, node, done);
      if done {
        return;
      }
      done, hit := RemoveNegativeOne(node);
      ghost var g3, s3 := G(), negativeNodes;
      InvFacts(env, trxs, g2);
      HitWhenNegative(env, trxs, g2, g3, node, done, hit);
      OneProgress(env, trxs, g2, s0, g3, s3, node, false, done, hit);
      ProgressComposes(env, trxs, g0, s0, g2, s0, g3, s3, node, done);
      if done {
        ThirdPassEnds(env, trxs, g0, g2, g3, s0, s3, node, hit);
        return;
      }
      ThirdPassFails(env, trxs, g0, g2, g3, node, hit);
      done, hit := RemoveNegativeAll(node);
      FourthPass(env, trxs, g0, g3, G(), s0, negativeNodes, node, done);
      ProgressComposes(env, trxs, g0, s0, g3, s3, G(), negativeNodes, node, done);
      if !done && Sound(env, trxs) {
        NothingLeftIsCovered(env, trxs, g3, G(), node);
      }
    }

    /** Visit the stacked wallets until none is left. A key on the stack stands for a pointer to its wallet. */
    method ValidateByGraph() returns (failed: bool, ghost trace: seq<Scene>)
      requires Inv(env, trxs, G())
      modifies `wallets, `trxList, `mask, `removed, `status, `negativeNodes
      ensures Inv(env, trxs, G()) && OnlyUnlinks(env, old(G()), G()) && negativeNodes == []
      ensures Visited(env, trxs, trace) && SameScene(env, Scene(old(G()), old(negativeNodes)), trace[0])
      ensures trace[|trace| - 1] == Scene(G(), []) && (failed <==> SomeFailed(env, trxs, trace))
      ensures Sound(env, trxs) && old(Covered(env, G(), negativeNodes, {}))
              ==> !failed && Solvent(env, G())
      ensures old(Solvent(env, G())) ==> SameView(env, old(G()), G())
    {
      hide Inv, OnlyUnlinks, Covered, Sound, SameView, Escalates, Progress, LinkedCount, View, Fails;
      failed := false;
      ghost var g, stack := G(), negativeNodes;
      trace := [Scene(g, stack)];
      SameSceneItself(env, g, stack);
      NothingUnlinked(env, trxs, g);
      while negativeNodes != []
        invariant Inv(env, trxs, G()) && OnlyUnlinks(env, g, G())
        invariant Sound(env, trxs) && Covered(env, g, stack, {}) ==> Covered(env, G(), negativeNodes, {}) && !failed
        invariant Solvent(env, g) ==> SameView(env, g, G())
        invariant Visited(env, trxs, trace) && trace[|trace| - 1] == Scene(G(), negativeNodes)
        invariant SameScene(env, Scene(g, stack), trace[0]) && (failed <==> SomeFailed(env, trxs, trace))
        decreases LinkedCount(status), |negativeNodes|
      {
        var node := negativeNodes[|negativeNodes| - 1];
        ghost var g1, s1 := G(), negativeNodes;
        negativeNodes := negativeNodes[..|negativeNodes| - 1];
        GetData(node);
        ghost var g2, s2 := G(), negativeNodes;
        SameViewKeeps(env, trxs, g1, g2);
        PopKeeps(env, g, g1, s1, g2);
        ViewStays(env, g, g1, g2);
        trace := Retouched(env, trxs, trace, g2, g, stack);
        if wallets[node].balance < 0 {
          NotSolvent(env, g, g2, node);
          var done := RemoveTransactions(node);
          failed := failed || !done;
          ProgressFacts(env, trxs, g2, s2, G(), negativeNodes, node, done);
          OnlyUnlinksComposes(env, g, g2, G());
          SceneEscalates(env, trxs, Scene(g2, s1), G(), negativeNodes, done);
        } else {
          SceneEnds(env, trxs, Scene(g2, s1));
        }
        VisitedGrows(env, trxs, trace, Scene(G(), negativeNodes));
        FailedGrows(env, trxs, trace, Scene(G(), negativeNodes));
        trace := trace + [Scene(G(), negativeNodes)];
      }
      AllCovered(env, g, stack, G());
    }

    // ----- per-transaction pass

    /** The source's side of one transaction. A contract-sourced call whose contract cannot pay keeps its
        charge although it is rejected. */
    method ValidateTransactionAsSource(i: nat) returns (r: Reason)
      requires i < |trxs| && |trxList| == |status| == |trxs|
      modifies `wallets, `trxList, `status, `negativeNodes
      ensures r == Verdict(env, trxs[i], View(env, old(G()), env.keyOf(trxs[i].source)))
      ensures var t, w := trxs[i], View(env, old(G()), env.keyOf(trxs[i].source));
              r == NoReject <==>
                && IsAllowed(w.tail, t.innerId) && t.source != t.target && t.maxFee >= t.countedFee
                && (env.isContract(t.source) ==> t.executable && w.balance >= t.amount + t.maxFee)
      ensures var t, w := trxs[i], View(env, old(G()), env.keyOf(trxs[i].source));
              var known := Contains(w.tail, t.innerId);
              && (r == DuplicatedInnerId <==> !IsAllowed(w.tail, t.innerId) && known)
              && (r == DisabledInnerId <==> !IsAllowed(w.tail, t.innerId) && !known)
              && (r == SourceIsTarget <==> IsAllowed(w.tail, t.innerId) && t.source == t.target)
              && (r == NegativeResult ==> env.isContract(t.source) && t.executable && w.balance < t.amount + t.maxFee)
      ensures r == NoReject ==>
                && trxList == old(trxList)[i := View(env, old(G()), env.keyOf(trxs[i].source)).last]
                && status == old(status)[i := Linked]
                && (forall x: Key :: View(env, G(), x) == ChargedWallet(env, trxs, old(G()), i, x))
                && negativeNodes == old(negativeNodes)
                     + if Balance(env, G(), env.keyOf(trxs[i].source)) < 0 then [env.keyOf(trxs[i].source)] else []
      ensures r != NoReject ==> negativeNodes == old(negativeNodes)
      ensures r != NoReject && r != NegativeResult ==> SameView(env, old(G()), G())
      ensures r == NegativeResult ==> Strands(env, trxs, old(G()), G(), i)
    {
      var t := trxs[i];
      var source := env.keyOf(t.source);
      GetData(source);
      r := Precheck(env, t, wallets[source].tail);
      if r != NoReject {
        return;
      }
      wallets := wallets[source := wallets[source].(balance := wallets[source].balance - Charge(env, t))];
      if wallets[source].balance < 0 {
        if env.isContract(t.source) {
          status := status[i := Stranded];
          return NegativeResult;
        }
        negativeNodes := negativeNodes + [source];
      }
      trxList := trxList[i := wallets[source].last];
      wallets := wallets[source := wallets[source].(last := i, tail := Push(wallets[source].tail, t.innerId))];
      status := status[i := Linked];
    }

    method ValidateTransactionAsTarget(i: nat)
      requires i < |trxs|
      modifies `wallets
      ensures forall x: Key :: View(env, G(), x) == CreditedWallet(env, trxs[i], x, View(env, old(G()), x))
    {
      var target := env.keyOf(trxs[i].target);
      GetData(target);
      wallets := wallets[target := wallets[target].(balance := wallets[target].balance + trxs[i].amount)];
    }

    method ValidateTransaction(i: nat) returns (r: Reason)
      requires i < |trxs| && |trxList| == |status| == |trxs|
      modifies `wallets, `trxList, `status, `negativeNodes
      ensures r == Verdict(env, trxs[i], View(env, old(G()), env.keyOf(trxs[i].source)))
      ensures r == NoReject ==> Accepts(env, trxs, old(G()), G(), i)
      ensures r != NoReject && r != NegativeResult ==> SameView(env, old(G()), G())
      ensures r == NegativeResult ==> Strands(env, trxs, old(G()), G(), i)
      ensures negativeNodes == old(negativeNodes) + Indebted(env, trxs[i], old(G()), r)
      ensures Sound(env, trxs) && old(Covered(env, G(), negativeNodes, {})) ==> Covered(env, G(), negativeNodes, {})
    {
      r := ValidateTransactionAsSource(i);
      if r == NoReject {
        ValidateTransactionAsTarget(i);
      }
    }

    /** IterValidator::validateTransactions: the pass, then the graph phase. For every batch the lists, the
        ledger, the mask and the inner ids come out right; for a sound batch nobody ends up in debt and the
        "failed to make balance non-negative" exit is never taken. The balances are those of the admitted
        transactions and of the misaddressed deploys that stayed linked; without such deploys the admitted transactions
        alone leave nobody in debt. */
    method ValidateTransactions() returns (failed: bool, ghost steps: seq<Scene>, ghost trace: seq<Scene>)
      requires Fresh()
      modifies this
      ensures Passes(env, trxs, steps, |trxs|) && steps[0] == old(Scene(G(), []))
      ensures Visited(env, trxs, trace) && SameScene(env, steps[|trxs|], trace[0])
      ensures trace[|trace| - 1] == Scene(G(), []) && (failed <==> SomeFailed(env, trxs, trace))
      ensures Inv(env, trxs, G()) && InnerIdsSpent(env, trxs, G())
      ensures forall j :: 0 <= j < |trxs| ==>
                && (old(mask[j]) == NoReject && Included(mask[j]) ==> status[j].Linked?)
                && (old(mask[j]) != NoReject ==> mask[j] == old(mask[j]) && status[j].Idle?)
      ensures Sound(env, trxs) ==> !failed && Solvent(env, G())
      ensures AllOrdinary(env, trxs) && old(SignaturesChecked(mask)) ==>
                forall k: Key :: Balance(env, G(), k)
                  == AdmittedBalance(env, trxs, mask, k) + Marked(env, trxs, mask, MalformedContractAddress, k, |trxs|)
      ensures AllOrdinary(env, trxs) && NoMisaddressed(trxs, status) ==> Settled(env, trxs, G())
      ensures Sound(env, trxs) && NoMisaddressed(trxs, status) ==>
                forall k: Key :: AdmittedBalance(env, trxs, mask, k) >= 0
    {
      hide Inv, InnerIdsSpent, Covered, View, Sound, Balance, AdmittedBalance, Marked, NoMisaddressed, AllOrdinary,
        Solvent, Judges, PassesAt, Visited, SameScene, OtherTails, SameView, SomeFailed;
      steps := [Scene(G(), negativeNodes)];
      FreshInv(env, trxs, G());
      FreshCovered(env, trxs, G());
      InvLengths(env, trxs, G());
      for i := 0 to |trxs|
        invariant Inv(env, trxs, G()) && InnerIdsSpent(env, trxs, G())
        invariant |mask| == |status| == |trxs|
        invariant Passes(env, trxs, steps, i) && steps[0] == old(Scene(G(), []))
        invariant steps[i] == Scene(G(), negativeNodes)
        invariant Sound(env, trxs) ==> Covered(env, G(), negativeNodes, {})
        invariant forall j :: i <= j < |trxs| ==> status[j].Idle? && mask[j] == old(mask[j])
        invariant forall j :: 0 <= j < i ==>
                    && (old(mask[j]) == NoReject && Included(mask[j]) ==> status[j].Linked?)
                    && (old(mask[j]) != NoReject ==> mask[j] == old(mask[j]) && status[j].Idle?)
      {
        if mask[i] == NoReject {
          ValidateAt(i);
        }
        PassesOneMore(env, trxs, steps, i, Scene(G(), negativeNodes));
        steps := steps + [Scene(G(), negativeNodes)];
      }
      ghost var g := G();
      InvLengths(env, trxs, g);
      failed, trace := ValidateByGraph();
      SpentAfterGraph(env, trxs, g, G());
      InvLengths(env, trxs, G());
      BatchResult(env, trxs, old(mask), G());
    }

    /** One round of the pass: validate index `i`, check the address of a deploy, record a rejection. */
    method ValidateAt(i: nat)
      requires i < |trxs| && Inv(env, trxs, G()) && InnerIdsSpent(env, trxs, G()) && mask[i] == NoReject
      requires forall j :: i <= j < |trxs| ==> status[j].Idle?
      modifies `wallets, `trxList, `status, `negativeNodes, `mask
      ensures Inv(env, trxs, G()) && InnerIdsSpent(env, trxs, G()) && |mask| == |status| == |trxs|
      ensures Sound(env, trxs) && old(Covered(env, G(), negativeNodes, {})) ==> Covered(env, G(), negativeNodes, {})
      ensures forall j :: 0 <= j < |trxs| && j != i ==> status[j] == old(status[j]) && mask[j] == old(mask[j])
      ensures Included(mask[i]) ==> status[i].Linked?
      ensures status[i] == Outcome(Verdict(env, trxs[i], View(env, old(G()), env.keyOf(trxs[i].source))))
      ensures OtherTails(env, old(G()), G(), env.keyOf(trxs[i].source))
      ensures old(|mask| == |trxs|) && Judges(env, trxs, old(Scene(G(), negativeNodes)), Scene(G(), negativeNodes), i)
    {
      hide Indebted, OtherTails, Inv, InnerIdsSpent, Accepts, Strands, Covered, Sound, View, SameView, Verdict;
      ghost var g := G();
      InvLengths(env, trxs, g);
      var r := ValidateTransaction(i);
      ghost var g' := G();
      RecordKeeps(env, trxs, g, g', i, r);
      CoveredApart(env, g', g.mask[i := Recorded(trxs[i], r)], negativeNodes);
      if r == NoReject && trxs[i].badDeploy {
        r := MalformedContractAddress;
      }
      if r != NoReject {
        mask := mask[i := r];
      }
      assert mask == g.mask[i := r];
    }
  }

  // ----- what the result of a batch means

  /** Of a payable transaction that is not ordinary: a deploy whose maximal fee exceeds the counted one. */
  lemma RefundGap()
    ensures var e := Env((a: Address) => if a.PublicKey? then a.key else a.id, a => false, map[]);
      var t := Tx(PublicKey(1), PublicKey(2), 0, 2, 1, 0, true, false);
      Payable(e, t) && !Ordinary(e, t) && Charge(e, t) == 2 && Refund(e, t) == 1
  {
  }

  /** And a call sent by a contract that holds nothing: rejected, with its charge standing. */
  lemma StrandedCall()
    ensures var e := Env((a: Address) => if a.PublicKey? then a.key else a.id, a => a == PublicKey(1), map[]);
      var t := Tx(PublicKey(1), PublicKey(2), 1, 0, 0, 0, true, false);
      Payable(e, t) && !Ordinary(e, t) && Outcome(Verdict(e, t, Wallet(NO_IND, 0, Unused))) == Stranded
  {
  }

  /** A transaction that reaches the balance check of an otherwise untouched wallet and costs something. */
  ghost predicate Payable(e: Env, t: Tx) {
    && (forall k: Key :: Seed(e, k) == Wallet(NO_IND, 0, Unused))
    && Precheck(e, t, Unused) == NoReject
    && t.amount >= 0 && t.maxFee >= 0 && t.countedFee >= 0 && Charge(e, t) > 0
  }

  /** Ordinary is the exact condition: sent alone from wallets that hold nothing, any other payable
      transaction leaves its source in debt, whether it stays linked, is unlinked or is stranded. */
  lemma ExtraordinaryLeavesDebt(e: Env, t: Tx, g: Graph)
    requires Payable(e, t) && !Ordinary(e, t)
    requires Accounted(e, [t], g) && MaskAgrees(e, [t], g) && !g.status[0].Idle?
    requires e.isContract(t.source) ==> g.status[0].Stranded?
    ensures Balance(e, g, e.keyOf(t.source)) < 0
  {
    var k := e.keyOf(t.source);
    assert Ledger(e, [t], g.status, k, 1) == Ledger(e, [t], g.status, k, 0) + Entry(e, t, g.status[0], k);
  }

  method ValidateAlone(e: Env, t: Tx) returns (v: Validator, failed: bool)
    requires Payable(e, t)
    ensures v.env == e && v.trxs == [t]
    ensures (forall k: Key :: Balance(e, v.G(), k) >= 0) <==> Ordinary(e, t)
  {
    hide Visited, SomeFailed, Judges, InnerIdsSpent, OtherTails, OnlyUnlinks, Inv, Sound, Covered, Payable, Verdict,
      Ordinary, Seed;
    v := new Validator(e, [t], [NoReject]);
    FreshInv(e, [t], v.G());
    FreshCovered(e, [t], v.G());
    AloneVerdict(e, t);
    v.ValidateAt(0);
    ghost var g := v.G();
    ghost var trace;
    failed, trace := v.ValidateByGraph();
    AloneEnds(e, t, g, v.G());
  }

  lemma AloneVerdict(e: Env, t: Tx)
    requires Payable(e, t)
    ensures Seed(e, e.keyOf(t.source)) == Wallet(NO_IND, 0, Unused)
    ensures Outcome(Verdict(e, t, Wallet(NO_IND, 0, Unused))) == if e.isContract(t.source) then Stranded else Linked
  {
  }

  lemma AloneEnds(e: Env, t: Tx, g: Graph, g': Graph)
    requires Payable(e, t) && |g.status| == 1 && g.status[0] == (if e.isContract(t.source) then Stranded else Linked)
    requires OnlyUnlinks(e, g, g') && Inv(e, [t], g') && (Sound(e, [t]) ==> Solvent(e, g'))
    ensures (forall k: Key :: Balance(e, g', k) >= 0) <==> Ordinary(e, t)
  {
    if !Ordinary(e, t) {
      ExtraordinaryLeavesDebt(e, t, g');
    } else {
      assert Sound(e, [t]);
    }
  }

  // ----- deploys with a wrong address

  /** What a linked transaction takes from its source in the end; source and target may be one wallet. */
  function Cost(e: Env, t: Tx): (c: int) {
    Charge(e, t) - if e.keyOf(t.source) == e.keyOf(t.target) then t.amount else 0
  }

  /** A transaction that passes the checks, costs something and can be paid from what its source holds. */
  predicate Affordable(e: Env, t: Tx) {
    var w := Seed(e, e.keyOf(t.source));
    Precheck(e, t, w.tail) == NoReject && 0 < Cost(e, t) <= w.balance
  }

  /** A batch of one: its ledger has one entry, and counts as admitted if so marked. */
  lemma LoneBalances(e: Env, t: Tx, g: Graph, k: Key)
    requires Inv(e, [t], g)
    ensures |g.mask| == |g.status| == 1
    ensures Balance(e, g, k) == Seed(e, k).balance + Entry(e, t, g.status[0], k)
    ensures AdmittedBalance(e, [t], g.mask, k)
      == Seed(e, k).balance + if g.mask[0] == NoReject then Entry(e, t, Linked, k) else 0
  {
    assert Ledger(e, [t], g.status, k, 1) == Ledger(e, [t], g.status, k, 0) + Entry(e, t, g.status[0], k);
    assert Marked(e, [t], g.mask, NoReject, k, 1)
      == Marked(e, [t], g.mask, NoReject, k, 0) + if g.mask[0] == NoReject then Entry(e, t, Linked, k) else 0;
  }

  lemma LoneSolvent(e: Env, t: Tx, g: Graph)
    requires Sound(e, [t]) && Inv(e, [t], g) && g.status[0].Linked?
    ensures Solvent(e, g) <==> Cost(e, t) <= Seed(e, e.keyOf(t.source)).balance
  {
    assert [t][0] == t;
    forall k: Key ensures Balance(e, g, k) == Seed(e, k).balance + Entry(e, t, Linked, k) && Seed(e, k).balance >= 0 {
      LoneBalances(e, t, g, k);
    }
    var s := e.keyOf(t.source);
    assert Balance(e, g, s) == Seed(e, s).balance - Cost(e, t);
  }

  /** Only a linked deploy with a wrong address that costs something makes a difference. */
  lemma LoneSettledIff(e: Env, t: Tx, g: Graph)
    requires Sound(e, [t]) && Inv(e, [t], g) && (g.mask[0] == NoReject ==> g.status[0].Linked?)
    ensures Settled(e, [t], g) <==> !(g.status[0].Linked? && t.badDeploy && Cost(e, t) > 0)
  {
    assert [t][0] == t;
    var s := e.keyOf(t.source);
    LoneBalances(e, t, g, s);
    if g.status[0].Linked? && t.badDeploy && Cost(e, t) > 0 {
      assert Balance(e, g, s) != AdmittedBalance(e, [t], g.mask, s);
    } else {
      forall k: Key ensures Balance(e, g, k) == AdmittedBalance(e, [t], g.mask, k) {
        LoneBalances(e, t, g, k);
      }
    }
  }

  /** A sound batch of one. Its balances are those of what was admitted if and only if the transaction is not an
      affordable deploy with a wrong address; such a deploy is rejected and paid all the same. */
  method ValidateOne(e: Env, t: Tx) returns (v: Validator, failed: bool)
    requires Sound(e, [t])
    ensures v.env == e && v.trxs == [t] && |v.mask| == 1
    ensures Settled(e, [t], v.G()) <==> !(t.badDeploy && Affordable(e, t))
    ensures t.badDeploy ==> v.mask[0] != NoReject
  {
    v := new Validator(e, [t], [NoReject]);
    FreshInv(e, [t], v.G());
    FreshCovered(e, [t], v.G());
    v.ValidateAt(0);
    if v.status[0].Linked? {
      LoneSolvent(e, t, v.G());
    }
    ghost var trace;
    failed, trace := v.ValidateByGraph();
    if v.status[0].Linked? {
      LoneSolvent(e, t, v.G());
    }
    LoneSettledIff(e, t, v.G());
  }

  /** Wallet 1 holds 100 and every other wallet nothing. */
  function ExampleEnv(): (e: Env) {
    Env((a: Address) => if a.PublicKey? then a.key else a.id, a => false, map[1 := Wallet(NO_IND, 100, Unused)])
  }

  /** A deploy from wallet 1 to wallet 2 with a wrong address, and wallet 2 passing the 100 on to wallet 3. */
  function ExampleBatch(): (txs: seq<Tx>)
    ensures |txs| == 2
  {
    [Tx(PublicKey(1), PublicKey(2), 100, 0, 0, 0, true, true),
     Tx(PublicKey(2), PublicKey(3), 100, 0, 0, 0, false, false)]
  }

  lemma PairBalances(e: Env, txs: seq<Tx>, g: Graph, k: Key)
    requires |txs| == 2 && Inv(e, txs, g)
    ensures |g.mask| == |g.status| == 2
    ensures Balance(e, g, k)
      == Seed(e, k).balance + Entry(e, txs[0], g.status[0], k) + Entry(e, txs[1], g.status[1], k)
    ensures AdmittedBalance(e, txs, g.mask, k)
      == Seed(e, k).balance + (if g.mask[0] == NoReject then Entry(e, txs[0], Linked, k) else 0)
                            + (if g.mask[1] == NoReject then Entry(e, txs[1], Linked, k) else 0)
  {
    assert Ledger(e, txs, g.status, k, 1) == Ledger(e, txs, g.status, k, 0) + Entry(e, txs[0], g.status[0], k);
    assert Marked(e, txs, g.mask, NoReject, k, 1)
      == Marked(e, txs, g.mask, NoReject, k, 0) + if g.mask[0] == NoReject then Entry(e, txs[0], Linked, k) else 0;
  }

  lemma ExampleBalances(g: Graph)
    requires Inv(ExampleEnv(), ExampleBatch(), g) && g.status[0].Linked? && (g.status[1].Linked? || g.status[1].Idle?)
    ensures g.mask[0] == MalformedContractAddress
    ensures g.status[1].Idle? ==> Balance(ExampleEnv(), g, 2) == 100
    ensures g.status[1].Linked? ==>
      && g.mask == [MalformedContractAddress, NoReject] && Solvent(ExampleEnv(), g)
      && AdmittedBalance(ExampleEnv(), ExampleBatch(), g.mask, 2) == -100
  {
    forall k: Key ensures Balance(ExampleEnv(), g, k)
      == Seed(ExampleEnv(), k).balance + Entry(ExampleEnv(), ExampleBatch()[0], g.status[0], k)
                                       + Entry(ExampleEnv(), ExampleBatch()[1], g.status[1], k)
    {
      PairBalances(ExampleEnv(), ExampleBatch(), g, k);
    }
    PairBalances(ExampleEnv(), ExampleBatch(), g, 2);
  }

  lemma ExampleIsSound()
    ensures Sound(ExampleEnv(), ExampleBatch())
  {
  }

  lemma ExampleVerdicts()
    ensures var e, txs := ExampleEnv(), ExampleBatch();
      && Seed(e, 1) == Wallet(NO_IND, 100, Unused) && Seed(e, 2) == Wallet(NO_IND, 0, Unused)
      && e.keyOf(txs[0].source) == 1 && e.keyOf(txs[1].source) == 2
      && Verdict(e, txs[0], Seed(e, 1)) == NoReject
      && forall last :: Verdict(e, txs[1], Wallet(last, 100, Unused)) == NoReject
  {
  }

  /** The deploy is rejected, and the 100 it brought to wallet 2 pay for the other transaction. The validator sees no
      debt, but what it admits leaves wallet 2 at -100. */
  method ValidateMisaddressed() returns (v: Validator, failed: bool)
    ensures v.env == ExampleEnv() && v.trxs == ExampleBatch() && Sound(v.env, v.trxs)
    ensures v.mask == [MalformedContractAddress, NoReject] && !failed && Solvent(v.env, v.G())
    ensures AdmittedBalance(v.env, v.trxs, v.mask, 2) == -100
  {
    hide Sound, Inv, ExampleEnv, ExampleBatch, Covered, Solvent, AdmittedBalance, Verdict, Seed, InnerIdsSpent;
    v := new Validator(ExampleEnv(), ExampleBatch(), [NoReject, NoReject]);
    FreshInv(v.env, v.trxs, v.G());
    FreshCovered(v.env, v.trxs, v.G());
    ExampleIsSound();
    ExampleVerdicts();
    v.ValidateAt(0);
    ExampleBalances(v.G());
    v.ValidateAt(1);
    ExampleBalances(v.G());
    ghost var trace;
    failed, trace := v.ValidateByGraph();
    ExampleBalances(v.G());
  }

  // ----- the mildest pass first

  /** Wallet 1 holds 10. It sends 1 to wallet 3 and 10 to wallet 2, which passes its 10 on to wallet 4. */
  function SpareEnv(): (e: Env) {
    Env((a: Address) => if a.PublicKey? then a.key else a.id, a => false, map[1 := Wallet(NO_IND, 10, Unused)])
  }

  function SpareBatch(): (txs: seq<Tx>)
    ensures |txs| == 3
  {
    [Tx(PublicKey(1), PublicKey(3), 1, 0, 0, 0, false, false),
     Tx(PublicKey(1), PublicKey(2), 10, 0, 0, 1, false, false),
     Tx(PublicKey(2), PublicKey(4), 10, 0, 0, 0, false, false)]
  }

  lemma SpareBalances(g: Graph, k: Key)
    requires Inv(SpareEnv(), SpareBatch(), g)
    ensures |g.mask| == |g.status| == 3
    ensures var e, txs := SpareEnv(), SpareBatch();
      Balance(e, g, k) == Seed(e, k).balance + Entry(e, txs[0], g.status[0], k) + Entry(e, txs[1], g.status[1], k)
                        + Entry(e, txs[2], g.status[2], k)
  {
    var e, txs := SpareEnv(), SpareBatch();
    assert Ledger(e, txs, g.status, k, 1) == Ledger(e, txs, g.status, k, 0) + Entry(e, txs[0], g.status[0], k);
    assert Ledger(e, txs, g.status, k, 2) == Ledger(e, txs, g.status, k, 1) + Entry(e, txs[1], g.status[1], k);
  }

  /** The first wallet is short of 1: of its two transactions only the first one can be given up without hurting
      anybody. */
  lemma SpareIsNewest(g: Graph)
    requires Inv(SpareEnv(), SpareBatch(), g) && g.status == [Linked, Linked, Linked]
    ensures g.mask == [NoReject, NoReject, NoReject] && Balance(SpareEnv(), g, 1) == -1
    ensures Newest(SpareEnv(), SpareBatch(), g, 1, 1, true, 0)
  {
    SpareBalances(g, 1);
    SpareBalances(g, 2);
    SpareBalances(g, 3);
    var e, txs := SpareEnv(), SpareBatch();
    assert On(e, txs, g.status, 1, 0) && Harmless(e, txs, g, 0);
    forall j | 0 < j ensures !Eligible(e, txs, g, 1, 1, true, j) {
      if j == 1 {
        assert !Harmless(e, txs, g, 1);
      }
    }
  }

  /** Where the pass stands after `n` of the three. */
  ghost predicate SpareStage(a: Scene, n: nat) {
    && Inv(SpareEnv(), SpareBatch(), a.graph) && |a.graph.status| == 3 && a.graph.mask == [NoReject, NoReject, NoReject]
    && (forall j :: 0 <= j < 3 ==> a.graph.status[j] == if j < n then Linked else Idle)
    && a.stack == (if n <= 1 then [] else [1])
    && (n <= 1 ==> View(SpareEnv(), a.graph, 1).tail == if n == 0 then Unused else Push(Unused, 0))
    && (n <= 2 ==> View(SpareEnv(), a.graph, 2).tail == Unused)
  }

  lemma SpareVerdict(a: Scene, n: nat)
    requires SpareStage(a, n) && n < 3
    ensures var e, t := SpareEnv(), SpareBatch()[n];
      && Verdict(e, t, View(e, a.graph, e.keyOf(t.source))) == NoReject
      && Indebted(e, t, a.graph, NoReject) == if n == 1 then [1] else []
  {
    SpareBalances(a.graph, 1);
    SpareBalances(a.graph, 2);
  }

  lemma SpareStep(a: Scene, b: Scene, n: nat)
    requires SpareStage(a, n) && n < 3 && Judges(SpareEnv(), SpareBatch(), a, b, n)
    requires Inv(SpareEnv(), SpareBatch(), b.graph)
    ensures SpareStage(b, n + 1)
  {
    hide Inv, Verdict, Indebted;
    SpareVerdict(a, n);
    var e, g' := SpareEnv(), b.graph.(mask := a.graph.mask);
    assert View(e, b.graph, 1) == View(e, g', 1) && View(e, b.graph, 2) == View(e, g', 2);
    assert View(e, g', 1) == CreditedWallet(e, SpareBatch()[n], 1, ChargedWallet(e, SpareBatch(), a.graph, n, 1));
    assert View(e, g', 2) == CreditedWallet(e, SpareBatch()[n], 2, ChargedWallet(e, SpareBatch(), a.graph, n, 2));
  }

  lemma SpareStart(g: Graph)
    requires Inv(SpareEnv(), SpareBatch(), g) && g.wallets == map[] && |g.status| == 3
    requires g.mask == [NoReject, NoReject, NoReject]
    requires forall j :: 0 <= j < 3 ==> g.status[j].Idle?
    ensures SpareStage(Scene(g, []), 0)
  {
  }

  /** One visit, of the first wallet, ends the graph phase. */
  lemma SpareEnd(a: Scene, trace: seq<Scene>)
    requires SpareStage(a, 3) && Visited(SpareEnv(), SpareBatch(), trace) && SameScene(SpareEnv(), a, trace[0])
    requires trace[|trace| - 1].stack == []
    ensures trace[|trace| - 1].graph.mask == [NegativeResult, NoReject, NoReject]
  {
    hide Inv, Escalates, Newest, Drops;
    var e, txs, g := SpareEnv(), SpareBatch(), trace[0].graph;
    SameViewKeeps(e, txs, a.graph, g);
    SpareIsNewest(g);
    assert Visits(e, txs, trace[0], trace[1]);
    InvLengths(e, txs, g);
    MildestFirst(e, txs, g, [], trace[1].graph, trace[1].stack, 1, Escalation(e, txs, g, 1).done, 0);
    SpareDropped(g, trace[1].graph);
    EndsThere(e, txs, trace, 1);
  }

  lemma SpareDropped(g: Graph, g': Graph)
    requires Drops(SpareEnv(), SpareBatch(), g, g', 1, 0) && g.mask == [NoReject, NoReject, NoReject]
    ensures g'.mask == [NegativeResult, NoReject, NoReject]
  {
  }

  /** The three are accepted, and the graph phase gives the first one up. */
  method ValidateSparing() returns (v: Validator, failed: bool)
    ensures v.env == SpareEnv() && v.trxs == SpareBatch()
    ensures v.mask == [NegativeResult, NoReject, NoReject]
  {
    hide SpareEnv, SpareBatch, Inv, Passes, Visited, SameScene, SpareStage, View, Sound, Solvent, Settled, AllOrdinary,
      AdmittedBalance, InnerIdsSpent;
    v := new Validator(SpareEnv(), SpareBatch(), [NoReject, NoReject, NoReject]);
    ghost var g := v.G();
    FreshInv(v.env, v.trxs, g);
    SpareStart(g);
    ghost var steps, trace;
    failed, steps, trace := v.ValidateTransactions();
    SparePasses(steps, 3);
    SpareEnd(steps[3], trace);
  }

  lemma {:induction false} SparePasses(steps: seq<Scene>, n: nat)
    requires Passes(SpareEnv(), SpareBatch(), steps, 3) && n <= 3 && SpareStage(steps[0], 0)
    ensures |steps| == 4 && SpareStage(steps[n], n)
  {
    hide Judges, Inv;
    if n == 0 {
    } else {
      SparePasses(steps, n - 1);
      assert PassesAt(SpareEnv(), SpareBatch(), steps, n - 1);
      SpareStep(steps[n - 1], steps[n], n - 1);
    }
  }
}
