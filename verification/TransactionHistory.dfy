/** The history of one wallet as a plain scan of the chain, and what the per-wallet index must say. */
module TransactionHistory {
  import opened Addresses

  datatype Tx = Tx(source: Address, target: Address, innerId: int)

  /** Position of a transaction in the chain. */
  datatype TxId = TxId(poolSeq: nat, index: nat)

  type Pool = seq<Tx>

  type Resolver = Address -> Key

  /** The invalid sequence, the greatest 64-bit number. */
  const WRONG: nat := 0xFFFF_FFFF_FFFF_FFFF

  predicate Touches(keyOf: Resolver, t: Tx, k: Key) {
    keyOf(t.source) == k || keyOf(t.target) == k
  }

  ghost predicate PoolTouches(keyOf: Resolver, pool: Pool, k: Key) {
    exists i :: 0 <= i < |pool| && Touches(keyOf, pool[i], k)
  }

  // ----- the scan

  /** Transactions of `k` among the first `p` of a pool, newest first. */
  ghost function InPool(keyOf: Resolver, pool: Pool, number: nat, k: Key, p: nat): seq<TxId>
    requires p <= |pool|
  {
    if p == 0 then []
    else (if Touches(keyOf, pool[p - 1], k) then [TxId(number, p - 1)] else []) + InPool(keyOf, pool, number, k, p - 1)
  }

  /** Transactions of `k` in the first `n` pools, newest first. */
  ghost function Past(keyOf: Resolver, chain: seq<Pool>, k: Key, n: nat): seq<TxId>
    requires n <= |chain|
  {
    if n == 0 then []
    else InPool(keyOf, chain[n - 1], n - 1, k, |chain[n - 1]|) + Past(keyOf, chain, k, n - 1)
  }

  /** All transactions of `k`, newest first. */
  ghost function History(keyOf: Resolver, chain: seq<Pool>, k: Key): seq<TxId> {
    Past(keyOf, chain, k, |chain|)
  }

  ghost predicate IsTxOf(keyOf: Resolver, chain: seq<Pool>, k: Key, id: TxId) {
    id.poolSeq < |chain| && id.index < |chain[id.poolSeq]| && Touches(keyOf, chain[id.poolSeq][id.index], k)
  }

  predicate Newer(a: TxId, b: TxId) {
    a.poolSeq > b.poolSeq || (a.poolSeq == b.poolSeq && a.index > b.index)
  }

  ghost predicate NewestFirst(h: seq<TxId>) {
    forall i, j :: 0 <= i < j < |h| ==> Newer(h[i], h[j])
  }

  /** The scan lists exactly the wallet's transactions, each once, newest first. */
  lemma HistoryIsComplete(keyOf: Resolver, chain: seq<Pool>, k: Key)
    ensures forall id :: id in History(keyOf, chain, k) <==> IsTxOf(keyOf, chain, k, id)
    ensures NewestFirst(History(keyOf, chain, k))
    ensures var h := History(keyOf, chain, k);
      forall i, j :: 0 <= i < j < |h| ==>
        h[j].poolSeq < h[i].poolSeq || (h[j].poolSeq == h[i].poolSeq && h[j].index < h[i].index)
  {
    PastIsComplete(keyOf, chain, k, |chain|);
  }

  lemma NewestFirstJoins(a: seq<TxId>, b: seq<TxId>)
    requires NewestFirst(a) && NewestFirst(b) && forall x, y :: x in a && y in b ==> Newer(x, y)
    ensures NewestFirst(a + b)
  {
    forall i, j | 0 <= i < j < |a + b| ensures Newer((a + b)[i], (a + b)[j]) {
      if i < |a| <= j {
        assert a[i] in a && b[j - |a|] in b;
      }
    }
  }

  lemma {:induction false} PastIsComplete(keyOf: Resolver, chain: seq<Pool>, k: Key, n: nat)
    requires n <= |chain|
    ensures forall id :: id in Past(keyOf, chain, k, n) <==> IsTxOf(keyOf, chain, k, id) && id.poolSeq < n
    ensures NewestFirst(Past(keyOf, chain, k, n))
  {
    if n == 0 {
    } else {
      var pool := chain[n - 1];
      InPoolIsComplete(keyOf, pool, n - 1, k, |pool|);
      PastIsComplete(keyOf, chain, k, n - 1);
      var a, b := InPool(keyOf, pool, n - 1, k, |pool|), Past(keyOf, chain, k, n - 1);
      assert Past(keyOf, chain, k, n) == a + b;
      NewestFirstJoins(a, b);
    }
  }

  lemma {:induction false} InPoolIsComplete(keyOf: Resolver, pool: Pool, number: nat, k: Key, p: nat)
    requires p <= |pool|
    ensures forall id :: id in InPool(keyOf, pool, number, k, p)
                    <==> id.poolSeq == number && id.index < p && Touches(keyOf, pool[id.index], k)
    ensures NewestFirst(InPool(keyOf, pool, number, k, p))
  {
    hide Touches;
    if p == 0 {
    } else {
      InPoolIsComplete(keyOf, pool, number, k, p - 1);
      var head := if Touches(keyOf, pool[p - 1], k) then [TxId(number, p - 1)] else [];
      var rest := InPool(keyOf, pool, number, k, p - 1);
      InPoolStep(keyOf, pool, number, k, p);
      NewestFirstJoins(head, rest);
    }
  }

  lemma InPoolStep(keyOf: Resolver, pool: Pool, number: nat, k: Key, p: nat)
    requires 0 < p <= |pool|
    ensures InPool(keyOf, pool, number, k, p)
      == (if Touches(keyOf, pool[p - 1], k) then [TxId(number, p - 1)] else []) + InPool(keyOf, pool, number, k, p - 1)
  {
  }

  // ----- the index

  /** The last pool below `s` that touches `k`, or WRONG. */
  ghost function PreviousPool(keyOf: Resolver, chain: seq<Pool>, k: Key, s: nat): nat
    requires s <= |chain|
    ensures var p := PreviousPool(keyOf, chain, k, s); p == WRONG || p < s
  {
    if s == 0 then WRONG
    else if PoolTouches(keyOf, chain[s - 1], k) then s - 1
    else PreviousPool(keyOf, chain, k, s - 1)
  }

  /** The table holds, for every pool that touches a wallet, the previous pool that did, and nothing else. */
  ghost predicate IndexAgrees(keyOf: Resolver, chain: seq<Pool>, db: map<(Key, nat), nat>) {
    && (forall k: Key, s: nat :: (k, s) in db <==> s < |chain| && PoolTouches(keyOf, chain[s], k))
    && (forall k: Key, s: nat :: (k, s) in db && s <= |chain| ==> db[(k, s)] == PreviousPool(keyOf, chain, k, s))
  }

  /** The last transaction recorded for each wallet. */
  ghost predicate LastAgrees(keyOf: Resolver, chain: seq<Pool>, last: map<Key, TxId>) {
    forall k: Key :: LastOf(last, k) == LastTransaction(keyOf, chain, k)
  }

  function LastOf(last: map<Key, TxId>, k: Key): (r: TxId) {
    if k in last then last[k] else TxId(WRONG, WRONG)
  }

  ghost function LastTransaction(keyOf: Resolver, chain: seq<Pool>, k: Key): TxId {
    var h := History(keyOf, chain, k);
    if h == [] then TxId(WRONG, WRONG) else h[0]
  }

  /** Pools that do not touch a wallet add nothing to its history. */
  lemma {:induction false} PastSkips(keyOf: Resolver, chain: seq<Pool>, k: Key, s: nat)
    requires s <= |chain| < WRONG
    ensures var p := PreviousPool(keyOf, chain, k, s);
            && (p == WRONG ==> Past(keyOf, chain, k, s) == [])
            && (p != WRONG ==> p < s && PoolTouches(keyOf, chain[p], k))
            && (p != WRONG ==> Past(keyOf, chain, k, s) == Past(keyOf, chain, k, p + 1))
  {
    hide InPool, PoolTouches, Past;
    if s == 0 || PoolTouches(keyOf, chain[s - 1], k) {
      NoPast(keyOf, chain, k);
    } else {
      PastOfUntouched(keyOf, chain, k, s);
      PastSkips(keyOf, chain, k, s - 1);
    }
  }

  lemma NoPast(keyOf: Resolver, chain: seq<Pool>, k: Key)
    ensures Past(keyOf, chain, k, 0) == []
  {
  }

  lemma PastOfUntouched(keyOf: Resolver, chain: seq<Pool>, k: Key, s: nat)
    requires 0 < s <= |chain| && !PoolTouches(keyOf, chain[s - 1], k)
    ensures Past(keyOf, chain, k, s) == Past(keyOf, chain, k, s - 1)
  {
    hide InPool, PoolTouches;
    UntouchedPool(keyOf, chain[s - 1], s - 1, k, |chain[s - 1]|);
  }

  lemma {:induction false} UntouchedPool(keyOf: Resolver, pool: Pool, number: nat, k: Key, p: nat)
    requires p <= |pool| && !PoolTouches(keyOf, pool, k)
    ensures InPool(keyOf, pool, number, k, p) == []
  {
    if p == 0 {
    } else {
      UntouchedPool(keyOf, pool, number, k, p - 1);
    }
  }

  /** What the table says depends only on the chain. */
  lemma IndexIsDetermined(keyOf: Resolver, chain: seq<Pool>, db: map<(Key, nat), nat>, db': map<(Key, nat), nat>)
    requires IndexAgrees(keyOf, chain, db) && IndexAgrees(keyOf, chain, db')
    ensures db == db'
  {
    forall e ensures e in db <==> e in db' {
      assert e == (e.0, e.1);
    }
    forall e | e in db ensures db[e] == db'[e] {
      assert e == (e.0, e.1);
    }
  }
}
