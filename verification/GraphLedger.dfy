/** Values and laws of batch validation: what each transaction charges and refunds, the ledger every
    balance has to satisfy, and the per-wallet lists threaded through one index array. */
module GraphLedger {
  import opened Addresses
  import opened InnerIds

  datatype Reason =
    | NoReject
    | WrongSignature
    | SourceIsTarget
    | InsufficientMaxFee
    | MalformedTransaction
    | MalformedContractAddress
    | DuplicatedInnerId
    | DisabledInnerId
    | NegativeResult

  /** Amounts and fees are exact integers in units of 10^-18. `badDeploy` says that the transaction is
      a deploy whose target is not the address derived from it. */
  datatype Tx = Tx(source: Address, target: Address, amount: int, maxFee: int, countedFee: int,
                   innerId: int, executable: bool, badDeploy: bool)

  datatype Wallet = Wallet(last: int, balance: int, tail: Tail)

  /** What validation reads from the node: how addresses resolve, which are known contracts, and the
      cached wallets a batch starts from. */
  datatype Env = Env(keyOf: Address -> Key, isContract: Address -> bool, cache: map<Key, Wallet>)

  /** The end of every list (`WalletsState::noInd_`). */
  const NO_IND := -1

  /** The wallet a batch sees before it touches it. */
  function Seed(e: Env, k: Key): (r: Wallet) {
    if k in e.cache then e.cache[k].(last := NO_IND) else Wallet(NO_IND, 0, Unused)
  }

  /** What the source pays when the transaction is accepted. */
  function Charge(e: Env, t: Tx): (r: int) {
    t.amount + if t.executable || e.isContract(t.target) then t.maxFee else t.countedFee
  }

  /** What the source gets back when the transaction is unlinked; the code also uses it as the cost
      of the transaction when it decides which one to unlink. */
  function Refund(e: Env, t: Tx): (r: int) {
    t.amount + if e.isContract(t.target) then t.maxFee else t.countedFee
  }

  /** Unlinking gives back exactly what was charged, and the source is not a contract that can be
      charged without being linked. */
  predicate Ordinary(e: Env, t: Tx) {
    t.executable ==> !e.isContract(t.source) && (e.isContract(t.target) || t.maxFee == t.countedFee)
  }

  /** Life of a transaction in a batch: not accepted; charged and on its source's list; unlinked by the
      graph phase; or charged and then rejected (a contract-sourced call without funds). */
  datatype Status = Idle | Linked | Unlinked | Stranded

  /** The state of a batch: wallet table, list links, acceptance mask, and (for reasoning only) statuses. */
  datatype Graph = Graph(wallets: map<Key, Wallet>, list: seq<int>, mask: seq<Reason>, status: seq<Status>)

  function View(e: Env, g: Graph, k: Key): (r: Wallet) {
    if k in g.wallets then g.wallets[k] else Seed(e, k)
  }

  ghost function Balance(e: Env, g: Graph, k: Key): int {
    View(e, g, k).balance
  }

  // ----- ledger

  /** The effect on wallet `k` of one transaction in a given state. */
  ghost function Entry(e: Env, t: Tx, s: Status, k: Key): int {
    var source := e.keyOf(t.source) == k;
    match s
    case Idle => 0
    case Linked => (if e.keyOf(t.target) == k then t.amount else 0) - if source then Charge(e, t) else 0
    case Unlinked => if source then Refund(e, t) - Charge(e, t) else 0
    case Stranded => if source then -Charge(e, t) else 0
  }

  ghost function Ledger(e: Env, txs: seq<Tx>, status: seq<Status>, k: Key, n: nat): int
    requires n <= |txs| == |status|
  {
    if n == 0 then 0 else Ledger(e, txs, status, k, n - 1) + Entry(e, txs[n - 1], status[n - 1], k)
  }

  lemma {:induction false} LedgerUpdate(e: Env, txs: seq<Tx>, status: seq<Status>, k: Key, n: nat, i: nat, s: Status)
    requires n <= |txs| == |status| && i < |txs|
    ensures Ledger(e, txs, status[i := s], k, n)
         == Ledger(e, txs, status, k, n) + if i < n then Entry(e, txs[i], s, k) - Entry(e, txs[i], status[i], k) else 0
  {
    if n == 0 {
    } else {
      LedgerUpdate(e, txs, status, k, n - 1, i, s);
    }
  }

  /** A wallet none of whose own transfers is still linked has lost nothing. */
  lemma {:induction false} LedgerWithoutDebits(e: Env, txs: seq<Tx>, status: seq<Status>, k: Key, n: nat)
    requires n <= |txs| == |status|
    requires forall j | 0 <= j < n :: txs[j].amount >= 0 && Ordinary(e, txs[j])
    requires forall j | 0 <= j < n :: !On(e, txs, status, k, j)
    requires forall j | 0 <= j < n && status[j].Stranded? :: e.keyOf(txs[j].source) != k
    ensures Ledger(e, txs, status, k, n) >= 0
  {
    if n == 0 {
    } else {
      LedgerWithoutDebits(e, txs, status, k, n - 1);
      assert !On(e, txs, status, k, n - 1);
    }
  }

  /** How many transactions are still linked: the first component of the termination measure. */
  ghost function LinkedCount(status: seq<Status>): nat {
    if status == [] then 0 else LinkedCount(status[..|status| - 1]) + if status[|status| - 1].Linked? then 1 else 0
  }

  lemma {:induction false} LinkedCountUpdate(status: seq<Status>, i: nat, s: Status)
    requires i < |status|
    ensures LinkedCount(status[i := s])
         == LinkedCount(status) + (if s.Linked? then 1 else 0) - if status[i].Linked? then 1 else 0
  {
    var n := |status| - 1;
    if i < n {
      assert status[i := s][..n] == status[..n][i := s];
      LinkedCountUpdate(status[..n], i, s);
    } else {
      assert status[i := s][..n] == status[..n];
    }
  }

  // ----- lists

  ghost predicate On(e: Env, txs: seq<Tx>, status: seq<Status>, k: Key, j: int) {
    0 <= j < |txs| && j < |status| && status[j].Linked? && e.keyOf(txs[j].source) == k
  }

  /** `p` is the greatest index below `bound` on wallet `k`'s list, or NO_IND if there is none. */
  ghost predicate IsPrevious(e: Env, txs: seq<Tx>, status: seq<Status>, k: Key, bound: int, p: int) {
    && NO_IND <= p < bound
    && (p != NO_IND ==> On(e, txs, status, k, p))
    && forall j :: p < j < bound ==> !On(e, txs, status, k, j)
  }

  /** Every head and every link is the greatest linked index below it with the same source. So the lists
      are acyclic and strictly decreasing, disjoint across wallets, and reach exactly the linked indices. */
  ghost predicate Threaded(e: Env, txs: seq<Tx>, g: Graph) {
    && |g.list| == |g.status| == |txs|
    && (forall k: Key :: IsPrevious(e, txs, g.status, k, |txs|, View(e, g, k).last))
    && (forall j :: 0 <= j < |txs| && g.status[j].Linked?
          ==> IsPrevious(e, txs, g.status, e.keyOf(txs[j].source), j, g.list[j]))
  }

  /** Every balance is its starting value plus the ledger of the batch. */
  ghost predicate Accounted(e: Env, txs: seq<Tx>, g: Graph) {
    && |g.status| == |txs|
    && forall k: Key :: Balance(e, g, k) == Seed(e, k).balance + Ledger(e, txs, g.status, k, |txs|)
  }

  ghost predicate WasAccepted(s: Status) {
    s.Linked? || s.Unlinked?
  }

  /** Inner ids of accepted transactions are used up: no wallet has two accepted transactions with one inner
      id, nor one with an inner id that was used before the batch. Unlinking does not give the id back. */
  ghost predicate InnerIdsSpent(e: Env, txs: seq<Tx>, g: Graph) {
    && |g.status| == |txs|
    && (forall k: Key, id: int :: !IsAllowed(Seed(e, k).tail, id) ==> !IsAllowed(View(e, g, k).tail, id))
    && (forall j :: 0 <= j < |txs| && WasAccepted(g.status[j]) ==>
         && IsAllowed(Seed(e, e.keyOf(txs[j].source)).tail, txs[j].innerId)
         && !IsAllowed(View(e, g, e.keyOf(txs[j].source)).tail, txs[j].innerId))
    && (forall i, j ::
          (0 <= i < j < |txs| && WasAccepted(g.status[i]) && WasAccepted(g.status[j])
           && e.keyOf(txs[i].source) == e.keyOf(txs[j].source)) ==> txs[i].innerId != txs[j].innerId)
  }

  /** What every step of the pass and of the graph phase keeps, for any batch. */
  ghost predicate Inv(e: Env, txs: seq<Tx>, g: Graph) {
    Threaded(e, txs, g) && Accounted(e, txs, g) && MaskAgrees(e, txs, g)
  }

  /** What is recorded of an accepted transaction. */
  function Recording(t: Tx): (r: Reason) {
    if t.badDeploy then MalformedContractAddress else NoReject
  }

  /** A linked transaction is admitted, except that a deploy with a wrong address is rejected after it was linked and
      stays linked. Only calls sent by a contract can be charged without being linked. */
  ghost predicate MaskAgrees(e: Env, txs: seq<Tx>, g: Graph) {
    && |g.status| == |g.mask| == |txs|
    && forall j :: 0 <= j < |txs| ==>
         && (g.status[j].Linked? ==> g.mask[j] == Recording(txs[j]))
         && (g.status[j].Unlinked? ==> g.mask[j] == NegativeResult)
         && (g.status[j].Stranded? ==> g.mask[j] != NoReject && txs[j].executable && e.isContract(txs[j].source))
  }

  /** The same state up to wallets copied on first read. */
  ghost predicate SameView(e: Env, g: Graph, g': Graph) {
    && g.list == g'.list && g.status == g'.status && g.mask == g'.mask
    && forall x: Key :: View(e, g', x) == View(e, g, x)
  }

  lemma SameViewKeeps(e: Env, txs: seq<Tx>, g: Graph, g': Graph)
    requires Inv(e, txs, g) && SameView(e, g, g')
    ensures Inv(e, txs, g')
  {
    forall k: Key ensures IsPrevious(e, txs, g'.status, k, |txs|, View(e, g', k).last) {
      assert View(e, g', k) == View(e, g, k);
    }
  }

  /** Where the link to the current index is stored: the C++ pointer `prevNext`. */
  datatype Ref = HeadOf(k: Key) | LinkOf(j: nat)

  ghost predicate RefTo(e: Env, txs: seq<Tx>, g: Graph, k: Key, ref: Ref, i: int) {
    match ref
    case HeadOf(k') => k' == k && View(e, g, k).last == i
    case LinkOf(j) => On(e, txs, g.status, k, j) && j < |g.list| && g.list[j] == i
  }

  // ----- the two steps that change lists and balances

  /** Wallet `x` after index `i` of wallet `k` is unlinked through `ref`. */
  ghost function UnlinkedWallet(e: Env, txs: seq<Tx>, g: Graph, k: Key, ref: Ref, i: nat, x: Key): Wallet
    requires |g.list| == |txs| && i < |txs|
  {
    var w := View(e, g, x);
    Wallet(if ref == HeadOf(x) then g.list[i] else w.last,
           w.balance + (if x == k then Refund(e, txs[i]) else 0)
                     - (if x == e.keyOf(txs[i].target) then txs[i].amount else 0),
           w.tail)
  }

  /** Index `i` of wallet `k` is unlinked through `ref`: rejected, source refunded, target debited. */
  ghost predicate Unlinks(e: Env, txs: seq<Tx>, g: Graph, g': Graph, k: Key, ref: Ref, i: nat) {
    && |g.list| == |g.status| == |g.mask| == |txs| && i < |txs| && (if ref.HeadOf? then ref.k == k else ref.j < |txs|)
    && g'.list == (if ref.LinkOf? then g.list[ref.j := g.list[i]] else g.list)[i := NO_IND]
    && g'.mask == g.mask[i := NegativeResult]
    && g'.status == g.status[i := Unlinked]
    && forall x: Key :: View(e, g', x) == UnlinkedWallet(e, txs, g, k, ref, i, x)
  }

  /** Unlinking keeps the lists well formed and the ledger exact, whatever the transaction is and also
      when source and target resolve to the same wallet. */
  lemma UnlinkKeeps(e: Env, txs: seq<Tx>, g: Graph, g': Graph, k: Key, ref: Ref, i: nat)
    requires Inv(e, txs, g) && On(e, txs, g.status, k, i) && RefTo(e, txs, g, k, ref, i)
    requires Unlinks(e, txs, g, g', k, ref, i)
    ensures Inv(e, txs, g') && RefTo(e, txs, g', k, ref, g.list[i])
    ensures LinkedCount(g'.status) < LinkedCount(g.status)
  {
    UnlinkThreads(e, txs, g, g', k, ref, i);
    UnlinkAccounts(e, txs, g, g', k, ref, i);
    LinkedCountUpdate(g.status, i, Unlinked);
  }

  lemma UnlinkAccounts(e: Env, txs: seq<Tx>, g: Graph, g': Graph, k: Key, ref: Ref, i: nat)
    requires Accounted(e, txs, g) && On(e, txs, g.status, k, i) && Unlinks(e, txs, g, g', k, ref, i)
    ensures Accounted(e, txs, g')
  {
    forall x: Key ensures Balance(e, g', x) == Seed(e, x).balance + Ledger(e, txs, g'.status, x, |txs|) {
      LedgerUpdate(e, txs, g.status, x, |txs|, i, Unlinked);
    }
  }

  lemma UnlinkThreads(e: Env, txs: seq<Tx>, g: Graph, g': Graph, k: Key, ref: Ref, i: nat)
    requires Threaded(e, txs, g) && On(e, txs, g.status, k, i) && RefTo(e, txs, g, k, ref, i)
    requires Unlinks(e, txs, g, g', k, ref, i)
    ensures Threaded(e, txs, g') && (ref.LinkOf? ==> i < ref.j)
  {
    forall x: Key ensures IsPrevious(e, txs, g'.status, x, |txs|, View(e, g', x).last) {
      assert IsPrevious(e, txs, g.status, x, |txs|, View(e, g, x).last);
      PreviousAfterUnlink(e, txs, g.status, k, i, g.list[i], x, |txs|, View(e, g, x).last);
    }
    forall j | 0 <= j < |txs| && g'.status[j].Linked?
      ensures IsPrevious(e, txs, g'.status, e.keyOf(txs[j].source), j, g'.list[j])
    {
      PreviousAfterUnlink(e, txs, g.status, k, i, g.list[i], e.keyOf(txs[j].source), j, g.list[j]);
      if g.list[j] == i {
        assert On(e, txs, g.status, k, j) && IsPrevious(e, txs, g.status, k, |txs|, View(e, g, k).last);
      }
    }
  }

  /** Once `i` is unlinked, a link that pointed at `i` has to point at `i`'s own predecessor and no other
      link changes. Nothing of the same list lies between a link and the index it points at. */
  lemma PreviousAfterUnlink(e: Env, txs: seq<Tx>, status: seq<Status>, k: Key, i: nat, next: int,
                            x: Key, bound: int, p: int)
    requires On(e, txs, status, k, i) && IsPrevious(e, txs, status, k, i, next)
    requires IsPrevious(e, txs, status, x, bound, p)
    ensures IsPrevious(e, txs, status[i := Unlinked], x, bound, if p == i then next else p)
    ensures p == i ==> x == k && forall j :: i < j < bound ==> !On(e, txs, status, k, j)
  {
    var status' := status[i := Unlinked];
    assert forall y: Key, j :: On(e, txs, status', y, j) <==> On(e, txs, status, y, j) && j != i;
    if p == i {
      assert On(e, txs, status, x, i);
      assert forall j :: next < j < bound ==> !On(e, txs, status', k, j);
    }
  }

  /** Wallet `x` after index `i` is accepted as far as its source is concerned. */
  ghost function ChargedWallet(e: Env, txs: seq<Tx>, g: Graph, i: nat, x: Key): Wallet
    requires i < |txs|
  {
    var w, t := View(e, g, x), txs[i];
    if x == e.keyOf(t.source) then Wallet(i, w.balance - Charge(e, t), Push(w.tail, t.innerId)) else w
  }

  ghost function CreditedWallet(e: Env, t: Tx, x: Key, w: Wallet): Wallet {
    if x == e.keyOf(t.target) then w.(balance := w.balance + t.amount) else w
  }

  /** Index `i` is accepted: source charged and its inner id used up, the index put at the head of its
      list, target credited. */
  ghost predicate Accepts(e: Env, txs: seq<Tx>, g: Graph, g': Graph, i: nat) {
    && |g.list| == |g.status| == |txs| && i < |txs|
    && g'.list == g.list[i := View(e, g, e.keyOf(txs[i].source)).last]
    && g'.mask == g.mask
    && g'.status == g.status[i := Linked]
    && forall x: Key :: View(e, g', x) == CreditedWallet(e, txs[i], x, ChargedWallet(e, txs, g, i, x))
  }

  lemma AcceptKeeps(e: Env, txs: seq<Tx>, g: Graph, g': Graph, i: nat)
    requires Inv(e, txs, g) && Accepts(e, txs, g, g', i)
    requires forall j :: i <= j < |txs| ==> g.status[j].Idle?
    ensures Inv(e, txs, g'.(mask := g.mask[i := Recording(txs[i])]))
  {
    AcceptAccounts(e, txs, g, g', i);
    AcceptThreads(e, txs, g, g', i);
    MaskIsApart(e, txs, g', g.mask[i := Recording(txs[i])]);
  }

  lemma AcceptAccounts(e: Env, txs: seq<Tx>, g: Graph, g': Graph, i: nat)
    requires Accounted(e, txs, g) && Accepts(e, txs, g, g', i) && g.status[i].Idle?
    ensures Accounted(e, txs, g')
  {
    forall x: Key ensures Balance(e, g', x) == Seed(e, x).balance + Ledger(e, txs, g'.status, x, |txs|) {
      LedgerUpdate(e, txs, g.status, x, |txs|, i, Linked);
    }
  }

  /** Lists and ledger do not depend on the mask. */
  lemma MaskIsApart(e: Env, txs: seq<Tx>, g: Graph, mask: seq<Reason>)
    requires Threaded(e, txs, g) && Accounted(e, txs, g)
    ensures Threaded(e, txs, g.(mask := mask)) && Accounted(e, txs, g.(mask := mask))
  {
    var g' := g.(mask := mask);
    assert forall k: Key :: View(e, g', k) == View(e, g, k);
    forall k: Key ensures IsPrevious(e, txs, g'.status, k, |txs|, View(e, g', k).last) {
      assert View(e, g', k) == View(e, g, k);
    }
    forall k: Key ensures Balance(e, g', k) == Seed(e, k).balance + Ledger(e, txs, g'.status, k, |txs|) {
      assert View(e, g', k) == View(e, g, k) &&
        Balance(e, g, k) == Seed(e, k).balance + Ledger(e, txs, g.status, k, |txs|);
    }
  }

  lemma AcceptSpends(e: Env, txs: seq<Tx>, g: Graph, g': Graph, i: nat)
    requires InnerIdsSpent(e, txs, g) && Accepts(e, txs, g, g', i)
    requires forall j :: i <= j < |txs| ==> g.status[j].Idle?
    requires IsAllowed(View(e, g, e.keyOf(txs[i].source)).tail, txs[i].innerId)
    ensures InnerIdsSpent(e, txs, g')
  {
    var tail := View(e, g, e.keyOf(txs[i].source)).tail;
    forall id: int ensures !IsAllowed(tail, id) || id == txs[i].innerId ==> !IsAllowed(Push(tail, txs[i].innerId), id) {
      PushForbids(tail, txs[i].innerId, id);
    }
  }

  /** Accepting moves the amount, and from the source also the fee: the maximal one for a call or a transfer to a
      contract, the counted one otherwise. */
  lemma AcceptMoves(e: Env, txs: seq<Tx>, g: Graph, g': Graph, i: nat, k: Key)
    requires Accepts(e, txs, g, g', i)
    ensures var t := txs[i];
      Balance(e, g', k) == Balance(e, g, k)
        - (if e.keyOf(t.source) != k then 0
           else if t.executable || e.isContract(t.target) then t.amount + t.maxFee else t.amount + t.countedFee)
        + (if e.keyOf(t.target) == k then t.amount else 0)
  {
    assert View(e, g', k) == CreditedWallet(e, txs[i], k, ChargedWallet(e, txs, g, i, k));
  }

  /** Unlinking moves the amount back, and to the source the fee: the maximal one for a transfer to a contract, the
      counted one otherwise. */
  lemma UnlinkMoves(e: Env, txs: seq<Tx>, g: Graph, g': Graph, k: Key, ref: Ref, i: nat, x: Key)
    requires Unlinks(e, txs, g, g', k, ref, i)
    ensures var t := txs[i];
      Balance(e, g', x) == Balance(e, g, x)
        + (if x != k then 0 else if e.isContract(t.target) then t.amount + t.maxFee else t.amount + t.countedFee)
        - (if e.keyOf(t.target) == x then t.amount else 0)
  {
    assert View(e, g', x) == UnlinkedWallet(e, txs, g, k, ref, i, x);
  }

  /** The graph phase only turns linked transactions into rejected ones and never touches inner ids. */
  ghost predicate OnlyUnlinks(e: Env, g: Graph, g': Graph) {
    && |g.status| == |g'.status| == |g.mask| == |g'.mask|
    && (forall j :: 0 <= j < |g.status| ==>
         || (g'.status[j] == g.status[j] && g'.mask[j] == g.mask[j])
         || (g.status[j].Linked? && g'.status[j].Unlinked? && g'.mask[j] == NegativeResult))
    && forall x: Key :: View(e, g', x).tail == View(e, g, x).tail
  }

  /** Steps that keep the inner-id windows and accept nothing keep the inner ids spent. */
  lemma SpentStays(e: Env, txs: seq<Tx>, g: Graph, g': Graph)
    requires InnerIdsSpent(e, txs, g) && |g'.status| == |txs|
    requires forall x: Key :: View(e, g', x).tail == View(e, g, x).tail
    requires forall j :: 0 <= j < |txs| ==> WasAccepted(g'.status[j]) == WasAccepted(g.status[j])
    ensures InnerIdsSpent(e, txs, g')
  {
  }

  /** Recording a rejection of a transaction that was not accepted. */
  lemma RejectKeeps(e: Env, txs: seq<Tx>, g: Graph, i: nat, r: Reason)
    requires Inv(e, txs, g) && i < |txs| && g.status[i].Idle?
    ensures Inv(e, txs, g.(mask := g.mask[i := r]))
  {
    MaskIsApart(e, txs, g, g.mask[i := r]);
  }

  /** A contract-sourced call that its contract cannot pay is charged but neither linked nor credited. */
  ghost predicate Strands(e: Env, txs: seq<Tx>, g: Graph, g': Graph, i: nat) {
    && |g.list| == |g.status| == |txs| && i < |txs|
    && g'.list == g.list && g'.status == g.status[i := Stranded]
    && forall x: Key :: View(e, g', x)
         == View(e, g, x).(balance := Balance(e, g, x) - if x == e.keyOf(txs[i].source) then Charge(e, txs[i]) else 0)
  }

  lemma StrandKeeps(e: Env, txs: seq<Tx>, g: Graph, g': Graph, i: nat)
    requires Inv(e, txs, g) && Strands(e, txs, g, g', i) && g.status[i].Idle?
    requires g'.mask == g.mask[i := NegativeResult] && txs[i].executable && e.isContract(txs[i].source)
    ensures Inv(e, txs, g')
  {
    forall x: Key ensures Balance(e, g', x) == Seed(e, x).balance + Ledger(e, txs, g'.status, x, |txs|) {
      LedgerUpdate(e, txs, g.status, x, |txs|, i, Stranded);
    }
    assert forall x: Key, j :: On(e, txs, g'.status, x, j) <==> On(e, txs, g.status, x, j);
    forall x: Key ensures IsPrevious(e, txs, g'.status, x, |txs|, View(e, g', x).last) {
      assert IsPrevious(e, txs, g.status, x, |txs|, View(e, g, x).last);
    }
    forall j | 0 <= j < |txs| && g'.status[j].Linked?
      ensures IsPrevious(e, txs, g'.status, e.keyOf(txs[j].source), j, g'.list[j])
    {
    }
  }

  lemma AcceptThreads(e: Env, txs: seq<Tx>, g: Graph, g': Graph, i: nat)
    requires Threaded(e, txs, g) && Accepts(e, txs, g, g', i)
    requires forall j :: i <= j < |txs| ==> g.status[j].Idle?
    ensures Threaded(e, txs, g')
  {
    var s := e.keyOf(txs[i].source);
    assert forall x: Key, j :: On(e, txs, g'.status, x, j) <==> On(e, txs, g.status, x, j) || (x == s && j == i);
    forall x: Key ensures IsPrevious(e, txs, g'.status, x, |txs|, View(e, g', x).last) {
      assert IsPrevious(e, txs, g.status, x, |txs|, View(e, g, x).last);
    }
    forall j | 0 <= j < |txs| && g'.status[j].Linked?
      ensures IsPrevious(e, txs, g'.status, e.keyOf(txs[j].source), j, g'.list[j])
    {
      assert IsPrevious(e, txs, g.status, s, |txs|, View(e, g, s).last);
    }
  }
}
