/** Which transactions of an indebted wallet the graph phase gives up: four passes, from the mildest to the hardest. */
module GraphPasses {
  import opened Addresses
  import opened GraphLedger

  /** Index `j` is on `k`'s list, its refund reaches `debt` and, if asked, unlinking it leaves its target
      at zero or above. */
  ghost predicate Eligible(e: Env, txs: seq<Tx>, g: Graph, k: Key, debt: int, sparing: bool, j: int) {
    On(e, txs, g.status, k, j) && Refund(e, txs[j]) >= debt && (sparing ==> Harmless(e, txs, g, j))
  }

  /** Unlinking index `j` leaves its target at zero or above. */
  ghost predicate Harmless(e: Env, txs: seq<Tx>, g: Graph, j: int) {
    0 <= j < |txs| && txs[j].amount <= Balance(e, g, e.keyOf(txs[j].target))
  }

  ghost predicate NoneEligible(e: Env, txs: seq<Tx>, g: Graph, k: Key, debt: int, sparing: bool) {
    forall j :: !Eligible(e, txs, g, k, debt, sparing, j)
  }

  ghost predicate Newest(e: Env, txs: seq<Tx>, g: Graph, k: Key, debt: int, sparing: bool, i: int) {
    Eligible(e, txs, g, k, debt, sparing, i) && forall j :: i < j ==> !Eligible(e, txs, g, k, debt, sparing, j)
  }

  /** Index `i` leaves `k`'s list and nothing else is decided. */
  ghost predicate Drops(e: Env, txs: seq<Tx>, g: Graph, g': Graph, k: Key, i: nat) {
    && i < |txs| && |g.status| == |g.mask| == |txs|
    && g'.status == g.status[i := Unlinked] && g'.mask == g.mask[i := NegativeResult]
    && forall x: Key ::
         && View(e, g', x).tail == View(e, g, x).tail
         && Balance(e, g', x)
            == Balance(e, g, x) + (if x == k then Refund(e, txs[i]) else 0)
                                - (if x == e.keyOf(txs[i].target) then txs[i].amount else 0)
  }

  /** What the two tests are for: a harmless index is one whose target stays solvent, and one whose refund reaches the
      debt is one that lifts its wallet to zero or above. */
  lemma TestsMean(e: Env, txs: seq<Tx>, g: Graph, g': Graph, k: Key, i: nat)
    requires Drops(e, txs, g, g', k, i) && e.keyOf(txs[i].target) != k
    ensures Harmless(e, txs, g, i) <==> Balance(e, g', e.keyOf(txs[i].target)) >= 0
    ensures Refund(e, txs[i]) >= -Balance(e, g, k) <==> Balance(e, g', k) >= 0
  {
  }

  // ----- a list of indices given up in turn

  ghost predicate Indices(txs: seq<Tx>, d: seq<int>) {
    forall i :: 0 <= i < |d| ==> 0 <= d[i] < |txs|
  }

  /** What wallet `x` holds after `k` has given up the indices `d`. */
  ghost function After(e: Env, txs: seq<Tx>, g: Graph, k: Key, d: seq<int>, x: Key): int
    requires Indices(txs, d)
  {
    if d == [] then Balance(e, g, x)
    else
      var t := txs[d[|d| - 1]];
      After(e, txs, g, k, d[..|d| - 1], x) + (if x == k then Refund(e, t) else 0)
                                           - (if x == e.keyOf(t.target) then t.amount else 0)
  }

  lemma AfterOneMore(e: Env, txs: seq<Tx>, g: Graph, k: Key, d: seq<int>, i: nat, x: Key)
    requires Indices(txs, d) && i < |txs|
    ensures Indices(txs, d + [i])
    ensures After(e, txs, g, k, d + [i], x)
      == After(e, txs, g, k, d, x) + (if x == k then Refund(e, txs[i]) else 0)
                                   - (if x == e.keyOf(txs[i].target) then txs[i].amount else 0)
  {
    assert (d + [i])[..|d|] == d;
  }

  /** All of `d` are gone from `k`'s list and nothing else is decided. */
  ghost predicate DropsAll(e: Env, txs: seq<Tx>, g: Graph, g': Graph, k: Key, d: seq<int>) {
    && Indices(txs, d) && |g.status| == |g.mask| == |g'.status| == |g'.mask| == |txs|
    && (forall j :: 0 <= j < |txs| ==>
          && g'.status[j] == (if j in d then Unlinked else g.status[j])
          && g'.mask[j] == (if j in d then NegativeResult else g.mask[j]))
    && forall x: Key ::
         View(e, g', x).tail == View(e, g, x).tail && Balance(e, g', x) == After(e, txs, g, k, d, x)
  }

  lemma DropsNothing(e: Env, txs: seq<Tx>, g: Graph, g': Graph, k: Key)
    requires |g.status| == |g.mask| == |txs| && SameView(e, g, g')
    ensures DropsAll(e, txs, g, g', k, [])
  {
  }

  lemma DropsStay(e: Env, txs: seq<Tx>, g: Graph, g1: Graph, g2: Graph, k: Key, d: seq<int>)
    requires DropsAll(e, txs, g, g1, k, d) && SameView(e, g1, g2)
    ensures DropsAll(e, txs, g, g2, k, d)
  {
  }

  lemma DropsOneMore(e: Env, txs: seq<Tx>, g: Graph, g1: Graph, g2: Graph, k: Key, d: seq<int>, i: nat)
    requires DropsAll(e, txs, g, g1, k, d) && Drops(e, txs, g1, g2, k, i)
    ensures DropsAll(e, txs, g, g2, k, d + [i])
  {
    forall x: Key ensures Balance(e, g2, x) == After(e, txs, g, k, d + [i], x) {
      AfterOneMore(e, txs, g, k, d, i, x);
    }
  }

  lemma DropsTheOne(e: Env, txs: seq<Tx>, g: Graph, g': Graph, k: Key, i: nat)
    requires |g.status| == |g.mask| == |txs| && i < |txs|
    ensures Drops(e, txs, g, g', k, i) <==> DropsAll(e, txs, g, g', k, [i])
  {
    forall x: Key ensures After(e, txs, g, k, [i], x)
      == Balance(e, g, x) + (if x == k then Refund(e, txs[i]) else 0)
                          - (if x == e.keyOf(txs[i].target) then txs[i].amount else 0)
    {
      AfterOneMore(e, txs, g, k, [], i, x);
      assert [] + [i] == [i];
    }
  }

  lemma OnAfter(e: Env, txs: seq<Tx>, g: Graph, g': Graph, k: Key, d: seq<int>, j: int)
    requires DropsAll(e, txs, g, g', k, d)
    ensures On(e, txs, g'.status, k, j) <==> On(e, txs, g.status, k, j) && j !in d
  {
  }

  // ----- the passes as choices

  /** Eligible once `d` are gone. */
  ghost predicate EligibleAfter(e: Env, txs: seq<Tx>, g: Graph, k: Key, d: seq<int>, sparing: bool, j: int)
    requires Indices(txs, d)
  {
    && On(e, txs, g.status, k, j) && j !in d && Refund(e, txs[j]) >= -After(e, txs, g, k, d, k)
    && (sparing ==> txs[j].amount <= After(e, txs, g, k, d, e.keyOf(txs[j].target)))
  }

  lemma EligibleThen(e: Env, txs: seq<Tx>, g: Graph, g': Graph, k: Key, d: seq<int>, sparing: bool, j: int)
    requires DropsAll(e, txs, g, g', k, d)
    ensures EligibleAfter(e, txs, g, k, d, sparing, j) <==> Eligible(e, txs, g', k, -Balance(e, g', k), sparing, j)
  {
    OnAfter(e, txs, g, g', k, d, j);
  }

  /** The newest eligible index below `n`. */
  ghost function NewestBelow(e: Env, txs: seq<Tx>, g: Graph, k: Key, d: seq<int>, sparing: bool, n: nat): int
    requires n <= |txs| && Indices(txs, d)
  {
    if n == 0 then NO_IND
    else if EligibleAfter(e, txs, g, k, d, sparing, n - 1) then n - 1
    else NewestBelow(e, txs, g, k, d, sparing, n - 1)
  }

  lemma {:induction false} NewestBelowIs(e: Env, txs: seq<Tx>, g: Graph, k: Key, d: seq<int>, sparing: bool, n: nat)
    requires n <= |txs| && Indices(txs, d)
    ensures var i := NewestBelow(e, txs, g, k, d, sparing, n);
      && NO_IND <= i < n && (i != NO_IND ==> EligibleAfter(e, txs, g, k, d, sparing, i))
      && forall j :: i < j < n ==> !EligibleAfter(e, txs, g, k, d, sparing, j)
  {
    hide EligibleAfter;
    if n == 0 {
    } else {
      NewestBelowIs(e, txs, g, k, d, sparing, n - 1);
    }
  }

  /** The one the search finds, if it finds one. */
  lemma FoundIsNewest(e: Env, txs: seq<Tx>, g: Graph, g': Graph, k: Key, d: seq<int>, debt: int, sparing: bool, i: int)
    requires Indices(txs, d) && DropsAll(e, txs, g, g', k, d) && NO_IND <= i && debt == -Balance(e, g', k)
    requires if i == NO_IND then NoneEligible(e, txs, g', k, debt, sparing)
             else Newest(e, txs, g', k, debt, sparing, i)
    ensures NewestBelow(e, txs, g, k, d, sparing, |txs|) == i
  {
    hide DropsAll, Eligible, EligibleAfter, After, NewestBelow;
    NewestBelowIs(e, txs, g, k, d, sparing, |txs|);
    EligibleThen(e, txs, g, g', k, d, sparing, i);
    EligibleThen(e, txs, g, g', k, d, sparing, NewestBelow(e, txs, g, k, d, sparing, |txs|));
    EligibleInRange(e, txs, g, k, d, sparing, i);
  }

  lemma EligibleInRange(e: Env, txs: seq<Tx>, g: Graph, k: Key, d: seq<int>, sparing: bool, i: int)
    requires Indices(txs, d)
    ensures EligibleAfter(e, txs, g, k, d, sparing, i) ==> 0 <= i < |txs|
  {
  }

  /** Index `j` is given up by a pass over the list that has given up `d` so far. */
  ghost predicate GivenUp(e: Env, txs: seq<Tx>, g: Graph, k: Key, d: seq<int>, sparing: bool, j: int)
    requires Indices(txs, d)
  {
    && On(e, txs, g.status, k, j) && j !in d
    && (sparing ==> txs[j].amount <= After(e, txs, g, k, d, e.keyOf(txs[j].target)))
  }

  /** A pass over the indices below `n`, newest first, until the wallet is not negative. */
  ghost function Swept(e: Env, txs: seq<Tx>, g: Graph, k: Key, d: seq<int>, sparing: bool, n: nat): (r: seq<int>)
    requires n <= |txs| && Indices(txs, d)
    ensures Indices(txs, r) && d <= r
    decreases n
  {
    if n == 0 || After(e, txs, g, k, d, k) >= 0 then d
    else if GivenUp(e, txs, g, k, d, sparing, n - 1) then Swept(e, txs, g, k, d + [n - 1], sparing, n - 1)
    else Swept(e, txs, g, k, d, sparing, n - 1)
  }

  lemma SweptUnfolds(e: Env, txs: seq<Tx>, g: Graph, k: Key, d: seq<int>, sparing: bool, n: nat)
    requires n <= |txs| && Indices(txs, d)
    ensures var r := Swept(e, txs, g, k, d, sparing, n);
      if n == 0 || After(e, txs, g, k, d, k) >= 0 then r == d
      else if GivenUp(e, txs, g, k, d, sparing, n - 1) then
        Indices(txs, d + [n - 1]) && r == Swept(e, txs, g, k, d + [n - 1], sparing, n - 1)
      else r == Swept(e, txs, g, k, d, sparing, n - 1)
  {
    hide After, GivenUp;
  }

  /** A pass adds indices below `n`, newer ones first. */
  lemma {:induction false} SweptFalls(e: Env, txs: seq<Tx>, g: Graph, k: Key, d: seq<int>, sparing: bool, n: nat)
    requires n <= |txs| && Indices(txs, d)
    ensures var r := Swept(e, txs, g, k, d, sparing, n);
      (forall i :: |d| <= i < |r| ==> r[i] < n) && forall i, j :: |d| <= i < j < |r| ==> r[j] < r[i]
    decreases n
  {
    hide After, GivenUp, Swept;
    SweptUnfolds(e, txs, g, k, d, sparing, n);
    if n == 0 || After(e, txs, g, k, d, k) >= 0 {
    } else if GivenUp(e, txs, g, k, d, sparing, n - 1) {
      SweptFalls(e, txs, g, k, d + [n - 1], sparing, n - 1);
      assert Swept(e, txs, g, k, d, sparing, n)[|d|] == n - 1;
    } else {
      SweptFalls(e, txs, g, k, d, sparing, n - 1);
    }
  }

  /** The indices of a list that are newer than `j`. */
  ghost function Newer(s: seq<int>, j: int): (r: seq<int>)
    ensures forall x :: x in r ==> x in s
  {
    if s == [] then [] else (if s[0] > j then [s[0]] else []) + Newer(s[1..], j)
  }

  lemma {:induction false} NoneNewer(s: seq<int>, j: int)
    requires forall i :: 0 <= i < |s| ==> s[i] <= j
    ensures Newer(s, j) == []
  {
    if s == [] {
    } else {
      NoneNewer(s[1..], j);
    }
  }

  /** What was given up before index `j` was looked at. */
  ghost function Before(txs: seq<Tx>, r: seq<int>, from: nat, j: int): (b: seq<int>)
    requires from <= |r| && Indices(txs, r)
    ensures Indices(txs, b)
  {
    assert forall x :: x in r ==> 0 <= x < |txs|;
    var b := r[..from] + Newer(r[from..], j);
    assert forall x :: x in b ==> x in r;
    assert forall i :: 0 <= i < |b| ==> b[i] in b;
    b
  }

  /** What a pass stands for: an index is given up if and only if the wallet is still negative when it is looked at, and
      it may be given up at that point. */
  lemma {:induction false} SweptIff(e: Env, txs: seq<Tx>, g: Graph, k: Key, d: seq<int>, sparing: bool, n: nat, j: nat)
    requires j < n <= |txs| && Indices(txs, d) && j !in d
    ensures var r := Swept(e, txs, g, k, d, sparing, n);
      var b := Before(txs, r, |d|, j);
      j in r <==> After(e, txs, g, k, b, k) < 0 && GivenUp(e, txs, g, k, b, sparing, j)
    decreases n
  {
    hide After, GivenUp, Swept, Before;
    SweptUnfolds(e, txs, g, k, d, sparing, n);
    var r := Swept(e, txs, g, k, d, sparing, n);
    SweptFalls(e, txs, g, k, d, sparing, n);
    if After(e, txs, g, k, d, k) >= 0 {
      BeforeAll(txs, r, d, j);
    } else if j == n - 1 {
      BeforeAll(txs, r, d, j);
      if GivenUp(e, txs, g, k, d, sparing, j) {
        assert r[|d|] == j;
      } else {
        SweptFalls(e, txs, g, k, d, sparing, n - 1);
      }
    } else if GivenUp(e, txs, g, k, d, sparing, n - 1) {
      SweptIff(e, txs, g, k, d + [n - 1], sparing, n - 1, j);
      BeforeShifts(txs, r, d, n - 1, j);
    } else {
      SweptIff(e, txs, g, k, d, sparing, n - 1, j);
    }
  }

  lemma BeforeAll(txs: seq<Tx>, r: seq<int>, d: seq<int>, j: int)
    requires d <= r && Indices(txs, r) && forall i :: |d| <= i < |r| ==> r[i] <= j
    ensures Before(txs, r, |d|, j) == d
  {
    NoneNewer(r[|d|..], j);
  }

  lemma BeforeShifts(txs: seq<Tx>, r: seq<int>, d: seq<int>, i: int, j: int)
    requires d + [i] <= r && Indices(txs, r) && i > j
    ensures Before(txs, r, |d|, j) == Before(txs, r, |d| + 1, j)
  {
    assert r[|d|..][0] == i && r[|d|..][1..] == r[|d| + 1..];
    assert r[..|d| + 1] == r[..|d|] + [i];
  }

  // ----- a pass under way

  /** `d` are given up and every index from `n` on has been looked at. */
  ghost predicate Sweeping(e: Env, txs: seq<Tx>, g: Graph, g': Graph, k: Key, d: seq<int>, sparing: bool, n: int) {
    && 0 <= n <= |txs| && DropsAll(e, txs, g, g', k, d)
    && Swept(e, txs, g, k, [], sparing, |txs|) == Swept(e, txs, g, k, d, sparing, n)
    && forall i :: 0 <= i < |d| ==> d[i] >= n
  }

  lemma SweepStart(e: Env, txs: seq<Tx>, g: Graph, k: Key, sparing: bool, last: int)
    requires |g.status| == |g.mask| == |txs| && IsPrevious(e, txs, g.status, k, |txs|, last)
    ensures Sweeping(e, txs, g, g, k, [], sparing, last + 1)
  {
    hide Swept;
    DropsNothing(e, txs, g, g, k);
    SweptGap(e, txs, g, k, [], sparing, |txs|, last + 1);
  }

  /** Indices that are not on the list, or gone, are passed over. */
  lemma {:induction false} SweptGap(e: Env, txs: seq<Tx>, g: Graph, k: Key, d: seq<int>, sparing: bool, n: nat, m: nat)
    requires m <= n <= |txs| && Indices(txs, d)
    requires forall j :: m <= j < n ==> !On(e, txs, g.status, k, j) || j in d
    ensures Swept(e, txs, g, k, d, sparing, n) == Swept(e, txs, g, k, d, sparing, m)
    decreases n
  {
    hide After, Swept;
    SweptUnfolds(e, txs, g, k, d, sparing, n);
    SweptUnfolds(e, txs, g, k, d, sparing, m);
    if m == n {
    } else {
      SweptGap(e, txs, g, k, d, sparing, n - 1, m);
    }
  }

  /** From index `i`, looked at, to the next one on the list. */
  lemma SweepOn(e: Env, txs: seq<Tx>, g: Graph, g': Graph, k: Key, d: seq<int>, sparing: bool, i: nat, next: int)
    requires Sweeping(e, txs, g, g', k, d, sparing, i) && IsPrevious(e, txs, g'.status, k, i, next)
    ensures Sweeping(e, txs, g, g', k, d, sparing, next + 1)
  {
    hide Swept, After;
    forall j | next + 1 <= j < i ensures !On(e, txs, g.status, k, j) || j in d {
      OnAfter(e, txs, g, g', k, d, j);
    }
    SweptGap(e, txs, g, k, d, sparing, i, next + 1);
  }

  lemma SweepSkips(e: Env, txs: seq<Tx>, g: Graph, g1: Graph, g2: Graph, k: Key, d: seq<int>, i: nat)
    requires Sweeping(e, txs, g, g1, k, d, true, i + 1) && SameView(e, g1, g2)
    requires Balance(e, g1, k) < 0 && !Harmless(e, txs, g1, i)
    ensures Sweeping(e, txs, g, g2, k, d, true, i)
  {
    hide Swept;
    DropsStay(e, txs, g, g1, g2, k, d);
    SweptUnfolds(e, txs, g, k, d, true, i + 1);
  }

  lemma SweepDrops(e: Env, txs: seq<Tx>, g: Graph, g1: Graph, g2: Graph, k: Key, d: seq<int>, sparing: bool, i: nat)
    requires Sweeping(e, txs, g, g1, k, d, sparing, i + 1) && Drops(e, txs, g1, g2, k, i)
    requires Balance(e, g1, k) < 0 && On(e, txs, g1.status, k, i) && (sparing ==> Harmless(e, txs, g1, i))
    ensures Sweeping(e, txs, g, g2, k, d + [i], sparing, i)
  {
    hide Swept;
    DropsOneMore(e, txs, g, g1, g2, k, d, i);
    OnAfter(e, txs, g, g1, k, d, i);
    SweptUnfolds(e, txs, g, k, d, sparing, i + 1);
  }

  lemma SweepEnds(e: Env, txs: seq<Tx>, g: Graph, g': Graph, k: Key, d: seq<int>, sparing: bool, n: int)
    requires Sweeping(e, txs, g, g', k, d, sparing, n) && (n == 0 || Balance(e, g', k) >= 0)
    ensures d == Swept(e, txs, g, k, [], sparing, |txs|) && DropsAll(e, txs, g, g', k, d)
  {
    hide Swept;
    SweptUnfolds(e, txs, g, k, d, sparing, n);
  }

  // ----- all four

  /** The targets that are in debt after their index was given up, from the `from`-th on. */
  ghost function Pushed(e: Env, txs: seq<Tx>, g: Graph, k: Key, d: seq<int>, from: nat): (ks: seq<Key>)
    requires Indices(txs, d)
  {
    if |d| <= from then []
    else
      var target := e.keyOf(txs[d[|d| - 1]].target);
      Pushed(e, txs, g, k, d[..|d| - 1], from) + if After(e, txs, g, k, d, target) < 0 then [target] else []
  }

  datatype Plan = Plan(drops: seq<int>, pushed: seq<Key>, done: bool)

  /** What is given up for an indebted wallet: the newest index that lifts it alone and hurts nobody; otherwise all that
      hurt nobody, newest first, until it is lifted; if that is not enough, the newest that then lifts it alone; and
      otherwise one after the other. Only the last two can put other wallets on the stack. */
  ghost function Escalation(e: Env, txs: seq<Tx>, g: Graph, k: Key): (p: Plan)
    ensures Indices(txs, p.drops)
  {
    var n := |txs|;
    var one, all := NewestBelow(e, txs, g, k, [], true, n), Swept(e, txs, g, k, [], true, n);
    var curing, rest := NewestBelow(e, txs, g, k, all, false, n), Swept(e, txs, g, k, all, false, n);
    NewestBelowIs(e, txs, g, k, [], true, n);
    NewestBelowIs(e, txs, g, k, all, false, n);
    if Balance(e, g, k) >= 0 then Plan([], [], true)
    else if one != NO_IND then Plan([one], [], true)
    else if After(e, txs, g, k, all, k) >= 0 then Plan(all, [], true)
    else if curing != NO_IND then Plan(all + [curing], Pushed(e, txs, g, k, all + [curing], |all|), true)
    else Plan(rest, Pushed(e, txs, g, k, rest, |all|), After(e, txs, g, k, rest, k) >= 0)
  }

  ghost predicate Escalates(e: Env, txs: seq<Tx>, g: Graph, stack: seq<Key>, g': Graph, stack': seq<Key>, k: Key,
    done: bool)
  {
    var p := Escalation(e, txs, g, k);
    DropsAll(e, txs, g, g', k, p.drops) && stack' == stack + p.pushed && done == p.done
  }

  /** An index that lifts the wallet alone and hurts nobody: exactly the newest such goes, and nobody is put on the
      stack. */
  lemma MildestFirst(e: Env, txs: seq<Tx>, g: Graph, stack: seq<Key>, g': Graph, stack': seq<Key>, k: Key, done: bool,
    i: nat)
    requires Escalates(e, txs, g, stack, g', stack', k, done) && |g.status| == |g.mask| == |txs|
    requires Balance(e, g, k) < 0 && Newest(e, txs, g, k, -Balance(e, g, k), true, i)
    ensures Drops(e, txs, g, g', k, i) && stack' == stack && done
  {
    hide Swept, NewestBelow, After, Eligible, Drops;
    DropsNothing(e, txs, g, g, k);
    FoundIsNewest(e, txs, g, g, k, [], -Balance(e, g, k), true, i);
    InRange(e, txs, g, k, -Balance(e, g, k), true, i);
    DropsTheOne(e, txs, g, g', k, i);
  }

  lemma InRange(e: Env, txs: seq<Tx>, g: Graph, k: Key, debt: int, sparing: bool, i: int)
    requires Eligible(e, txs, g, k, debt, sparing, i)
    ensures 0 <= i < |txs|
  {
  }

  lemma NewestExists(e: Env, txs: seq<Tx>, g: Graph, k: Key, sparing: bool, j: int) returns (i: nat)
    requires |g.status| == |g.mask| == |txs| && Eligible(e, txs, g, k, -Balance(e, g, k), sparing, j)
    ensures Newest(e, txs, g, k, -Balance(e, g, k), sparing, i)
  {
    hide NewestBelow, After, Eligible, EligibleAfter;
    DropsNothing(e, txs, g, g, k);
    InRange(e, txs, g, k, -Balance(e, g, k), sparing, j);
    NewestBelowIs(e, txs, g, k, [], sparing, |txs|);
    EligibleThen(e, txs, g, g, k, [], sparing, j);
    var best := NewestBelow(e, txs, g, k, [], sparing, |txs|);
    i := best;
    var debt := -Balance(e, g, k);
    forall x | i < x ensures !Eligible(e, txs, g, k, debt, sparing, x) {
      EligibleThen(e, txs, g, g, k, [], sparing, x);
      EligibleInRange(e, txs, g, k, [], sparing, x);
    }
    EligibleThen(e, txs, g, g, k, [], sparing, i);
  }

  /** Others are put on the stack only if giving up all that hurts nobody leaves the wallet negative. */
  lemma OthersOnlyIfNeeded(e: Env, txs: seq<Tx>, g: Graph, stack: seq<Key>, g': Graph, stack': seq<Key>, k: Key,
    done: bool)
    requires Escalates(e, txs, g, stack, g', stack', k, done)
    ensures stack' != stack ==> After(e, txs, g, k, Swept(e, txs, g, k, [], true, |txs|), k) < 0
  {
  }

  /** No index lifts the wallet alone without hurting anybody, but all that hurt nobody do so together. */
  lemma MildOnesTogether(e: Env, txs: seq<Tx>, g: Graph, stack: seq<Key>, g': Graph, stack': seq<Key>, k: Key,
    done: bool)
    requires Escalates(e, txs, g, stack, g', stack', k, done) && |g.status| == |g.mask| == |txs|
    requires Balance(e, g, k) < 0 && NoneEligible(e, txs, g, k, -Balance(e, g, k), true)
    requires After(e, txs, g, k, Swept(e, txs, g, k, [], true, |txs|), k) >= 0
    ensures DropsAll(e, txs, g, g', k, Swept(e, txs, g, k, [], true, |txs|)) && stack' == stack && done
  {
    hide Swept, NewestBelow, After, Eligible;
    DropsNothing(e, txs, g, g, k);
    FoundIsNewest(e, txs, g, g, k, [], -Balance(e, g, k), true, NO_IND);
  }

  /** If they do not, and `mid` is the state without them, a single further index goes whenever one lifts the wallet
      alone: the newest such. Its target is put on the stack if it is then in debt. */
  lemma OneCures(e: Env, txs: seq<Tx>, g: Graph, stack: seq<Key>, g': Graph, stack': seq<Key>, k: Key, done: bool,
    mid: Graph, i: nat)
    requires Escalates(e, txs, g, stack, g', stack', k, done) && |g.status| == |g.mask| == |txs|
    requires Balance(e, g, k) < 0 && NoneEligible(e, txs, g, k, -Balance(e, g, k), true)
    requires DropsAll(e, txs, g, mid, k, Swept(e, txs, g, k, [], true, |txs|))
    requires Balance(e, mid, k) < 0 && Newest(e, txs, mid, k, -Balance(e, mid, k), false, i)
    ensures Drops(e, txs, mid, g', k, i) && done
    ensures var target := e.keyOf(txs[i].target); stack' == stack + if Balance(e, g', target) < 0 then [target] else []
  {
    hide Swept, NewestBelow, Eligible, Drops, DropsAll, After, Escalation, Pushed, Balance;
    var all := Swept(e, txs, g, k, [], true, |txs|);
    DropsNothing(e, txs, g, g, k);
    FoundIsNewest(e, txs, g, g, k, [], -Balance(e, g, k), true, NO_IND);
    FoundIsNewest(e, txs, g, mid, k, all, -Balance(e, mid, k), false, i);
    InRange(e, txs, mid, k, -Balance(e, mid, k), false, i);
    Holds(e, txs, g, mid, k, all, k);
    CuringPlan(e, txs, g, k, i);
    DropsLast(e, txs, g, mid, g', k, all, i);
    PushedLast(e, txs, g, k, all, i);
    Holds(e, txs, g, g', k, all + [i], e.keyOf(txs[i].target));
  }

  lemma Holds(e: Env, txs: seq<Tx>, g: Graph, g': Graph, k: Key, d: seq<int>, x: Key)
    requires DropsAll(e, txs, g, g', k, d)
    ensures Indices(txs, d) && Balance(e, g', x) == After(e, txs, g, k, d, x)
  {
  }

  lemma CuringPlan(e: Env, txs: seq<Tx>, g: Graph, k: Key, i: nat)
    requires i < |txs| && Balance(e, g, k) < 0 && NewestBelow(e, txs, g, k, [], true, |txs|) == NO_IND
    requires var all := Swept(e, txs, g, k, [], true, |txs|);
      After(e, txs, g, k, all, k) < 0 && NewestBelow(e, txs, g, k, all, false, |txs|) == i
    ensures var all := Swept(e, txs, g, k, [], true, |txs|);
      && Indices(txs, all + [i])
      && Escalation(e, txs, g, k) == Plan(all + [i], Pushed(e, txs, g, k, all + [i], |all|), true)
  {
    hide Swept, NewestBelow, After, Pushed, Balance;
  }

  lemma LastPlan(e: Env, txs: seq<Tx>, g: Graph, k: Key)
    requires Balance(e, g, k) < 0 && NewestBelow(e, txs, g, k, [], true, |txs|) == NO_IND
    requires var all := Swept(e, txs, g, k, [], true, |txs|);
      After(e, txs, g, k, all, k) < 0 && NewestBelow(e, txs, g, k, all, false, |txs|) == NO_IND
    ensures var all := Swept(e, txs, g, k, [], true, |txs|);
      var rest := Swept(e, txs, g, k, all, false, |txs|);
      Escalation(e, txs, g, k)
      == Plan(rest, Pushed(e, txs, g, k, rest, |all|), After(e, txs, g, k, rest, k) >= 0)
  {
    hide Swept, NewestBelow, After, Pushed, Balance;
  }

  lemma DropsLast(e: Env, txs: seq<Tx>, g: Graph, g1: Graph, g2: Graph, k: Key, d: seq<int>, i: nat)
    requires i < |txs| && DropsAll(e, txs, g, g1, k, d) && DropsAll(e, txs, g, g2, k, d + [i])
    ensures Drops(e, txs, g1, g2, k, i)
  {
    hide After;
    forall x: Key ensures After(e, txs, g, k, d + [i], x)
      == After(e, txs, g, k, d, x) + (if x == k then Refund(e, txs[i]) else 0)
                                   - (if x == e.keyOf(txs[i].target) then txs[i].amount else 0)
    {
      AfterOneMore(e, txs, g, k, d, i, x);
    }
  }

  lemma PushedLast(e: Env, txs: seq<Tx>, g: Graph, k: Key, d: seq<int>, i: nat)
    requires Indices(txs, d) && i < |txs|
    ensures Indices(txs, d + [i])
    ensures var target := e.keyOf(txs[i].target);
      Pushed(e, txs, g, k, d + [i], |d|) == if After(e, txs, g, k, d + [i], target) < 0 then [target] else []
  {
    hide After;
    assert (d + [i])[..|d|] == d;
  }

  lemma PushedMore(e: Env, txs: seq<Tx>, g: Graph, k: Key, d: seq<int>, from: nat, i: nat)
    requires Indices(txs, d) && i < |txs| && from <= |d|
    ensures Indices(txs, d + [i])
    ensures var target := e.keyOf(txs[i].target);
      Pushed(e, txs, g, k, d + [i], from)
        == Pushed(e, txs, g, k, d, from) + if After(e, txs, g, k, d + [i], target) < 0 then [target] else []
  {
    hide After;
    assert (d + [i])[..|d|] == d;
  }

  // ----- a pass seen from an earlier state

  lemma {:induction false} AfterThen(e: Env, txs: seq<Tx>, g: Graph, g': Graph, k: Key, d: seq<int>, d': seq<int>,
    x: Key)
    requires DropsAll(e, txs, g, g', k, d) && Indices(txs, d')
    ensures Indices(txs, d + d') && After(e, txs, g, k, d + d', x) == After(e, txs, g', k, d', x)
    decreases |d'|
  {
    if d' == [] {
      assert d + d' == d;
    } else {
      var n := |d'| - 1;
      AfterThen(e, txs, g, g', k, d, d'[..n], x);
      AfterOneMore(e, txs, g, k, d + d'[..n], d'[n], x);
      assert d + d' == (d + d'[..n]) + [d'[n]];
    }
  }

  lemma GivenUpThen(e: Env, txs: seq<Tx>, g: Graph, g': Graph, k: Key, d: seq<int>, d': seq<int>, sparing: bool, j: int)
    requires DropsAll(e, txs, g, g', k, d) && Indices(txs, d')
    ensures Indices(txs, d + d')
    ensures GivenUp(e, txs, g, k, d + d', sparing, j) <==> GivenUp(e, txs, g', k, d', sparing, j)
  {
    hide After;
    OnAfter(e, txs, g, g', k, d, j);
    if 0 <= j < |txs| {
      AfterThen(e, txs, g, g', k, d, d', e.keyOf(txs[j].target));
    } else {
      AfterThen(e, txs, g, g', k, d, d', k);
    }
  }

  lemma {:induction false} SweptThen(e: Env, txs: seq<Tx>, g: Graph, g': Graph, k: Key, d: seq<int>, d': seq<int>,
    sparing: bool, n: nat)
    requires n <= |txs| && DropsAll(e, txs, g, g', k, d) && Indices(txs, d')
    ensures Indices(txs, d + d') && Swept(e, txs, g, k, d + d', sparing, n) == d + Swept(e, txs, g', k, d', sparing, n)
    decreases n
  {
    hide DropsAll, After, Swept, GivenUp;
    AfterThen(e, txs, g, g', k, d, d', k);
    SweptUnfolds(e, txs, g', k, d', sparing, n);
    SweptUnfolds(e, txs, g, k, d + d', sparing, n);
    if n == 0 || After(e, txs, g', k, d', k) >= 0 {
    } else {
      GivenUpThen(e, txs, g, g', k, d, d', sparing, n - 1);
      if GivenUp(e, txs, g', k, d', sparing, n - 1) {
        assert (d + d') + [n - 1] == d + (d' + [n - 1]);
        SweptThen(e, txs, g, g', k, d, d' + [n - 1], sparing, n - 1);
      } else {
        SweptThen(e, txs, g, g', k, d, d', sparing, n - 1);
      }
    }
  }

  lemma {:induction false} PushedThen(e: Env, txs: seq<Tx>, g: Graph, g': Graph, k: Key, d: seq<int>, d': seq<int>)
    requires DropsAll(e, txs, g, g', k, d) && Indices(txs, d')
    ensures Indices(txs, d + d') && Pushed(e, txs, g, k, d + d', |d|) == Pushed(e, txs, g', k, d', 0)
    decreases |d'|
  {
    hide DropsAll, After;
    if d' == [] {
      assert d + d' == d;
      DropsInRange(e, txs, g, g', k, d);
    } else {
      var n := |d'| - 1;
      PushedThen(e, txs, g, g', k, d, d'[..n]);
      AfterThen(e, txs, g, g', k, d, d', e.keyOf(txs[d'[n]].target));
      assert (d + d')[..|d + d'| - 1] == d + d'[..n];
    }
  }

  lemma DropsInRange(e: Env, txs: seq<Tx>, g: Graph, g': Graph, k: Key, d: seq<int>)
    requires DropsAll(e, txs, g, g', k, d)
    ensures Indices(txs, d)
  {
  }

  lemma DropsThen(e: Env, txs: seq<Tx>, g: Graph, g1: Graph, g2: Graph, k: Key, d: seq<int>, d': seq<int>)
    requires DropsAll(e, txs, g, g1, k, d) && DropsAll(e, txs, g1, g2, k, d')
    ensures DropsAll(e, txs, g, g2, k, d + d')
  {
    hide After;
    forall x: Key ensures Indices(txs, d + d') && After(e, txs, g, k, d + d', x) == After(e, txs, g1, k, d', x) {
      AfterThen(e, txs, g, g1, k, d, d', x);
    }
  }

  // ----- what the passes report

  /** What a single-transaction pass does to a wallet: nothing if the wallet is not negative or no index is
      eligible, otherwise it unlinks exactly the newest eligible one. */
  ghost predicate DroppedOne(e: Env, txs: seq<Tx>, g: Graph, g': Graph, k: Key, sparing: bool, done: bool, hit: int) {
    var debt := -Balance(e, g, k);
    if debt <= 0 then done && SameView(e, g, g')
    else if !done then SameView(e, g, g') && NoneEligible(e, txs, g, k, debt, sparing)
    else hit >= 0 && Drops(e, txs, g, g', k, hit) && Newest(e, txs, g, k, debt, sparing, hit)
  }

  /** The first pass succeeds. */
  lemma FirstPassEnds(e: Env, txs: seq<Tx>, g0: Graph, g1: Graph, stack: seq<Key>, k: Key, hit: int)
    requires |g0.status| == |g0.mask| == |txs| && DroppedOne(e, txs, g0, g1, k, true, true, hit)
    ensures Escalates(e, txs, g0, stack, g1, stack, k, true)
  {
    hide Swept, NewestBelow, After, Eligible, Drops, DropsAll;
    DropsNothing(e, txs, g0, g0, k);
    if Balance(e, g0, k) >= 0 {
      DropsNothing(e, txs, g0, g1, k);
    } else {
      FoundIsNewest(e, txs, g0, g0, k, [], -Balance(e, g0, k), true, hit);
      InRange(e, txs, g0, k, -Balance(e, g0, k), true, hit);
      DropsTheOne(e, txs, g0, g1, k, hit);
    }
  }

  /** It does not: it has changed nothing, and the second one does what it would do from the start. */
  lemma FirstPassFails(e: Env, txs: seq<Tx>, g0: Graph, g1: Graph, k: Key, hit: int)
    requires |g0.status| == |g0.mask| == |txs| && DroppedOne(e, txs, g0, g1, k, true, false, hit)
    ensures Balance(e, g0, k) < 0 && NewestBelow(e, txs, g0, k, [], true, |txs|) == NO_IND
    ensures DropsAll(e, txs, g0, g1, k, [])
    ensures Swept(e, txs, g1, k, [], true, |txs|) == Swept(e, txs, g0, k, [], true, |txs|)
  {
    hide Swept, NewestBelow, After, Eligible, Drops, DropsAll;
    DropsNothing(e, txs, g0, g0, k);
    DropsNothing(e, txs, g0, g1, k);
    FoundIsNewest(e, txs, g0, g0, k, [], -Balance(e, g0, k), true, NO_IND);
    var none: seq<int> := [];
    assert none + none == none;
    SweptThen(e, txs, g0, g1, k, none, none, true, |txs|);
  }

  /** What the second pass leaves, seen from the start. */
  lemma SecondPass(e: Env, txs: seq<Tx>, g0: Graph, g1: Graph, g2: Graph, stack: seq<Key>, k: Key)
    requires Balance(e, g0, k) < 0 && NewestBelow(e, txs, g0, k, [], true, |txs|) == NO_IND
    requires DropsAll(e, txs, g0, g1, k, [])
    requires var all := Swept(e, txs, g0, k, [], true, |txs|); DropsAll(e, txs, g1, g2, k, all)
    ensures DropsAll(e, txs, g0, g2, k, Swept(e, txs, g0, k, [], true, |txs|))
    ensures Balance(e, g2, k) >= 0 ==> Escalates(e, txs, g0, stack, g2, stack, k, true)
  {
    hide Swept, NewestBelow, After, DropsAll, Balance;
    var all := Swept(e, txs, g0, k, [], true, |txs|);
    DropsThen(e, txs, g0, g1, g2, k, [], all);
    assert [] + all == all;
    Holds(e, txs, g0, g2, k, all, k);
  }

  lemma ThirdPassEnds(e: Env, txs: seq<Tx>, g0: Graph, g2: Graph, g3: Graph, stack: seq<Key>, stack': seq<Key>, k: Key,
    hit: int)
    requires Balance(e, g0, k) < 0 && NewestBelow(e, txs, g0, k, [], true, |txs|) == NO_IND
    requires DropsAll(e, txs, g0, g2, k, Swept(e, txs, g0, k, [], true, |txs|)) && Balance(e, g2, k) < 0
    requires DroppedOne(e, txs, g2, g3, k, false, true, hit) && 0 <= hit < |txs|
    requires var target := e.keyOf(txs[hit].target);
      stack' == stack + if Balance(e, g3, target) < 0 then [target] else []
    ensures Escalates(e, txs, g0, stack, g3, stack', k, true)
  {
    hide Swept, NewestBelow, After, Eligible, Drops, DropsAll, Pushed, Escalation, Balance;
    var all := Swept(e, txs, g0, k, [], true, |txs|);
    Holds(e, txs, g0, g2, k, all, k);
    FoundIsNewest(e, txs, g0, g2, k, all, -Balance(e, g2, k), false, hit);
    CuringPlan(e, txs, g0, k, hit);
    DropsOneMore(e, txs, g0, g2, g3, k, all, hit);
    PushedLast(e, txs, g0, k, all, hit);
    Holds(e, txs, g0, g3, k, all + [hit], e.keyOf(txs[hit].target));
  }

  lemma ThirdPassFails(e: Env, txs: seq<Tx>, g0: Graph, g2: Graph, g3: Graph, k: Key, hit: int)
    requires DropsAll(e, txs, g0, g2, k, Swept(e, txs, g0, k, [], true, |txs|))
    requires DroppedOne(e, txs, g2, g3, k, false, false, hit)
    ensures var all := Swept(e, txs, g0, k, [], true, |txs|);
      NewestBelow(e, txs, g0, k, all, false, |txs|) == NO_IND && DropsAll(e, txs, g0, g3, k, all)
  {
    hide Swept, NewestBelow, After, Eligible, Drops, DropsAll;
    var all := Swept(e, txs, g0, k, [], true, |txs|);
    FoundIsNewest(e, txs, g0, g2, k, all, -Balance(e, g2, k), false, NO_IND);
    DropsStay(e, txs, g0, g2, g3, k, all);
  }

  lemma FourthPassEnds(e: Env, txs: seq<Tx>, g0: Graph, g3: Graph, g4: Graph, stack: seq<Key>, stack': seq<Key>, k: Key,
    done: bool)
    requires Balance(e, g0, k) < 0 && NewestBelow(e, txs, g0, k, [], true, |txs|) == NO_IND
    requires var all := Swept(e, txs, g0, k, [], true, |txs|);
      NewestBelow(e, txs, g0, k, all, false, |txs|) == NO_IND && DropsAll(e, txs, g0, g3, k, all)
    requires Balance(e, g3, k) < 0
    requires var d := Swept(e, txs, g3, k, [], false, |txs|);
      DropsAll(e, txs, g3, g4, k, d) && stack' == stack + Pushed(e, txs, g3, k, d, 0)
    requires done == (Balance(e, g4, k) >= 0)
    ensures Escalates(e, txs, g0, stack, g4, stack', k, done)
  {
    hide Swept, NewestBelow, After, DropsAll, Pushed, Escalation, Balance;
    var all := Swept(e, txs, g0, k, [], true, |txs|);
    var d := Swept(e, txs, g3, k, [], false, |txs|);
    Holds(e, txs, g0, g3, k, all, k);
    LastPlan(e, txs, g0, k);
    SweptThen(e, txs, g0, g3, k, all, [], false, |txs|);
    assert all + [] == all;
    PushedThen(e, txs, g0, g3, k, all, d);
    DropsThen(e, txs, g0, g3, g4, k, all, d);
    Holds(e, txs, g0, g4, k, all + d, k);
  }

  // ----- the wallets in turn

  /** The state of the graph phase between two wallets. */
  datatype Scene = Scene(graph: Graph, stack: seq<Key>)

  ghost predicate SameScene(e: Env, a: Scene, b: Scene) {
    SameView(e, a.graph, b.graph) && a.stack == b.stack
  }

  /** The wallet on top is taken off the stack and, if it is in debt, relieved. */
  ghost predicate Visits(e: Env, txs: seq<Tx>, a: Scene, b: Scene) {
    && a.stack != []
    && var k, rest := a.stack[|a.stack| - 1], a.stack[..|a.stack| - 1];
       if Balance(e, a.graph, k) >= 0 then SameView(e, a.graph, b.graph) && b.stack == rest
       else Escalates(e, txs, a.graph, rest, b.graph, b.stack, k, Escalation(e, txs, a.graph, k).done)
  }

  ghost predicate Visited(e: Env, txs: seq<Tx>, trace: seq<Scene>) {
    trace != [] && forall i :: 0 < i < |trace| ==> Visits(e, txs, trace[i - 1], trace[i])
  }

  /** The phase ends when the stack is empty. */
  lemma EndsThere(e: Env, txs: seq<Tx>, trace: seq<Scene>, i: nat)
    requires Visited(e, txs, trace) && i < |trace| && trace[i].stack == []
    ensures i == |trace| - 1
  {
    assert i + 1 < |trace| ==> Visits(e, txs, trace[i + 1 - 1], trace[i + 1]);
  }

  /** The wallet on top is in debt and stays so whatever is given up. */
  ghost predicate Fails(e: Env, txs: seq<Tx>, a: Scene) {
    && a.stack != []
    && var k := a.stack[|a.stack| - 1]; Balance(e, a.graph, k) < 0 && !Escalation(e, txs, a.graph, k).done
  }

  ghost predicate SomeFailed(e: Env, txs: seq<Tx>, trace: seq<Scene>) {
    exists i :: 0 <= i < |trace| - 1 && Fails(e, txs, trace[i])
  }

  lemma FailedGrows(e: Env, txs: seq<Tx>, trace: seq<Scene>, b: Scene)
    requires trace != []
    ensures SomeFailed(e, txs, trace + [b]) <==> SomeFailed(e, txs, trace) || Fails(e, txs, trace[|trace| - 1])
  {
    hide Fails;
    var t, n := trace + [b], |trace| - 1;
    assert t[n] == trace[n];
    if i :| 0 <= i < n && Fails(e, txs, trace[i]) {
      assert Fails(e, txs, t[i]);
    }
    if i :| 0 <= i < n + 1 && Fails(e, txs, t[i]) {
      assert i == n || Fails(e, txs, trace[i]);
    }
    if Fails(e, txs, trace[n]) {
      assert Fails(e, txs, t[n]);
    }
  }

  lemma SameSceneItself(e: Env, g: Graph, stack: seq<Key>)
    ensures SameView(e, g, g) && SameScene(e, Scene(g, stack), Scene(g, stack))
  {
  }

  lemma ViewStays(e: Env, g: Graph, g1: Graph, g2: Graph)
    requires SameView(e, g1, g2)
    ensures SameView(e, g, g1) ==> SameView(e, g, g2)
  {
  }

  lemma VisitsStay(e: Env, txs: seq<Tx>, a: Scene, b: Scene, b': Scene)
    requires Visits(e, txs, a, b) && SameScene(e, b, b')
    ensures Visits(e, txs, a, b')
  {
    hide DropsAll, Escalation;
    var k, rest := a.stack[|a.stack| - 1], a.stack[..|a.stack| - 1];
    if Balance(e, a.graph, k) >= 0 {
      ViewStays(e, a.graph, b.graph, b'.graph);
    } else {
      DropsStay(e, txs, a.graph, b.graph, b'.graph, k, Escalation(e, txs, a.graph, k).drops);
    }
  }

  /** The last scene with wallets copied on first read. */
  lemma Retouched(e: Env, txs: seq<Tx>, trace: seq<Scene>, g': Graph, g: Graph, stack: seq<Key>) returns (t: seq<Scene>)
    requires Visited(e, txs, trace) && SameView(e, trace[|trace| - 1].graph, g')
    requires SameScene(e, Scene(g, stack), trace[0])
    ensures Visited(e, txs, t) && t[|t| - 1] == Scene(g', trace[|trace| - 1].stack)
    ensures SameScene(e, Scene(g, stack), t[0])
    ensures SomeFailed(e, txs, t) <==> SomeFailed(e, txs, trace)
  {
    hide Visits, SameView, Fails;
    var n := |trace| - 1;
    var b := Scene(g', trace[n].stack);
    t := trace[n := b];
    assert forall i :: 0 <= i < n ==> t[i] == trace[i];
    if n > 0 {
      VisitsStay(e, txs, trace[n - 1], trace[n], b);
    } else {
      ViewStays(e, g, trace[0].graph, g');
    }
  }

  lemma SceneEscalates(e: Env, txs: seq<Tx>, a: Scene, g': Graph, stack': seq<Key>, done: bool)
    requires a.stack != [] && Balance(e, a.graph, a.stack[|a.stack| - 1]) < 0
    requires Escalates(e, txs, a.graph, a.stack[..|a.stack| - 1], g', stack', a.stack[|a.stack| - 1], done)
    ensures Visits(e, txs, a, Scene(g', stack')) && (Fails(e, txs, a) <==> !done)
  {
    hide DropsAll, Escalation;
  }

  lemma SceneEnds(e: Env, txs: seq<Tx>, a: Scene)
    requires a.stack != [] && Balance(e, a.graph, a.stack[|a.stack| - 1]) >= 0
    ensures Visits(e, txs, a, Scene(a.graph, a.stack[..|a.stack| - 1])) && !Fails(e, txs, a)
  {
  }

  lemma VisitedGrows(e: Env, txs: seq<Tx>, trace: seq<Scene>, b: Scene)
    requires Visited(e, txs, trace) && Visits(e, txs, trace[|trace| - 1], b)
    ensures Visited(e, txs, trace + [b])
  {
    hide Visits;
  }
}
