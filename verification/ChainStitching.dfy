/** Finding the heads of chains among blocks that arrive in any order. */
module ChainStitching {

  type Hash = nat

  const EMPTY: Hash := 0

  /** The number of blocks in a run, and the block missing below it. */
  datatype Head = Head(len: nat, next: Hash)
  datatype State = State(heads: map<Hash, Head>, tails: map<Hash, Hash>)

  /** Insertion that keeps an entry already there. */
  function Emplace<K, V>(m: map<K, V>, k: K, v: V): (r: map<K, V>) {
    if k in m then m else m[k := v]
  }

  /** A look-up that creates a missing entry. */
  function Entry(heads: map<Hash, Head>, h: Hash): (e: Head) {
    if h in heads then heads[h] else Head(0, EMPTY)
  }

  function Glue(s: State, cur: Hash, prev: Hash): (r: State)
    requires prev in s.heads && cur in s.tails
  {
    var below, top := s.heads[prev], s.tails[cur];
    var e := Entry(s.heads, top);
    State(s.heads[top := Head(e.len + 1 + below.len, below.next)] - {prev},
      (if below.next != EMPTY then s.tails[below.next := top] else s.tails) - {cur})
  }

  function Lift(s: State, cur: Hash, prev: Hash): (r: State)
    requires prev in s.heads
  {
    var below := s.heads[prev];
    State(Emplace(s.heads, cur, Head(below.len + 1, below.next)) - {prev},
      if below.next != EMPTY then s.tails[below.next := cur] else s.tails)
  }

  function Extend(s: State, cur: Hash, prev: Hash): (r: State)
    requires cur in s.tails
  {
    var top := s.tails[cur];
    State(s.heads[top := Head(Entry(s.heads, top).len + 1, prev)],
      (if prev != EMPTY then Emplace(s.tails, prev, top) else s.tails) - {cur})
  }

  function Hang(s: State, cur: Hash, prev: Hash): (r: State) {
    State(Emplace(s.heads, cur, Head(1, prev)), if prev != EMPTY then Emplace(s.tails, prev, cur) else s.tails)
  }

  function Feed(s: State, cur: Hash, prev: Hash): (r: State) {
    if prev in s.heads && cur in s.tails then Glue(s, cur, prev)
    else if prev in s.heads then Lift(s, cur, prev)
    else if cur in s.tails then Extend(s, cur, prev)
    else Hang(s, cur, prev)
  }

  class Stitcher {
    var heads: map<Hash, Head>
    var tails: map<Hash, Hash>

    constructor ()
      ensures heads == map[] && tails == map[]
    {
      heads, tails := map[], map[];
    }

    method UpdateHeadsAndTails(cur: Hash, prev: Hash)
      modifies this
      ensures State(heads, tails) == Feed(old(State(heads, tails)), cur, prev)
    {
      if prev in heads && cur in tails {
        var top := tails[cur];
        var e := Entry(heads, top);
        heads := heads[top := e.(next := heads[prev].next)];
        heads := heads[top := heads[top].(len := heads[top].len + 1 + heads[prev].len)];
        if heads[prev].next != EMPTY {
          tails := tails[heads[prev].next := top];
        }
        heads := heads - {prev};
        tails := tails - {cur};
      } else if prev in heads {
        var below := heads[prev];
        if below.next != EMPTY {
          tails := tails[below.next := cur];
        }
        heads := Emplace(heads, cur, Head(below.len + 1, below.next));
        heads := heads - {prev};
      } else if cur in tails {
        var top := tails[cur];
        heads := heads[top := Entry(heads, top).(next := prev)];
        heads := heads[top := heads[top].(len := heads[top].len + 1)];
        if prev != EMPTY {
          tails := Emplace(tails, prev, top);
        }
        tails := tails - {cur};
      } else {
        heads := Emplace(heads, cur, Head(1, prev));
        if prev != EMPTY {
          tails := Emplace(tails, prev, cur);
        }
      }
    }
  }

  // ----- one chain, of which the blocks numbered in `fed` have been seen

  ghost predicate IsChain(c: seq<Hash>) {
    EMPTY !in c && forall i, j :: 0 <= i < j < |c| ==> c[i] != c[j]
  }

  function Parent(c: seq<Hash>, j: nat): (h: Hash)
    requires j < |c|
  {
    if j == 0 then EMPTY else c[j - 1]
  }

  /** The lowest block of the run that reaches up to `j`. */
  function RunStart(fed: set<nat>, j: nat): (i: nat)
    ensures i <= j && (j in fed ==> i in fed)
  {
    if j == 0 || j - 1 !in fed then j else RunStart(fed, j - 1)
  }

  ghost function RunEnd(fed: set<nat>, j: nat, n: nat): (i: nat)
    requires j < n && j in fed && forall k :: k in fed ==> k < n
    ensures j <= i < n && i in fed && i + 1 !in fed && RunStart(fed, i) == RunStart(fed, j)
    decreases n - j
  {
    if j + 1 in fed then RunEnd(fed, j + 1, n) else j
  }

  ghost predicate IsTop(fed: set<nat>, j: nat) {
    j in fed && j + 1 !in fed
  }

  function RunHead(c: seq<Hash>, fed: set<nat>, j: nat): (h: Head)
    requires j < |c|
  {
    Head(j - RunStart(fed, j) + 1, Parent(c, RunStart(fed, j)))
  }

  /** One head per maximal run, with its length and missing parent. */
  ghost predicate HeadsAre(c: seq<Hash>, fed: set<nat>, heads: map<Hash, Head>) {
    && (forall h :: h in heads ==> h in c)
    && (forall j :: 0 <= j < |c| ==> (c[j] in heads <==> IsTop(fed, j)))
    && (forall j :: 0 <= j < |c| && IsTop(fed, j) ==> heads[c[j]] == RunHead(c, fed, j))
  }

  /** The tails lead from every non-empty missing parent to its head, and from nothing else. */
  ghost predicate Inverse(heads: map<Hash, Head>, tails: map<Hash, Hash>) {
    && (forall h :: h in heads && heads[h].next != EMPTY ==> heads[h].next in tails && tails[heads[h].next] == h)
    && (forall t :: t in tails ==> t != EMPTY && tails[t] in heads && heads[tails[t]].next == t)
  }

  ghost predicate Stitched(c: seq<Hash>, fed: set<nat>, s: State) {
    (forall j :: j in fed ==> j < |c|) && HeadsAre(c, fed, s.heads) && Inverse(s.heads, s.tails)
  }

  lemma {:induction false} RunStartAdd(fed: set<nat>, j: nat, e: nat)
    requires e in fed && j !in fed
    ensures RunStart(fed + {j}, e) == if RunStart(fed, e) == j + 1 then RunStart(fed + {j}, j) else RunStart(fed, e)
  {
    if e == 0 || e - 1 !in fed {
    } else {
      RunStartAdd(fed, j, e - 1);
    }
  }

  lemma RunStartAt(fed: set<nat>, j: nat)
    requires j !in fed
    ensures RunStart(fed + {j}, j) == if j > 0 && j - 1 in fed then RunStart(fed, j - 1) else j
  {
    if j > 0 && j - 1 in fed {
      RunStartAdd(fed, j, j - 1);
    }
  }

  lemma {:induction false} OneTop(fed: set<nat>, j: nat, e: nat, n: nat)
    requires j in fed && IsTop(fed, e) && RunStart(fed, e) <= j <= e && forall k :: k in fed ==> k < n
    ensures e == RunEnd(fed, j, n)
    decreases e - j
  {
    if j >= e {
    } else {
      RunIsFed(fed, j + 1, e);
      OneTop(fed, j + 1, e, n);
    }
  }

  lemma {:induction false} RunIsFed(fed: set<nat>, j: nat, e: nat)
    requires e in fed && RunStart(fed, e) <= j <= e
    ensures j in fed
  {
    if j >= e {
    } else {
      RunIsFed(fed, j, e - 1);
    }
  }

  /** Which branch is taken. */
  lemma Neighbours(c: seq<Hash>, fed: set<nat>, s: State, j: nat)
    requires IsChain(c) && Stitched(c, fed, s) && j < |c| && j !in fed
    ensures Parent(c, j) in s.heads <==> j > 0 && j - 1 in fed
    ensures c[j] in s.tails <==> j + 1 in fed
    ensures j + 1 in fed ==> var e := RunEnd(fed, j + 1, |c|);
      IsTop(fed, e) && RunStart(fed, e) == j + 1 && s.tails[c[j]] == c[e]
  {
    if j + 1 in fed {
      var e := RunEnd(fed, j + 1, |c|);
      assert c[e] in s.heads && s.heads[c[e]].next == c[j];
    }
    if c[j] in s.tails {
      var h := s.tails[c[j]];
      var e :| 0 <= e < |c| && c[e] == h;
      var i := RunStart(fed, e);
      assert i <= e && Parent(c, i) == c[j] != EMPTY;
      assert i == j + 1;
    }
  }

  // ----- every branch keeps the picture

  /** Runs that do not touch the new block keep their head. */
  lemma OtherRuns(c: seq<Hash>, fed: set<nat>, j: nat, e: nat)
    requires j < |c| && e < |c| && j !in fed && e in fed
    ensures RunHead(c, fed + {j}, e) ==
      if RunStart(fed, e) == j + 1 then Head(e - RunStart(fed + {j}, j) + 1, Parent(c, RunStart(fed + {j}, j)))
      else RunHead(c, fed, e)
  {
    RunStartAdd(fed, j, e);
  }

  ghost predicate HeadsGrew(c: seq<Hash>, fed: set<nat>, heads: map<Hash, Head>, j: nat, heads': map<Hash, Head>)
    requires j < |c| && forall k :: k in fed ==> k < |c|
  {
    && heads'.Keys == (if j + 1 in fed then heads.Keys else heads.Keys + {c[j]}) - {Parent(c, j)}
    && var top := if j + 1 in fed then RunEnd(fed, j + 1, |c|) else j;
    && c[top] in heads' && heads'[c[top]] == RunHead(c, fed + {j}, top)
    && forall h :: h in heads && h in heads' && h != c[top] ==> heads'[h] == heads[h]
  }

  lemma TopsGrow(c: seq<Hash>, fed: set<nat>, heads: map<Hash, Head>, j: nat, heads': map<Hash, Head>, e: nat)
    requires IsChain(c) && HeadsAre(c, fed, heads) && j < |c| && e < |c| && j !in fed &&
      (forall k :: k in fed ==> k < |c|)
    requires HeadsGrew(c, fed, heads, j, heads')
    ensures c[e] in heads' <==> IsTop(fed + {j}, e)
  {
    assert c[e] == Parent(c, j) <==> e + 1 == j;
    assert c[e] == c[j] <==> e == j;
    assert c[e] in heads <==> IsTop(fed, e);
  }

  lemma RunHeadsGrow(c: seq<Hash>, fed: set<nat>, heads: map<Hash, Head>, j: nat, heads': map<Hash, Head>, e: nat)
    requires IsChain(c) && HeadsAre(c, fed, heads) && j < |c| && e < |c| && j !in fed &&
      (forall k :: k in fed ==> k < |c|)
    requires HeadsGrew(c, fed, heads, j, heads') && IsTop(fed + {j}, e) && c[e] in heads'
    ensures heads'[c[e]] == RunHead(c, fed + {j}, e)
  {
    hide IsChain, RunStart, RunEnd, RunHead, IsTop;
    var top := if j + 1 in fed then RunEnd(fed, j + 1, |c|) else j;
    if e != top {
      Distinct(c, e, top);
      TopStays(fed, j, e);
      OtherRuns(c, fed, j, e);
      if RunStart(fed, e) == j + 1 {
        OneTop(fed, j + 1, e, |c|);
      }
    }
  }

  lemma Distinct(c: seq<Hash>, e: nat, top: nat)
    requires IsChain(c) && e < |c| && top < |c| && e != top
    ensures c[e] != c[top]
  {
  }

  lemma TopStays(fed: set<nat>, j: nat, e: nat)
    requires IsTop(fed + {j}, e)
    ensures e == j || (IsTop(fed, e) && e in fed)
    ensures e == j ==> j + 1 !in fed
  {
  }

  /** The tops after one more block: the block below it stops being one. */
  lemma HeadsGrow(c: seq<Hash>, fed: set<nat>, heads: map<Hash, Head>, j: nat, heads': map<Hash, Head>)
    requires IsChain(c) && HeadsAre(c, fed, heads) && j < |c| && j !in fed && (forall k :: k in fed ==> k < |c|)
    requires HeadsGrew(c, fed, heads, j, heads')
    ensures HeadsAre(c, fed + {j}, heads')
  {
    forall e | 0 <= e < |c| ensures c[e] in heads' <==> IsTop(fed + {j}, e) {
      TopsGrow(c, fed, heads, j, heads', e);
    }
    forall e | 0 <= e < |c| && IsTop(fed + {j}, e) ensures heads'[c[e]] == RunHead(c, fed + {j}, e) {
      RunHeadsGrow(c, fed, heads, j, heads', e);
    }
  }

  lemma HangInverts(s: State, cur: Hash, prev: Hash)
    requires Inverse(s.heads, s.tails) && cur !in s.heads && (prev == EMPTY || prev !in s.tails)
    ensures Inverse(Hang(s, cur, prev).heads, Hang(s, cur, prev).tails)
  {
  }

  lemma ExtendInverts(s: State, cur: Hash, prev: Hash)
    requires Inverse(s.heads, s.tails) && cur in s.tails && cur != prev && (prev == EMPTY || prev !in s.tails)
    ensures Inverse(Extend(s, cur, prev).heads, Extend(s, cur, prev).tails)
  {
  }

  lemma LiftInverts(s: State, cur: Hash, prev: Hash)
    requires Inverse(s.heads, s.tails) && prev in s.heads && cur !in s.heads && cur != prev
    ensures Inverse(Lift(s, cur, prev).heads, Lift(s, cur, prev).tails)
  {
  }

  lemma GlueInverts(s: State, cur: Hash, prev: Hash)
    requires Inverse(s.heads, s.tails) && prev in s.heads && cur in s.tails && s.tails[cur] != prev
    ensures Inverse(Glue(s, cur, prev).heads, Glue(s, cur, prev).tails)
  {
  }

  lemma HangKeeps(c: seq<Hash>, fed: set<nat>, s: State, j: nat)
    requires IsChain(c) && Stitched(c, fed, s) && j < |c| && j !in fed && j + 1 !in fed && !(j > 0 && j - 1 in fed)
    ensures Stitched(c, fed + {j}, Hang(s, c[j], Parent(c, j)))
  {
    assert Parent(c, j) == EMPTY || Parent(c, j) !in s.tails by {
      if j > 0 {
        Neighbours(c, fed, s, j - 1);
      }
    }
    HangInverts(s, c[j], Parent(c, j));
    RunStartAt(fed, j);
    HeadsGrow(c, fed, s.heads, j, Hang(s, c[j], Parent(c, j)).heads);
  }

  lemma ExtendHeads(c: seq<Hash>, fed: set<nat>, s: State, j: nat)
    requires IsChain(c) && Stitched(c, fed, s) && j < |c| && j !in fed && j + 1 in fed && !(j > 0 && j - 1 in fed)
    requires c[j] in s.tails
    ensures HeadsAre(c, fed + {j}, Extend(s, c[j], Parent(c, j)).heads)
  {
    Neighbours(c, fed, s, j);
    RunStartAt(fed, j);
    OtherRuns(c, fed, j, RunEnd(fed, j + 1, |c|));
    HeadsGrow(c, fed, s.heads, j, Extend(s, c[j], Parent(c, j)).heads);
  }

  lemma ExtendKeeps(c: seq<Hash>, fed: set<nat>, s: State, j: nat)
    requires IsChain(c) && Stitched(c, fed, s) && j < |c| && j !in fed && j + 1 in fed && !(j > 0 && j - 1 in fed)
    ensures c[j] in s.tails && Stitched(c, fed + {j}, Extend(s, c[j], Parent(c, j)))
  {
    hide HeadsAre, Inverse;
    Neighbours(c, fed, s, j);
    ExtendHeads(c, fed, s, j);
    if j > 0 {
      Neighbours(c, fed, s, j - 1);
    }
    ExtendInverts(s, c[j], Parent(c, j));
  }

  lemma LiftKeeps(c: seq<Hash>, fed: set<nat>, s: State, j: nat)
    requires IsChain(c) && Stitched(c, fed, s) && j < |c| && j !in fed && j + 1 !in fed && j > 0 && j - 1 in fed
    ensures c[j - 1] in s.heads && Stitched(c, fed + {j}, Lift(s, c[j], Parent(c, j)))
  {
    LiftInverts(s, c[j], c[j - 1]);
    RunStartAt(fed, j);
    HeadsGrow(c, fed, s.heads, j, Lift(s, c[j], Parent(c, j)).heads);
  }

  lemma GlueKeeps(c: seq<Hash>, fed: set<nat>, s: State, j: nat)
    requires IsChain(c) && Stitched(c, fed, s) && j < |c| && j !in fed && j + 1 in fed && j > 0 && j - 1 in fed
    ensures c[j - 1] in s.heads && c[j] in s.tails && Stitched(c, fed + {j}, Glue(s, c[j], Parent(c, j)))
  {
    Neighbours(c, fed, s, j);
    GlueInverts(s, c[j], c[j - 1]);
    RunStartAt(fed, j);
    var e := RunEnd(fed, j + 1, |c|);
    OtherRuns(c, fed, j, e);
    HeadsGrow(c, fed, s.heads, j, Glue(s, c[j], Parent(c, j)).heads);
  }

  /** One more block of the chain, wherever it falls. */
  lemma FeedKeeps(c: seq<Hash>, fed: set<nat>, s: State, j: nat)
    requires IsChain(c) && Stitched(c, fed, s) && j < |c| && j !in fed
    ensures Stitched(c, fed + {j}, Feed(s, c[j], Parent(c, j)))
  {
    Neighbours(c, fed, s, j);
    if j + 1 in fed {
      if j > 0 && j - 1 in fed {
        GlueKeeps(c, fed, s, j);
      } else {
        ExtendKeeps(c, fed, s, j);
      }
    } else if j > 0 && j - 1 in fed {
      LiftKeeps(c, fed, s, j);
    } else {
      HangKeeps(c, fed, s, j);
    }
  }

  // ----- whole runs

  ghost predicate IsOrder(c: seq<Hash>, order: seq<nat>) {
    (forall i :: 0 <= i < |order| ==> order[i] < |c|) && forall i, k :: 0 <= i < k < |order| ==> order[i] != order[k]
  }

  ghost function Fed(order: seq<nat>): (fed: set<nat>) {
    set j | j in order
  }

  function FeedAll(c: seq<Hash>, order: seq<nat>): (s: State)
    requires forall i :: 0 <= i < |order| ==> order[i] < |c|
  {
    if order == [] then State(map[], map[])
    else
      var j := order[|order| - 1];
      Feed(FeedAll(c, order[..|order| - 1]), c[j], Parent(c, j))
  }

  /** Whatever blocks have been fed, in whatever order, the heads are the runs. */
  lemma {:induction false} AnyOrder(c: seq<Hash>, order: seq<nat>)
    requires IsChain(c) && IsOrder(c, order)
    ensures Stitched(c, Fed(order), FeedAll(c, order))
  {
    if order == [] {
    } else {
      var before, j := order[..|order| - 1], order[|order| - 1];
      AnyOrder(c, before);
      assert order == before + [j];
      assert Fed(order) == Fed(before) + {j};
      FeedKeeps(c, Fed(before), FeedAll(c, before), j);
    }
  }

  lemma StitchedIsDetermined(c: seq<Hash>, fed: set<nat>, s: State, t: State)
    requires IsChain(c) && Stitched(c, fed, s) && Stitched(c, fed, t)
    ensures s == t
  {
    assert s.heads == t.heads by {
      forall h | h in s.heads || h in t.heads ensures h in s.heads && h in t.heads && s.heads[h] == t.heads[h] {
        var j :| 0 <= j < |c| && c[j] == h;
      }
    }
    assert forall h :: h in s.tails ==> h in t.tails && t.tails[h] == s.tails[h];
    assert forall h :: h in t.tails ==> h in s.tails;
  }

  lemma OrderIsIrrelevant(c: seq<Hash>, order: seq<nat>, other: seq<nat>)
    requires IsChain(c) && IsOrder(c, order) && IsOrder(c, other) && Fed(order) == Fed(other)
    ensures FeedAll(c, order) == FeedAll(c, other)
  {
    AnyOrder(c, order);
    AnyOrder(c, other);
    StitchedIsDetermined(c, Fed(order), FeedAll(c, order), FeedAll(c, other));
  }

  lemma {:induction false} FullRun(fed: set<nat>, j: nat)
    requires forall k :: 0 <= k <= j ==> k in fed
    ensures RunStart(fed, j) == 0
  {
    if j == 0 {
    } else {
      FullRun(fed, j - 1);
    }
  }

  /** The whole chain leaves one head of full length and nothing missing. */
  lemma WholeChain(c: seq<Hash>, order: seq<nat>)
    requires IsChain(c) && IsOrder(c, order) && c != [] && forall j :: 0 <= j < |c| ==> j in order
    ensures FeedAll(c, order) == State(map[c[|c| - 1] := Head(|c|, EMPTY)], map[])
  {
    var fed, s := Fed(order), State(map[c[|c| - 1] := Head(|c|, EMPTY)], map[]);
    FullRun(fed, |c| - 1);
    assert forall j :: 0 <= j < |c| ==> (IsTop(fed, j) <==> j == |c| - 1);
    assert Stitched(c, fed, s);
    AnyOrder(c, order);
    StitchedIsDetermined(c, fed, FeedAll(c, order), s);
  }
}
