/** Packets waiting to be confirmed, ordered by the round in which they were last sent. */
module SendCache {

  type Hash = nat

  datatype Entry = Entry(round: nat, hash: Hash, count: nat)

  ghost predicate Sorted(c: seq<Entry>) {
    forall i, j :: 0 <= i < j < |c| ==> c[i].round <= c[j].round
  }

  ghost predicate Unique(c: seq<Entry>) {
    forall i, j :: 0 <= i < j < |c| ==> c[i].hash != c[j].hash
  }

  predicate Has(c: seq<Entry>, h: Hash) {
    exists e :: e in c && e.hash == h
  }

  // ----- the ordered multimap

  /** The number of entries at or below a round, all in front. */
  function UpperBound(c: seq<Entry>, round: nat): (k: nat)
    ensures k <= |c|
  {
    if c == [] || c[0].round > round then 0 else 1 + UpperBound(c[1..], round)
  }

  lemma {:induction false} UpperBoundSplits(c: seq<Entry>, round: nat)
    requires Sorted(c)
    ensures forall i :: 0 <= i < |c| ==> (c[i].round <= round <==> i < UpperBound(c, round))
  {
    if c == [] || c[0].round > round {
    } else {
      UpperBoundSplits(c[1..], round);
      assert forall i :: 0 < i < |c| ==> c[i] == c[1..][i - 1];
    }
  }

  /** Insertion after the entries of the same round. */
  function Emplace(c: seq<Entry>, e: Entry): (r: seq<Entry>) {
    var k := UpperBound(c, e.round);
    c[..k] + [e] + c[k..]
  }

  lemma EmplaceHolds(c: seq<Entry>, e: Entry)
    ensures forall x :: x in Emplace(c, e) <==> x in c || x == e
  {
    var k := UpperBound(c, e.round);
    assert c == c[..k] + c[k..];
  }

  /** Which entry is where after an insertion at `k`. */
  lemma InsertedAt(c: seq<Entry>, k: nat, e: Entry, i: nat)
    requires k <= |c| && i <= |c|
    ensures (c[..k] + [e] + c[k..])[i] == if i < k then c[i] else if i == k then e else c[i - 1]
  {
  }

  lemma EmplaceSorts(c: seq<Entry>, e: Entry)
    requires Sorted(c)
    ensures Sorted(Emplace(c, e))
  {
    UpperBoundSplits(c, e.round);
    var k, r := UpperBound(c, e.round), Emplace(c, e);
    forall i, j | 0 <= i < j < |r| ensures r[i].round <= r[j].round {
      InsertedAt(c, k, e, i);
      InsertedAt(c, k, e, j);
    }
  }

  lemma EmplaceKeepsUnique(c: seq<Entry>, e: Entry)
    requires Unique(c) && !Has(c, e.hash)
    ensures Unique(Emplace(c, e))
  {
    var k, r := UpperBound(c, e.round), Emplace(c, e);
    assert forall i :: 0 <= i < |c| ==> c[i] in c && c[i].hash != e.hash;
    forall i, j | 0 <= i < j < |r| ensures r[i].hash != r[j].hash {
      InsertedAt(c, k, e, i);
      InsertedAt(c, k, e, j);
    }
  }

  lemma EmplaceKeeps(c: seq<Entry>, e: Entry)
    requires Sorted(c) && Unique(c) && !Has(c, e.hash)
    ensures Sorted(Emplace(c, e)) && Unique(Emplace(c, e))
  {
    EmplaceSorts(c, e);
    EmplaceKeepsUnique(c, e);
  }

  /** Removal of the first entry with a hash. */
  function Erase(c: seq<Entry>, h: Hash): (r: seq<Entry>) {
    if c == [] then [] else if c[0].hash == h then c[1..] else [c[0]] + Erase(c[1..], h)
  }

  lemma {:induction false} EraseKeeps(c: seq<Entry>, h: Hash)
    requires Sorted(c) && Unique(c)
    ensures Sorted(Erase(c, h)) && Unique(Erase(c, h))
    ensures forall x :: x in Erase(c, h) <==> x in c && x.hash != h
  {
    hide Sorted, Unique;
    if c == [] {
    } else {
      assert c == [c[0]] + c[1..];
      RestIsApart(c);
      if c[0].hash == h {
      } else {
        EraseKeeps(c[1..], h);
        FrontKeeps(c[0], Erase(c[1..], h));
      }
    }
  }

  /** What is behind the first entry is no older and has other hashes. */
  lemma RestIsApart(c: seq<Entry>)
    requires Sorted(c) && Unique(c) && c != []
    ensures Sorted(c[1..]) && Unique(c[1..])
    ensures forall x :: x in c[1..] ==> c[0].round <= x.round && c[0].hash != x.hash
  {
  }

  lemma FrontKeeps(e: Entry, r: seq<Entry>)
    requires Sorted(r) && Unique(r) && forall x :: x in r ==> e.round <= x.round && e.hash != x.hash
    ensures Sorted([e] + r) && Unique([e] + r)
  {
    assert forall i :: 0 <= i < |r| ==> r[i] in r;
  }

  // ----- the periodic check

  datatype State = State(cache: seq<Entry>, table: set<Hash>)

  predicate MayResend(e: Entry, maxResends: nat) {
    e.count < maxResends || maxResends == 0
  }

  function Kept(due: seq<Entry>, maxResends: nat): (es: seq<Entry>) {
    if due == [] then []
    else Kept(due[..|due| - 1], maxResends) + (if MayResend(due[|due| - 1], maxResends) then [due[|due| - 1]] else [])
  }

  function Worn(due: seq<Entry>, maxResends: nat): (hs: set<Hash>) {
    set e | e in due && !MayResend(e, maxResends) :: e.hash
  }

  lemma SplitGrows(due: seq<Entry>, i: nat, maxResends: nat)
    requires i < |due|
    ensures var e, before := due[i], due[..i];
      && Kept(due[..i + 1], maxResends) == Kept(before, maxResends) + (if MayResend(e, maxResends) then [e] else [])
      && Worn(due[..i + 1], maxResends) ==
           Worn(before, maxResends) + (if MayResend(e, maxResends) then {} else {e.hash})
  {
    assert due[..i + 1][..i] == due[..i];
    assert forall e :: e in due[..i + 1] <==> e in due[..i] || e == due[i];
  }

  function Found(es: seq<Entry>, table: set<Hash>): (fs: seq<Entry>) {
    if es == [] then [] else Found(es[..|es| - 1], table) + (if es[|es| - 1].hash in table then [es[|es| - 1]] else [])
  }

  function Again(c: seq<Entry>, round: nat, es: seq<Entry>): (r: seq<Entry>) {
    if es == [] then c
    else
      var e := es[|es| - 1];
      Emplace(Again(c, round, es[..|es| - 1]), Entry(round, e.hash, e.count + 1))
  }

  lemma FoundGrows(es: seq<Entry>, j: nat, table: set<Hash>)
    requires j < |es|
    ensures Found(es[..j + 1], table)
      == if es[j].hash in table then Found(es[..j], table) + [es[j]] else Found(es[..j], table)
  {
    assert es[..j + 1][..j] == es[..j];
  }

  lemma NothingSplit(maxResends: nat)
    ensures Kept([], maxResends) == [] && Worn([], maxResends) == {}
  {
  }

  lemma NothingSent(c: seq<Entry>, round: nat, table: set<Hash>)
    ensures Found([], table) == [] && Again(c, round, []) == c
  {
  }

  lemma AgainGrows(c: seq<Entry>, round: nat, es: seq<Entry>, e: Entry)
    ensures Again(c, round, es + [e]) == Emplace(Again(c, round, es), Entry(round, e.hash, e.count + 1))
  {
    assert (es + [e])[..|es|] == es;
  }

  function Due(c: seq<Entry>, round: nat, age: nat): (due: seq<Entry>) {
    if round < age then [] else c[..UpperBound(c, round - age)]
  }

  /** The entries sent again. */
  function Resends(s: State, round: nat, age: nat, maxResends: nat): (es: seq<Entry>) {
    var due := Due(s.cache, round, age);
    Found(Kept(due, maxResends), s.table - Worn(due, maxResends))
  }

  function Check(s: State, round: nat, age: nat, maxResends: nat): (r: State) {
    var due := Due(s.cache, round, age);
    State(Again(s.cache[|due|..], round, Resends(s, round, age, maxResends)), s.table - Worn(due, maxResends))
  }

  lemma {:induction false} KeptIs(due: seq<Entry>, maxResends: nat)
    requires Unique(due)
    ensures Unique(Kept(due, maxResends))
    ensures forall e :: e in Kept(due, maxResends) <==> e in due && MayResend(e, maxResends)
  {
    if due == [] {
    } else {
      var last, init := due[|due| - 1], due[..|due| - 1];
      assert due == init + [last];
      KeptIs(init, maxResends);
      var k := Kept(init, maxResends);
      forall i | 0 <= i < |k| ensures k[i].hash != last.hash {
        assert k[i] in init;
      }
    }
  }

  lemma {:induction false} FoundIs(es: seq<Entry>, table: set<Hash>)
    requires Unique(es)
    ensures Unique(Found(es, table))
    ensures forall e :: e in Found(es, table) <==> e in es && e.hash in table
  {
    if es == [] {
    } else {
      var last, init := es[|es| - 1], es[..|es| - 1];
      assert es == init + [last];
      FoundIs(init, table);
      var k := Found(init, table);
      forall i | 0 <= i < |k| ensures k[i].hash != last.hash {
        assert k[i] in init;
      }
    }
  }

  lemma DueResends(s: State, round: nat, age: nat, maxResends: nat)
    requires Unique(s.cache)
    ensures var es := Resends(s, round, age, maxResends);
      Unique(es) && forall e :: e in es <==>
        e in Due(s.cache, round, age) && MayResend(e, maxResends) && e.hash in s.table
  {
    var due := Due(s.cache, round, age);
    KeptIs(due, maxResends);
    FoundIs(Kept(due, maxResends), s.table - Worn(due, maxResends));
    forall e | e in due && MayResend(e, maxResends) ensures e.hash !in Worn(due, maxResends) {
    }
  }

  /** Exactly the entries that are old enough, have been sent fewer times than the limit, if there is one, and whose
      packet is still there are sent again. */
  lemma ResendsAre(s: State, round: nat, age: nat, maxResends: nat)
    requires Sorted(s.cache) && Unique(s.cache)
    ensures var es := Resends(s, round, age, maxResends);
      Unique(es) && forall e :: e in es <==>
        && e in s.cache && e.round + age <= round && (maxResends == 0 || e.count < maxResends) && e.hash in s.table
  {
    hide Resends;
    DueSplits(s.cache, round, age);
    DueResends(s, round, age, maxResends);
  }

  /** A packet leaves the table exactly when its entry is old enough and has been sent as often as the limit allows. */
  lemma LeavesTheTableIff(s: State, round: nat, age: nat, maxResends: nat, h: Hash)
    requires Sorted(s.cache) && h in s.table
    ensures h !in Check(s, round, age, maxResends).table <==>
      exists e :: e in s.cache && e.hash == h && e.round + age <= round && maxResends > 0 && e.count >= maxResends
  {
    DueSplits(s.cache, round, age);
    var due := Due(s.cache, round, age);
    if h in Worn(due, maxResends) {
      var e :| e in due && !MayResend(e, maxResends) && e.hash == h;
      assert e in s.cache && e.round + age <= round;
    }
    if e :| e in s.cache && e.hash == h && e.round + age <= round && maxResends > 0 && e.count >= maxResends {
      assert e in due && !MayResend(e, maxResends);
    }
  }

  /** An entry of `es` after one more sending. */
  ghost predicate SentAgain(x: Entry, round: nat, es: seq<Entry>) {
    exists e :: e in es && x == Entry(round, e.hash, e.count + 1)
  }

  lemma {:induction false} AgainIs(c: seq<Entry>, round: nat, es: seq<Entry>)
    requires Sorted(c) && Unique(c) && Unique(es) && forall e :: e in es ==> !Has(c, e.hash)
    ensures var r := Again(c, round, es);
      Sorted(r) && Unique(r) && forall x :: x in r <==> x in c || SentAgain(x, round, es)
  {
    if es == [] {
    } else {
      var last, init := es[|es| - 1], es[..|es| - 1];
      var x := Entry(round, last.hash, last.count + 1);
      assert es == init + [last];
      AgainIs(c, round, init);
      var r := Again(c, round, init);
      assert forall y :: y in r ==> y.hash != last.hash;
      EmplaceHolds(r, x);
      EmplaceKeeps(r, x);
      assert forall y :: SentAgain(y, round, es) <==> SentAgain(y, round, init) || y == x;
    }
  }

  lemma SplitKeeps(c: seq<Entry>, k: nat)
    requires Sorted(c) && Unique(c) && k <= |c|
    ensures Sorted(c[k..]) && Unique(c[k..]) && Unique(c[..k])
    ensures forall x, y :: x in c[..k] && y in c[k..] ==> x.hash != y.hash
  {
    forall x, y | x in c[..k] && y in c[k..] ensures x.hash != y.hash {
      var i :| 0 <= i < k && c[i] == x;
      var j :| 0 <= j < |c| - k && c[k..][j] == y;
      assert c[k + j] == y;
    }
  }

  /** The due entries are the old ones. */
  lemma DueSplits(c: seq<Entry>, round: nat, age: nat)
    requires Sorted(c)
    ensures var k := |Due(c, round, age)|;
      && k <= |c| && Due(c, round, age) == c[..k]
      && (forall x :: x in c[..k] ==> x.round + age <= round)
      && (forall x :: x in c[k..] ==> x.round + age > round)
      && (forall x :: x in c <==> x in c[..k] || x in c[k..])
  {
    if round >= age {
      UpperBoundSplits(c, round - age);
    }
    var k := |Due(c, round, age)|;
    assert c == c[..k] + c[k..];
  }

  /** What a check leaves: the entries that are not due, and those sent again, with one more sending counted. */
  lemma CheckIs(s: State, round: nat, age: nat, maxResends: nat)
    requires Sorted(s.cache) && Unique(s.cache)
    ensures var r, es := Check(s, round, age, maxResends), Resends(s, round, age, maxResends);
      && Sorted(r.cache) && Unique(r.cache)
      && (forall x :: x in r.cache <==> (x in s.cache && x.round + age > round) || SentAgain(x, round, es))
      && (forall e :: e in es ==> e in s.cache && e.round + age <= round)
  {
    hide Sorted, Unique, Again, Resends, Due;
    var es := Resends(s, round, age, maxResends);
    var k := |Due(s.cache, round, age)|;
    DueSplits(s.cache, round, age);
    SplitKeeps(s.cache, k);
    DueResends(s, round, age, maxResends);
    AgainIs(s.cache[k..], round, es);
  }

  /** After a check nothing in the cache is `age` or more rounds old. */
  lemma NothingIsOld(s: State, round: nat, age: nat, maxResends: nat)
    requires Sorted(s.cache) && Unique(s.cache) && age > 0
    ensures forall x :: x in Check(s, round, age, maxResends).cache ==> x.round + age > round
  {
    CheckIs(s, round, age, maxResends);
  }

  // ----- whole runs

  /** `known` says whether the packet is found in the metadata of some round. */
  datatype Op = Add(round: nat, hash: Hash, known: bool)
    | Reject(round: nat, hash: Hash, known: bool)
    | Tick(round: nat, age: nat)
    | Remove(hash: Hash)

  datatype Event = Added(hash: Hash) | Resent(hash: Hash)

  function Step(s: State, op: Op, maxResends: nat): (r: State) {
    match op
    case Add(round, h, known) =>
      State(if Has(s.cache, h) then s.cache else Emplace(s.cache, Entry(round, h, 0)),
        if known then s.table else s.table + {h})
    case Reject(round, h, known) =>
      if Has(s.cache, h) || (h !in s.table && !known) then s
      else State(Emplace(s.cache, Entry(round, h, 0)), s.table + {h})
    case Tick(round, age) => Check(s, round, age, maxResends)
    case Remove(h) => State(Erase(s.cache, h), s.table - {h})
  }

  /** What an operation does to the packets that are there. */
  lemma TableAfter(s: State, op: Op, maxResends: nat, h: Hash)
    requires Sorted(s.cache)
    ensures var here, after := h in s.table, h in Step(s, op, maxResends).table;
      match op
      case Add(_, k, known) => after <==> here || (h == k && !known)
      case Reject(_, k, known) => after <==> here || (h == k && known && !Has(s.cache, k))
      case Remove(k) => after <==> here && h != k
      case Tick(round, age) => after ==> here
  {
    hide Emplace;
  }

  /** What it does to the entries: a new one for a hash that has none, at the given round and not sent again yet. */
  lemma EntersIff(s: State, op: Op, maxResends: nat)
    requires op.Add? || op.Reject?
    ensures var enters := !Has(s.cache, op.hash) && (op.Add? || op.hash in s.table || op.known);
      && Events(s, op, maxResends) == (if enters then [Added(op.hash)] else [])
      && (!enters ==> Step(s, op, maxResends).cache == s.cache)
      && (enters ==> forall x ::
            x in Step(s, op, maxResends).cache <==> x in s.cache || x == Entry(op.round, op.hash, 0))
  {
    hide Emplace;
    EmplaceHolds(s.cache, Entry(op.round, op.hash, 0));
  }

  function Sendings(es: seq<Entry>): (ev: seq<Event>) {
    seq(|es|, i requires 0 <= i < |es| => Resent(es[i].hash))
  }

  function Events(s: State, op: Op, maxResends: nat): (ev: seq<Event>) {
    match op
    case Add(round, h, known) => if Has(s.cache, h) then [] else [Added(h)]
    case Reject(round, h, known) => if Has(s.cache, h) || (h !in s.table && !known) then [] else [Added(h)]
    case Tick(round, age) => Sendings(Resends(s, round, age, maxResends))
    case Remove(h) => []
  }

  function Run(s: State, ops: seq<Op>, maxResends: nat): (r: State) {
    if ops == [] then s else Step(Run(s, ops[..|ops| - 1], maxResends), ops[|ops| - 1], maxResends)
  }

  function Log(s: State, ops: seq<Op>, maxResends: nat): (ev: seq<Event>) {
    if ops == [] then []
    else Log(s, ops[..|ops| - 1], maxResends) + Events(Run(s, ops[..|ops| - 1], maxResends), ops[|ops| - 1], maxResends)
  }

  /** How often a hash has been sent again since it last entered the cache. */
  function Streak(log: seq<Event>, h: Hash): (n: nat) {
    if log == [] then 0
    else
      var last, before := log[|log| - 1], log[..|log| - 1];
      if last == Added(h) then 0 else if last == Resent(h) then Streak(before, h) + 1 else Streak(before, h)
  }

  lemma StreakAdded(log: seq<Event>, h: Hash, k: Hash)
    ensures Streak(log + [Added(h)], k) == if k == h then 0 else Streak(log, k)
  {
    assert (log + [Added(h)])[..|log|] == log;
  }

  lemma {:induction false} StreakResent(log: seq<Event>, es: seq<Entry>, h: Hash)
    requires Unique(es)
    ensures Streak(log + Sendings(es), h) == Streak(log, h) + (if Has(es, h) then 1 else 0)
  {
    if es == [] {
      assert log + Sendings(es) == log;
    } else {
      var last, init := es[|es| - 1], es[..|es| - 1];
      StreakResent(log, init, h);
      LastIsNew(es, h);
      StreakOnce(log + Sendings(init), last.hash, h);
      assert log + Sendings(es) == (log + Sendings(init)) + [Resent(last.hash)];
    }
  }

  lemma StreakOnce(log: seq<Event>, sent: Hash, h: Hash)
    ensures Streak(log + [Resent(sent)], h) == Streak(log, h) + (if h == sent then 1 else 0)
  {
    assert (log + [Resent(sent)])[..|log|] == log;
  }

  lemma LastIsNew(es: seq<Entry>, h: Hash)
    requires Unique(es) && es != []
    ensures var last, init := es[|es| - 1], es[..|es| - 1];
      (Has(es, h) <==> Has(init, h) || last.hash == h) && !Has(init, last.hash)
  {
    var last, init := es[|es| - 1], es[..|es| - 1];
    assert es == init + [last];
    assert forall e :: e in es <==> e in init || e == last;
  }

  /** One entry per hash, each counting its own sendings, and no hash sent more often than allowed. */
  ghost predicate Inv(s: State, log: seq<Event>, maxResends: nat) {
    && Sorted(s.cache) && Unique(s.cache)
    && (forall e :: e in s.cache ==> e.count == Streak(log, e.hash))
    && (maxResends > 0 ==> forall h :: Streak(log, h) <= maxResends)
  }

  lemma EnterKeeps(s: State, log: seq<Event>, maxResends: nat, round: nat, h: Hash)
    requires Inv(s, log, maxResends) && !Has(s.cache, h)
    ensures Inv(s.(cache := Emplace(s.cache, Entry(round, h, 0))), log + [Added(h)], maxResends)
  {
    EmplaceKeeps(s.cache, Entry(round, h, 0));
    EmplaceHolds(s.cache, Entry(round, h, 0));
    forall k ensures Streak(log + [Added(h)], k) == if k == h then 0 else Streak(log, k) {
      StreakAdded(log, h, k);
    }
  }

  lemma TickKeeps(s: State, log: seq<Event>, maxResends: nat, round: nat, age: nat)
    requires Inv(s, log, maxResends)
    ensures Inv(Check(s, round, age, maxResends), log + Sendings(Resends(s, round, age, maxResends)), maxResends)
  {
    hide Resends, Check, Streak, Sendings, Sorted;
    var es, r := Resends(s, round, age, maxResends), Check(s, round, age, maxResends);
    CheckIs(s, round, age, maxResends);
    ResendsAre(s, round, age, maxResends);
    forall k ensures Streak(log + Sendings(es), k) == Streak(log, k) + (if Has(es, k) then 1 else 0) {
      StreakResent(log, es, k);
    }
    forall x | x in r.cache ensures x.count == Streak(log + Sendings(es), x.hash) {
      if SentAgain(x, round, es) {
        var e :| e in es && x == Entry(round, e.hash, e.count + 1);
        assert e in s.cache && Has(es, x.hash);
      } else {
        NotSent(s.cache, es, x, round, age);
      }
    }
    forall h | maxResends > 0 && Has(es, h) ensures Streak(log, h) < maxResends {
      var e :| e in es && e.hash == h;
      assert e in s.cache;
    }
  }

  lemma NotSent(c: seq<Entry>, es: seq<Entry>, x: Entry, round: nat, age: nat)
    requires Unique(c) && x in c && x.round + age > round
    requires forall e :: e in es ==> e in c && e.round + age <= round
    ensures !Has(es, x.hash)
  {
    forall e | e in es ensures e.hash != x.hash {
      assert e in c && e != x;
    }
  }

  lemma StepKeeps(s: State, log: seq<Event>, op: Op, maxResends: nat)
    requires Inv(s, log, maxResends)
    ensures Inv(Step(s, op, maxResends), log + Events(s, op, maxResends), maxResends)
  {
    assert log + [] == log;
    match op
    case Add(round, h, _) => if !Has(s.cache, h) { EnterKeeps(s, log, maxResends, round, h); }
    case Reject(round, h, known) => if !Has(s.cache, h) { EnterKeeps(s, log, maxResends, round, h); }
    case Tick(round, age) => TickKeeps(s, log, maxResends, round, age);
    case Remove(h) => EraseKeeps(s.cache, h);
  }

  /** In every run each hash has at most one entry, an entry's count is the number of times it has been sent again
      since it was added, and with a positive limit no stay in the cache sees more sendings than the limit. */
  lemma {:induction false} RunKeeps(s: State, ops: seq<Op>, maxResends: nat)
    requires s.cache == []
    ensures Inv(Run(s, ops, maxResends), Log(s, ops, maxResends), maxResends)
  {
    if ops == [] {
    } else {
      var before := ops[..|ops| - 1];
      RunKeeps(s, before, maxResends);
      StepKeeps(Run(s, before, maxResends), Log(s, before, maxResends), ops[|ops| - 1], maxResends);
    }
  }

  // ----- how often exactly

  /** An entry of the hash is old enough to be sent again. */
  ghost predicate IsDue(s: State, h: Hash, round: nat, age: nat) {
    exists e :: e in s.cache && e.hash == h && e.round + age <= round
  }

  /** At how many checks since it last entered the cache a hash was due with its packet there. */
  ghost function Turns(s: State, ops: seq<Op>, maxResends: nat, h: Hash): nat {
    if ops == [] then 0
    else
      var before, op := ops[..|ops| - 1], ops[|ops| - 1];
      var r, turns := Run(s, before, maxResends), Turns(s, before, maxResends, h);
      match op
      case Add(_, k, _) => if k == h && Events(r, op, maxResends) != [] then 0 else turns
      case Reject(_, k, _) => if k == h && Events(r, op, maxResends) != [] then 0 else turns
      case Tick(round, age) => if IsDue(r, h, round, age) && h in r.table then turns + 1 else turns
      case Remove(_) => turns
  }

  /** A due entry whose packet is there is sent again exactly as long as the limit allows. */
  lemma SentWhenDue(s: State, log: seq<Event>, maxResends: nat, round: nat, age: nat, h: Hash)
    requires Inv(s, log, maxResends)
    ensures var es := Resends(s, round, age, maxResends);
      Has(es, h) <==> IsDue(s, h, round, age) && h in s.table && (maxResends == 0 || Streak(log, h) < maxResends)
  {
    hide Resends, Streak, Sorted, Unique;
    ResendsAre(s, round, age, maxResends);
    var es := Resends(s, round, age, maxResends);
    if Has(es, h) {
      var e :| e in es && e.hash == h;
      assert e in s.cache && e.count == Streak(log, h);
    }
    if IsDue(s, h, round, age) && h in s.table && (maxResends == 0 || Streak(log, h) < maxResends) {
      var e :| e in s.cache && e.hash == h && e.round + age <= round;
      assert e in es;
    }
  }

  /** In every run a hash that came due `n` times with its packet there has been sent again exactly `n` times, or as
      often as the limit allows if that is less. */
  lemma {:induction false} SentExactly(s: State, ops: seq<Op>, maxResends: nat, h: Hash)
    requires s.cache == []
    ensures var turns := Turns(s, ops, maxResends, h);
      Streak(Log(s, ops, maxResends), h) == if maxResends == 0 || turns < maxResends then turns else maxResends
  {
    hide Inv, Resends, Has, IsDue, Sendings;
    if ops == [] {
    } else {
      var before, op := ops[..|ops| - 1], ops[|ops| - 1];
      SentExactly(s, before, maxResends, h);
      RunKeeps(s, before, maxResends);
      var r, log := Run(s, before, maxResends), Log(s, before, maxResends);
      assert log + [] == log;
      match op
      case Add(_, k, _) => StreakAdded(log, k, h);
      case Reject(_, k, _) => StreakAdded(log, k, h);
      case Tick(round, age) =>
        SentOnce(r, log, maxResends, round, age, h);
        SentWhenDue(r, log, maxResends, round, age, h);
      case Remove(_) =>
    }
  }

  lemma SentOnce(s: State, log: seq<Event>, maxResends: nat, round: nat, age: nat, h: Hash)
    requires Inv(s, log, maxResends)
    ensures var es := Resends(s, round, age, maxResends);
      Streak(log + Sendings(es), h) == Streak(log, h) + (if Has(es, h) then 1 else 0)
  {
    hide Resends;
    ResendsAre(s, round, age, maxResends);
    StreakResent(log, Resends(s, round, age, maxResends), h);
  }

  /** And its packet leaves the table at a check exactly when it is due and all the sendings allowed are done. */
  lemma PacketLeavesIff(s: State, ops: seq<Op>, maxResends: nat, round: nat, age: nat, h: Hash)
    requires s.cache == [] && h in Run(s, ops, maxResends).table
    ensures var r := Run(s, ops, maxResends);
      h !in Step(r, Tick(round, age), maxResends).table
      <==> IsDue(r, h, round, age) && maxResends > 0 && Turns(s, ops, maxResends, h) >= maxResends
  {
    hide Run, Log, Streak, Turns, Check;
    RunKeeps(s, ops, maxResends);
    SentExactly(s, ops, maxResends, h);
    LeavesTheTableIff(Run(s, ops, maxResends), round, age, maxResends, h);
  }
}
