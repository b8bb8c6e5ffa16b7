/** The gaps in the chain to ask the network for. */
module RequiredBlocks {

  /** Both ends belong to the interval. */
  datatype Interval = Interval(lo: nat, hi: nat)

  /** The keys of the block cache in order. */
  ghost predicate Increasing(keys: seq<nat>) {
    forall i, j :: 0 <= i < j < |keys| ==> keys[i] < keys[j]
  }

  ghost predicate Covers(v: seq<Interval>, q: nat) {
    exists i :: 0 <= i < |v| && v[i].lo <= q <= v[i].hi
  }

  ghost predicate SortedDisjoint(v: seq<Interval>) {
    && (forall i :: 0 <= i < |v| ==> v[i].lo <= v[i].hi)
    && (forall i, j :: 0 <= i < j < |v| ==> v[i].hi < v[j].lo)
  }

  /** Everything in the list lies below `bound`. */
  ghost predicate Below(v: seq<Interval>, bound: nat) {
    forall i :: 0 <= i < |v| ==> v[i].hi < bound
  }

  lemma CoversAppend(v: seq<Interval>, e: Interval, q: nat)
    ensures Covers(v + [e], q) <==> Covers(v, q) || e.lo <= q <= e.hi
  {
    if Covers(v, q) {
      var i :| 0 <= i < |v| && v[i].lo <= q <= v[i].hi;
      assert (v + [e])[i] == v[i];
    }
    if e.lo <= q <= e.hi {
      assert (v + [e])[|v|] == e;
    }
  }

  // ----- the specification

  /** The gaps from `first` up to the key numbered `j`, of the keys from number `u` on. */
  function Gaps(first: nat, keys: seq<nat>, u: nat, j: nat): (v: seq<Interval>)
    requires u <= j < |keys| && first < keys[u]
  {
    if j == u then [Interval(first, keys[u] - 1)]
    else
      var before := Gaps(first, keys, u, j - 1);
      if keys[j] > keys[j - 1] + 1 then before + [Interval(keys[j - 1] + 1, keys[j] - 1)] else before
  }

  lemma {:induction false} GapsCover(first: nat, keys: seq<nat>, u: nat, j: nat, q: nat)
    requires Increasing(keys) && u <= j < |keys| && first < keys[u]
    ensures Covers(Gaps(first, keys, u, j), q) <==> first <= q < keys[j] && forall i :: u <= i < j ==> keys[i] != q
  {
    if j == u {
      assert [] + [Interval(first, keys[u] - 1)] == [Interval(first, keys[u] - 1)];
      CoversAppend([], Interval(first, keys[u] - 1), q);
    } else {
      GapsCover(first, keys, u, j - 1, q);
      assert (forall i :: u <= i < j ==> keys[i] != q) <==>
        keys[j - 1] != q && forall i :: u <= i < j - 1 ==> keys[i] != q;
      if keys[j] > keys[j - 1] + 1 {
        CoversAppend(Gaps(first, keys, u, j - 1), Interval(keys[j - 1] + 1, keys[j] - 1), q);
      }
    }
  }

  lemma {:induction false} GapsAreSorted(first: nat, keys: seq<nat>, u: nat, j: nat)
    requires Increasing(keys) && u <= j < |keys| && first < keys[u]
    ensures SortedDisjoint(Gaps(first, keys, u, j)) && Below(Gaps(first, keys, u, j), keys[j])
  {
    if j <= u {
    } else {
      GapsAreSorted(first, keys, u, j - 1);
    }
  }

  /** The number of keys at or below a number, all in front. */
  function Passed(keys: seq<nat>, first: nat): (u: nat)
    ensures u <= |keys| && (u < |keys| ==> keys[u] > first)
  {
    if keys == [] || keys[0] > first then 0 else 1 + Passed(keys[1..], first)
  }

  /** The gaps above `first`, or everything if nothing is cached there; then from the highest cached block on. */
  function Asked(first: nat, round: nat, keys: seq<nat>): (v: seq<Interval>) {
    var u, n := Passed(keys, first), |keys|;
    var gaps := if u < n then Gaps(first, keys, u, n - 1) else [Interval(first, round)];
    if n > 0 && round > keys[n - 1] then gaps + [Interval(keys[n - 1], round)] else gaps
  }

  // ----- the code

  /** The first key above a number, as `upper_bound` finds it. */
  method UpperBound(keys: seq<nat>, first: nat) returns (u: nat)
    requires Increasing(keys)
    ensures u == Passed(keys, first)
    ensures forall i :: 0 <= i < |keys| ==> (keys[i] <= first <==> i < u)
  {
    u := 0;
    while u < |keys| && keys[u] <= first
      invariant 0 <= u <= |keys| && u + Passed(keys[u..], first) == Passed(keys, first)
      invariant forall i :: 0 <= i < u ==> keys[i] <= first
    {
      assert keys[u..][1..] == keys[u + 1..];
      u := u + 1;
    }
  }

  /** What is asked for, by number. */
  ghost predicate Wanted(first: nat, round: nat, keys: seq<nat>, q: nat) {
    if keys == [] || keys[|keys| - 1] <= first then
      first <= q <= round || (keys != [] && keys[|keys| - 1] <= q <= round && keys[|keys| - 1] < round)
    else
      var top := keys[|keys| - 1];
      (first <= q < top && (q == first || q !in keys)) || (top <= q <= round && top < round)
  }

  /** The condition under which the intervals do not overlap: the cache is empty, reaches above the next block, or
      reaches the target. */
  predicate InOrder(first: nat, round: nat, keys: seq<nat>) {
    keys == [] || keys[|keys| - 1] > first || round <= keys[|keys| - 1]
  }

  method GetRequiredBlocks(last: nat, currentRound: nat, keys: seq<nat>) returns (v: seq<Interval>)
    requires Increasing(keys)
    ensures v == if last + 1 < currentRound then Asked(last + 1, currentRound - 1, keys) else []
    ensures last + 1 < currentRound ==> forall q: nat :: Covers(v, q) <==> Wanted(last + 1, currentRound - 1, keys, q)
    ensures last + 1 < currentRound ==> (SortedDisjoint(v) <==> InOrder(last + 1, currentRound - 1, keys))
  {
    var first := last + 1;
    if first >= currentRound {
      return [];
    }
    var round := if first > currentRound - 1 then first else currentRound - 1;
    v := [Interval(first, round)];
    var u := UpperBound(keys, first);
    assert u == |keys| <==> keys == [] || keys[|keys| - 1] <= first;
    if u < |keys| {
      v := FillGaps(first, keys, u);
      GapsAreSorted(first, keys, u, |keys| - 1);
    }
    ghost var before := v;
    if keys != [] && round > keys[|keys| - 1] {
      v := v + [Interval(keys[|keys| - 1], round)];
      if u == |keys| {
        assert v[0].hi >= v[1].lo && !SortedDisjoint(v);
      } else {
        assert forall i :: 0 <= i < |before| ==> v[i] == before[i];
        assert SortedDisjoint(v);
      }
    }
    forall q: nat ensures Covers(v, q) <==> Wanted(first, round, keys, q) {
      if u < |keys| {
        CoveredGaps(first, keys, u, q);
      } else {
        assert before == [] + [Interval(first, round)];
        CoversAppend([], Interval(first, round), q);
      }
      if keys != [] {
        CoversAppend(before, Interval(keys[|keys| - 1], round), q);
      }
    }
  }

  lemma CoveredGaps(first: nat, keys: seq<nat>, u: nat, q: nat)
    requires Increasing(keys) && u < |keys| && (forall i :: 0 <= i < u ==> keys[i] <= first) && first < keys[u]
    ensures Covers(Gaps(first, keys, u, |keys| - 1), q) <==>
      first <= q < keys[|keys| - 1] && (q == first || q !in keys)
  {
    GapsCover(first, keys, u, |keys| - 1, q);
    if first < q < keys[|keys| - 1] && q in keys {
      var i :| 0 <= i < |keys| && keys[i] == q;
      assert u <= i < |keys| - 1;
    }
  }

  method FillGaps(first: nat, keys: seq<nat>, u: nat) returns (v: seq<Interval>)
    requires Increasing(keys) && u < |keys| && first < keys[u]
    ensures v == Gaps(first, keys, u, |keys| - 1)
  {
    var sequence := keys[u];
    v := [Interval(first, sequence - 1)];
    var j := u + 1;
    while j < |keys|
      invariant u < j <= |keys| && sequence == keys[j - 1]
      invariant v == Gaps(first, keys, u, j - 1)
    {
      sequence := sequence + 1;
      if keys[j] != sequence {
        v := v + [Interval(sequence, keys[j] - 1)];
        sequence := keys[j];
      }
      j := j + 1;
    }
  }

  /** With the cache above the next block, everything not cached up to the target is asked for, and of what is
      cached only the highest block, when the target is beyond it. */
  lemma AsksForWhatIsMissing(first: nat, round: nat, keys: seq<nat>, q: nat)
    requires Increasing(keys) && forall i :: 0 <= i < |keys| ==> keys[i] > first
    ensures first <= q <= round && q !in keys ==> Wanted(first, round, keys, q)
    ensures q in keys ==> (Wanted(first, round, keys, q) <==> q == keys[|keys| - 1] && q < round)
  {
    if q in keys {
      var i :| 0 <= i < |keys| && keys[i] == q;
      assert i < |keys| - 1 ==> keys[i] < keys[|keys| - 1];
    }
  }

  /** The next block alone in the cache: it is asked for twice. */
  lemma OverlapExample()
    ensures Asked(5, 9, [5]) == [Interval(5, 9), Interval(5, 9)] && !SortedDisjoint(Asked(5, 9, [5]))
  {
    assert [5][1..] == [];
    var v := [Interval(5, 9)] + [Interval(5, 9)];
    assert v == [Interval(5, 9), Interval(5, 9)] && v[0].hi >= v[1].lo;
  }
}
