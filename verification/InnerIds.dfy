/** The sliding window of inner ids a wallet has already used (BitHeap inside TransactionsTail). */
module InnerIds {

  const WINDOW := 1024

  /** `Used(greatest, bits)`: bit `b` stands for the id `greatest - 1 - b`. */
  datatype Tail = Unused | Used(greatest: int, bits: set<nat>)

  predicate Contains(t: Tail, id: int) {
    match t
    case Unused => false
    case Used(greatest, bits) =>
      id == greatest || (id < greatest && greatest - id - 1 < WINDOW && greatest - id - 1 in bits)
  }

  predicate IsAllowed(t: Tail, id: int) {
    match t
    case Unused => true
    case Used(greatest, _) =>
      if id > greatest then true
      else if id < greatest - WINDOW then false
      else !Contains(t, id)
  }

  /** The bitset shift: bits that leave the window are lost. */
  function Shift(bits: set<nat>, dist: nat): (r: set<nat>) {
    set b | b in bits && b + dist < WINDOW :: b + dist
  }

  function Push(t: Tail, id: int): (r: Tail) {
    match t
    case Unused => Used(id, {})
    case Used(greatest, bits) =>
      if id > greatest then
        var shift := id - greatest;
        Used(id, Shift(bits, shift) + if shift - 1 < WINDOW then {shift - 1} else {})
      else if id < greatest && greatest - id - 1 < WINDOW then
        Used(greatest, bits + {greatest - id - 1})
      else
        t
  }

  /** Pushing an id forbids it, never re-allows an id that was forbidden, even one that has fallen out
      of the window, and forbids nothing else but what drops below the window. */
  lemma PushForbids(t: Tail, id: int, other: int)
    ensures !IsAllowed(Push(t, id), other)
       <==> other == id || !IsAllowed(t, other) || other < Push(t, id).greatest - WINDOW
  {
    if t.Used? && id > t.greatest && t.greatest - other - 1 >= 0 && t.greatest - other - 1 in t.bits {
      if other >= id - WINDOW {
        assert (t.greatest - other - 1) + (id - t.greatest) in Shift(t.bits, id - t.greatest);
      }
    }
  }

  /** The window after a run of ids. */
  function Pushes(ids: seq<int>): (t: Tail) {
    if ids == [] then Unused else Push(Pushes(ids[..|ids| - 1]), ids[|ids| - 1])
  }

  lemma {:induction false} GreatestIs(ids: seq<int>)
    ensures ids == [] <==> Pushes(ids).Unused?
    ensures ids != [] ==> Pushes(ids).greatest in ids && forall y :: y in ids ==> y <= Pushes(ids).greatest
  {
    if ids == [] {
    } else {
      GreatestIs(ids[..|ids| - 1]);
      assert ids == ids[..|ids| - 1] + [ids[|ids| - 1]];
    }
  }

  /** No more than 1024 below any of them. */
  predicate Near(ids: seq<int>, id: int) {
    forall y :: y in ids ==> y - id <= 1024
  }

  /** What the window stands for: after any run an id is allowed if and only if it was never used and lies no more than
      1024 below any id that was. */
  lemma {:induction false} AllowedIff(ids: seq<int>, id: int)
    ensures IsAllowed(Pushes(ids), id) <==> id !in ids && Near(ids, id)
  {
    hide IsAllowed, Push, Pushes, Near;
    if ids == [] {
      NothingPushed(id);
    } else {
      var before, last := ids[..|ids| - 1], ids[|ids| - 1];
      AllowedIff(before, id);
      PushedLast(ids);
      PushForbids(Pushes(before), last, id);
      GreatestIs(ids);
      NearGreatest(ids, Pushes(ids).greatest, id);
      NearMore(ids, id);
    }
  }

  lemma NearGreatest(ids: seq<int>, greatest: int, id: int)
    requires greatest in ids && forall y :: y in ids ==> y <= greatest
    ensures Near(ids, id) <==> greatest - id <= 1024
  {
  }

  lemma NearMore(ids: seq<int>, id: int)
    requires ids != []
    ensures var before, last := ids[..|ids| - 1], ids[|ids| - 1];
      (Near(ids, id) ==> Near(before, id)) && (id in ids <==> id in before || id == last)
  {
    var before, last := ids[..|ids| - 1], ids[|ids| - 1];
    assert ids == before + [last];
    assert forall y :: y in ids <==> y in before || y == last;
  }

  lemma PushContains(t: Tail, id: int, other: int)
    ensures var r := Push(t, id);
      Contains(r, other) <==> r.greatest - other <= WINDOW && (other == id || Contains(t, other))
  {
    if t.Used? && id > t.greatest && other < t.greatest && t.greatest - other - 1 in t.bits {
      if id - other <= WINDOW {
        assert (t.greatest - other - 1) + (id - t.greatest) in Shift(t.bits, id - t.greatest);
      }
    }
  }

  /** And it is told apart from an id that is merely too old if and only if it was used and is near enough. */
  lemma {:induction false} DuplicatedIff(ids: seq<int>, id: int)
    ensures Contains(Pushes(ids), id) <==> id in ids && Near(ids, id)
  {
    hide Contains, Push, Pushes, Near;
    if ids == [] {
      NothingPushed(id);
    } else {
      var before, last := ids[..|ids| - 1], ids[|ids| - 1];
      DuplicatedIff(before, id);
      PushedLast(ids);
      PushContains(Pushes(before), last, id);
      GreatestIs(ids);
      NearGreatest(ids, Pushes(ids).greatest, id);
      NearMore(ids, id);
    }
  }

  lemma NothingPushed(id: int)
    ensures IsAllowed(Pushes([]), id) && !Contains(Pushes([]), id) && Near([], id)
  {
  }

  lemma PushedLast(ids: seq<int>)
    requires ids != []
    ensures Pushes(ids) == Push(Pushes(ids[..|ids| - 1]), ids[|ids| - 1])
  {
  }
}
