/** What every run of arrivals, reads and drops of one message keeps. */
module FragmentRuns {
  import opened Bytes
  import opened Options
  import opened Fragments

  /** The slots, the composed data kept from an earlier read, and whether the slots were dropped since then. */
  datatype State = State(slots: Slots, kept: Option<seq<Byte>>, stale: bool)

  datatype Op = Arrive(packet: Packet) | Read | Extract | Drop

  predicate Composable(s: Slots) {
    AllThere(s) && Uniform(Contents(s), HeadersLength(s[0].value.flags))
  }

  function FullOf(s: Slots): (data: seq<Byte>)
    requires Composable(s)
  {
    Composed(Contents(s), HeadersLength(s[0].value.flags))
  }

  predicate Fits(op: Op, header: Header) {
    op.Arrive? ==> op.packet.header == header && HasValidFragmentation(op.packet) && WellFormed(op.packet)
  }

  function Start(header: Header): (s: State) {
    State(Nothing(header.fragmentsNum), None, false)
  }

  /** A read composes only when nothing is kept; an extraction takes the kept data away; a drop keeps it. */
  function Step(s: State, op: Op): (r: State)
    requires op.Arrive? ==> op.packet.fragment < |s.slots|
    ensures |r.slots| == |s.slots|
  {
    match op
    case Arrive(p) => s.(slots := Place(s.slots, p))
    case Read => if s.kept.None? && Composable(s.slots) then State(s.slots, Some(FullOf(s.slots)), false) else s
    case Extract => State(s.slots, None, false)
    case Drop => State(Nothing(|s.slots|), s.kept, s.kept.Some?)
  }

  ghost predicate IsRun(header: Header, ops: seq<Op>) {
    forall i :: 0 <= i < |ops| ==> Fits(ops[i], header)
  }

  function Run(header: Header, ops: seq<Op>): (s: State)
    requires IsRun(header, ops)
    ensures |s.slots| == header.fragmentsNum
  {
    if ops == [] then Start(header)
    else
      var n := |ops| - 1;
      assert Fits(ops[n], header);
      Step(Run(header, ops[..n]), ops[n])
  }

  // ----- which packets are there

  /** The first packet with a number since the message was last dropped. */
  function FirstSince(ops: seq<Op>, i: nat): (p: Option<Packet>) {
    if ops == [] || ops[|ops| - 1].Drop? then None
    else
      var before, op := FirstSince(ops[..|ops| - 1], i), ops[|ops| - 1];
      if before.None? && op.Arrive? && op.packet.fragment == i then Some(op.packet) else before
  }

  lemma {:induction false} RunKeepsTheFirst(header: Header, ops: seq<Op>, i: nat)
    requires IsRun(header, ops) && i < header.fragmentsNum
    ensures Run(header, ops).slots[i] == FirstSince(ops, i)
  {
    if ops == [] {
    } else {
      assert Fits(ops[|ops| - 1], header);
      RunKeepsTheFirst(header, ops[..|ops| - 1], i);
    }
  }

  /** The packets of one message, by number. Their flags may differ. */
  ghost predicate IsMessage(frags: seq<Packet>, header: Header) {
    && 0 < |frags| == header.fragmentsNum < 0x1_0000
    && forall i :: 0 <= i < |frags| ==> frags[i].header == header && frags[i].fragment == i && WellFormed(frags[i])
  }

  ghost predicate ArriveFrom(ops: seq<Op>, frags: seq<Packet>) {
    forall k :: 0 <= k < |ops| && ops[k].Arrive? ==> ops[k].packet in frags
  }

  lemma {:induction false} FirstIsTheFragment(frags: seq<Packet>, header: Header, ops: seq<Op>, i: nat)
    requires IsMessage(frags, header) && i < |frags| && ArriveFrom(ops, frags)
    ensures FirstSince(ops, i).Some? ==> FirstSince(ops, i).value == frags[i]
  {
    if ops == [] {
    } else {
      FirstIsTheFragment(frags, header, ops[..|ops| - 1], i);
    }
  }

  lemma SlotHolds(frags: seq<Packet>, header: Header, ops: seq<Op>, i: nat)
    requires IsMessage(frags, header) && IsRun(header, ops) && ArriveFrom(ops, frags) && i < |frags|
    ensures Run(header, ops).slots[i] == if FirstSince(ops, i).Some? then Some(frags[i]) else None
  {
    RunKeepsTheFirst(header, ops, i);
    FirstIsTheFragment(frags, header, ops, i);
  }

  /** Whatever order, repetitions and drops there were: every filled slot holds its fragment, and the message is
      complete exactly when every number has arrived since the last drop. */
  lemma RunHoldsTheMessage(frags: seq<Packet>, header: Header, ops: seq<Op>)
    requires IsMessage(frags, header) && IsRun(header, ops) && ArriveFrom(ops, frags)
    ensures forall i :: 0 <= i < |frags| ==>
      Run(header, ops).slots[i] == if FirstSince(ops, i).Some? then Some(frags[i]) else None
    ensures Empties(Run(header, ops).slots) == 0 <==> forall i :: 0 <= i < |frags| ==> FirstSince(ops, i).Some?
  {
    hide Run, FirstSince, Empties;
    var s := Run(header, ops).slots;
    forall i | 0 <= i < |frags| ensures s[i] == if FirstSince(ops, i).Some? then Some(frags[i]) else None {
      SlotHolds(frags, header, ops, i);
    }
    NoEmpties(s);
  }

  /** A complete message holds exactly its fragments, in order, however they came. */
  lemma CompleteIsWhole(frags: seq<Packet>, header: Header, ops: seq<Op>)
    requires IsMessage(frags, header) && IsRun(header, ops) && ArriveFrom(ops, frags)
    requires Empties(Run(header, ops).slots) == 0
    ensures AllThere(Run(header, ops).slots) && Contents(Run(header, ops).slots) == frags
  {
    var s := Run(header, ops).slots;
    NoEmpties(s);
    hide Run, Empties, FirstSince;
    forall i | 0 <= i < |frags| ensures s[i] == Some(frags[i]) {
      SlotHolds(frags, header, ops, i);
    }
  }

  /** From the wire to the reader: fragments with headers of one length, received in any order with repetitions and
      drops, compose to the first headers followed by all payloads in order, and the code fills its buffer exactly. */
  lemma MessageIsRestored(frags: seq<Packet>, headers: nat, header: Header, ops: seq<Op>)
    requires IsMessage(frags, header) && SameHeaders(frags, headers)
    requires IsRun(header, ops) && ArriveFrom(ops, frags) && Empties(Run(header, ops).slots) == 0
    ensures Received(frags) && FillsExactly(frags, headers)
    ensures Composable(Run(header, ops).slots)
    ensures FullOf(Run(header, ops).slots) == frags[0].data[..headers] + Joined(Payloads(frags))
  {
    CompleteIsWhole(frags, header, ops);
    hide Run, Empties;
    assert Uniform(frags, headers) by {
      forall i | 0 <= i < |frags| ensures headers <= |frags[i].data| {
        assert WellFormed(frags[i]);
      }
    }
    FillsExactlyIff(frags, headers);
    PayloadsIff(frags, headers);
    ComposedJoinsChunks(frags, headers, Payloads(frags));
  }

  // ----- what a reader gets

  datatype Outcome = Text(data: seq<Byte>) | Undefined

  /** The data behind the headers of the packet now in the first slot. Without that packet, without anything to
      compose, or with less data than headers, the read is undefined. */
  function ReadOf(s: State): (r: Outcome) {
    var full := Step(s, Read).kept;
    if full.None? || s.slots == [] || s.slots[0].None? then Undefined
    else
      var headers := HeadersLength(s.slots[0].value.flags);
      if headers > |full.value| then Undefined else Text(full.value[headers..])
  }

  /** The message that is in the slots now. */
  function Current(s: Slots): (data: seq<Byte>)
    requires Composable(s)
    ensures HeadersLength(s[0].value.flags) <= |FullOf(s)|
  {
    CurrentHasHeaders(s);
    FullOf(s)[HeadersLength(s[0].value.flags)..]
  }

  lemma CurrentHasHeaders(s: Slots)
    requires Composable(s)
    ensures Contents(s)[0].data <= FullOf(s)
  {
    var ps, headers := Contents(s), HeadersLength(s[0].value.flags);
    ComposedStep(ps, headers, 0);
    assert ps[..0] == [] && [] + ps[0].data == ps[0].data;
    ComposedGrows(ps, headers, 1);
  }

  /** The reader gets the message that is there. */
  ghost predicate Right(s: State) {
    Composable(s.slots) && ReadOf(s) == Text(Current(s.slots))
  }

  /** Data kept and not outlived by a drop is what the slots compose to. */
  ghost predicate KeptIsCurrent(s: State) {
    s.kept.Some? && !s.stale ==> Composable(s.slots) && s.kept == Some(FullOf(s.slots))
  }

  lemma {:induction false} RunKeepsCurrent(header: Header, ops: seq<Op>)
    requires IsRun(header, ops)
    ensures KeptIsCurrent(Run(header, ops)) && (Run(header, ops).stale ==> Run(header, ops).kept.Some?)
  {
    if ops == [] {
    } else {
      var n := |ops| - 1;
      assert Fits(ops[n], header);
      RunKeepsCurrent(header, ops[..n]);
      var s := Run(header, ops[..n]);
      assert ops[n].Arrive? && AllThere(s.slots) ==> Place(s.slots, ops[n].packet) == s.slots;
    }
  }

  /** Nothing kept, or no drop since it was kept: the reader gets the message that is there. */
  lemma FreshReadIsRight(header: Header, ops: seq<Op>)
    requires IsRun(header, ops) && Composable(Run(header, ops).slots) && !Run(header, ops).stale
    ensures Right(Run(header, ops))
  {
    RunKeepsCurrent(header, ops);
    CurrentHasHeaders(Run(header, ops).slots);
  }

  // ----- runs that differ only in the bytes carried

  predicate Alike(p: Packet, q: Packet) {
    p.flags == q.flags && p.header == q.header && p.fragment == q.fragment && |p.data| == |q.data|
  }

  predicate AlikeOps(a: Op, b: Op) {
    if a.Arrive? then b.Arrive? && Alike(a.packet, b.packet) else a == b
  }

  ghost predicate SameShape(ops: seq<Op>, other: seq<Op>) {
    |ops| == |other| && forall i :: 0 <= i < |ops| ==> AlikeOps(ops[i], other[i])
  }

  ghost predicate AlikeSlots(s: Slots, t: Slots) {
    |s| == |t| && forall i :: 0 <= i < |s| ==>
      s[i].Some? == t[i].Some? && (s[i].Some? ==> Alike(s[i].value, t[i].value))
  }

  lemma AlikeComposable(s: Slots, t: Slots)
    requires AlikeSlots(s, t)
    ensures Composable(s) == Composable(t)
  {
  }

  ghost predicate AlikeStates(s: State, t: State) {
    AlikeSlots(s.slots, t.slots) && s.kept.Some? == t.kept.Some? && s.stale == t.stale
  }

  lemma StepShape(s: State, t: State, a: Op, b: Op)
    requires AlikeStates(s, t) && AlikeOps(a, b) && (a.Arrive? ==> a.packet.fragment < |s.slots|)
    ensures AlikeStates(Step(s, a), Step(t, b))
  {
    AlikeComposable(s.slots, t.slots);
    hide Composable, FullOf;
  }

  lemma ShapeFits(header: Header, ops: seq<Op>, other: seq<Op>)
    requires IsRun(header, ops) && SameShape(ops, other)
    ensures IsRun(header, other)
  {
    forall i | 0 <= i < |other| ensures Fits(other[i], header) {
      assert Fits(ops[i], header) && AlikeOps(ops[i], other[i]);
    }
  }

  /** What is kept, and whether a drop has outlived it, does not depend on the bytes. */
  lemma {:induction false} ShapeDecides(header: Header, ops: seq<Op>, other: seq<Op>)
    requires IsRun(header, ops) && SameShape(ops, other)
    ensures IsRun(header, other) && AlikeStates(Run(header, ops), Run(header, other))
  {
    ShapeFits(header, ops, other);
    if ops == [] {
    } else {
      var n := |ops| - 1;
      assert AlikeOps(ops[n], other[n]) && Fits(ops[n], header);
      assert SameShape(ops[..n], other[..n]) by {
        assert forall i :: 0 <= i < n ==> ops[..n][i] == ops[i] && other[..n][i] == other[i];
      }
      ShapeDecides(header, ops[..n], other[..n]);
      hide AlikeStates, SameShape, Step;
      StepShape(Run(header, ops[..n]), Run(header, other[..n]), ops[n], other[n]);
    }
  }

  // ----- other bytes after the last drop

  function Changed(p: Packet): (q: Packet)
    requires p.data != []
    ensures Alike(p, q) && q.data[|q.data| - 1] != p.data[|p.data| - 1]
  {
    var n := |p.data| - 1;
    var last: int := p.data[n];
    p.(data := p.data[n := if last == 255 then 0 else last + 1])
  }

  function ChangedSlots(s: Slots): (t: Slots)
    requires Filled(s)
    ensures |t| == |s|
  {
    seq(|s|, i requires 0 <= i < |s| => if s[i].None? then None else Some(Changed(s[i].value)))
  }

  ghost predicate Filled(s: Slots) {
    forall i :: 0 <= i < |s| && s[i].Some? ==> s[i].value.data != []
  }

  /** The same run, with the last byte changed of every packet since the last drop. */
  function Altered(header: Header, ops: seq<Op>): (r: seq<Op>)
    requires IsRun(header, ops)
    ensures |r| == |ops|
  {
    if ops == [] || ops[|ops| - 1].Drop? then ops
    else
      var n := |ops| - 1;
      assert Fits(ops[n], header);
      Altered(header, ops[..n]) + [if ops[n].Arrive? then Arrive(Changed(ops[n].packet)) else ops[n]]
  }

  lemma {:induction false} AlteredHasTheShape(header: Header, ops: seq<Op>)
    requires IsRun(header, ops)
    ensures SameShape(ops, Altered(header, ops))
  {
    if ops == [] || ops[|ops| - 1].Drop? {
    } else {
      var n := |ops| - 1;
      AlteredHasTheShape(header, ops[..n]);
      assert Fits(ops[n], header);
      var r := Altered(header, ops);
      forall i | 0 <= i < |ops| ensures AlikeOps(ops[i], r[i]) {
        if i < n {
          assert AlikeOps(ops[..n][i], Altered(header, ops[..n])[i]);
        }
      }
    }
  }

  /** In a stale run the altered bytes reach the slots and not the kept data. */
  lemma {:induction false} AlteredReachesSlots(header: Header, ops: seq<Op>)
    requires IsRun(header, ops) && Run(header, ops).stale
    ensures IsRun(header, Altered(header, ops)) && Filled(Run(header, ops).slots)
    ensures Run(header, Altered(header, ops)).slots == ChangedSlots(Run(header, ops).slots)
    ensures Run(header, Altered(header, ops)).kept == Run(header, ops).kept
  {
    hide Place, ChangedSlots, Filled, Composable, SameShape, AlikeStates;
    AlteredHasTheShape(header, ops);
    ShapeDecides(header, ops, Altered(header, ops));
    RunKeepsCurrent(header, ops);
    NothingChanged(header.fragmentsNum);
    if ops == [] || ops[|ops| - 1].Drop? {
    } else {
      var n := |ops| - 1;
      assert Fits(ops[n], header);
      AlteredReachesSlots(header, ops[..n]);
      if ops[n].Arrive? {
        ChangedPlace(Run(header, ops[..n]).slots, ops[n].packet);
      }
      assert Altered(header, ops)[..n] == Altered(header, ops[..n]);
    }
  }

  lemma NothingChanged(total: nat)
    ensures Filled(Nothing(total)) && ChangedSlots(Nothing(total)) == Nothing(total)
  {
  }

  lemma ChangedPlace(s: Slots, p: Packet)
    requires Filled(s) && p.fragment < |s| && p.data != []
    ensures Filled(Place(s, p)) && ChangedSlots(Place(s, p)) == Place(ChangedSlots(s), Changed(p))
  {
  }

  lemma ChangedIsNoticed(s: Slots)
    requires Composable(s) && Filled(s) && Composable(ChangedSlots(s)) &&
      HeadersLength(s[0].value.flags) < |s[0].value.data|
    ensures Current(ChangedSlots(s)) != Current(s)
  {
    hide FullOf, Contents, HeadersLength, Current;
    var n := |s[0].value.data| - 1;
    CurrentByte(s, n);
    CurrentByte(ChangedSlots(s), n);
  }

  lemma CurrentByte(s: Slots, n: nat)
    requires Composable(s) && HeadersLength(s[0].value.flags) <= n < |s[0].value.data|
    ensures var k := n - HeadersLength(s[0].value.flags);
      k < |Current(s)| && Current(s)[k] == s[0].value.data[n]
  {
    CurrentHasHeaders(s);
    assert Contents(s)[0] == s[0].value;
  }

  lemma {:induction false} SlotsAreWellFormed(header: Header, ops: seq<Op>)
    requires IsRun(header, ops)
    ensures forall i :: 0 <= i < header.fragmentsNum && Run(header, ops).slots[i].Some? ==>
      WellFormed(Run(header, ops).slots[i].value)
  {
    if ops == [] {
    } else {
      assert Fits(ops[|ops| - 1], header);
      SlotsAreWellFormed(header, ops[..|ops| - 1]);
    }
  }

  lemma StaleReadIsWrong(header: Header, ops: seq<Op>)
    requires IsRun(header, ops) && Composable(Run(header, ops).slots) && Run(header, ops).stale
    ensures IsRun(header, Altered(header, ops)) && SameShape(ops, Altered(header, ops))
    ensures !(Right(Run(header, ops)) && Right(Run(header, Altered(header, ops))))
  {
    AlteredHasTheShape(header, ops);
    AlteredReachesSlots(header, ops);
    SlotsAreWellFormed(header, ops);
    RunKeepsCurrent(header, ops);
    var s, t := Run(header, ops), Run(header, Altered(header, ops));
    if Composable(t.slots) {
      ChangedIsNoticed(s.slots);
    }
  }

  /** A complete message is read right, whatever bytes its packets carry, exactly when nothing is kept or no drop came
      since it was kept. */
  lemma ReadIsRightIff(header: Header, ops: seq<Op>)
    requires IsRun(header, ops) && Composable(Run(header, ops).slots)
    ensures !Run(header, ops).stale <==>
      forall other :: SameShape(ops, other) ==> IsRun(header, other) && Right(Run(header, other))
  {
    if Run(header, ops).stale {
      StaleReadIsWrong(header, ops);
      assert SameShape(ops, ops);
    } else {
      forall other | SameShape(ops, other) ensures IsRun(header, other) && Right(Run(header, other)) {
        ShapeDecides(header, ops, other);
        AlikeComposable(Run(header, ops).slots, Run(header, other).slots);
        FreshReadIsRight(header, other);
      }
    }
  }

  ghost predicate Single(p: Packet, header: Header) {
    header.fragmentsNum == 1 && Fits(Arrive(p), header)
  }

  lemma AfterRead(p: Packet, header: Header)
    requires Single(p, header)
    ensures IsRun(header, [Arrive(p), Read])
    ensures Run(header, [Arrive(p), Read]) == State([Some(p)], Some(p.data), false)
  {
    OneFragment(p);
    assert Nothing(1) == [None] && [None][0 := Some(p)] == [Some(p)];
    RunAppend(header, [], Arrive(p));
    assert [] + [Arrive(p)] == [Arrive(p)] && [Arrive(p)] + [Read] == [Arrive(p), Read];
    RunAppend(header, [Arrive(p)], Read);
  }

  /** Complete, read, drop, complete again under the same header: the first message is still kept. */
  lemma AfterDropAndReturn(p: Packet, q: Packet, header: Header)
    requires Single(p, header) && Single(q, header)
    ensures IsRun(header, [Arrive(p), Read, Drop, Arrive(q)])
    ensures Run(header, [Arrive(p), Read, Drop, Arrive(q)]) == State([Some(q)], Some(p.data), true)
  {
    AfterRead(p, header);
    assert Nothing(1) == [None] && [None][0 := Some(q)] == [Some(q)];
    hide Run;
    RunAppend(header, [Arrive(p), Read], Drop);
    assert [Arrive(p), Read] + [Drop] == [Arrive(p), Read, Drop];
    RunAppend(header, [Arrive(p), Read, Drop], Arrive(q));
    assert [Arrive(p), Read, Drop] + [Arrive(q)] == [Arrive(p), Read, Drop, Arrive(q)];
  }

  /** So the reader gets the first message while the second is there. */
  lemma StaleRead(header: Header)
    requires header.fragmentsNum == 1
    ensures var p, q := Packet(2, header, 0, seq(78, i => 1)), Packet(2, header, 0, seq(78, i => 2));
      var ops := [Arrive(p), Read, Drop, Arrive(q)];
      && IsRun(header, ops) && Composable(Run(header, ops).slots)
      && Current(Run(header, ops).slots) == [2] && ReadOf(Run(header, ops)) == Text([1])
  {
    var p, q := Packet(2, header, 0, seq(78, i => 1)), Packet(2, header, 0, seq(78, i => 2));
    assert HeadersLength(2) == 77;
    AfterDropAndReturn(p, q, header);
    OneFragment(q);
    hide Run, FullOf, Composable, HeadersLength;
    assert p.data[77..] == [1] && q.data[77..] == [2];
  }

  lemma RunAppend(header: Header, ops: seq<Op>, op: Op)
    requires IsRun(header, ops) && Fits(op, header)
    ensures IsRun(header, ops + [op]) && Run(header, ops + [op]) == Step(Run(header, ops), op)
  {
    assert (ops + [op])[..|ops|] == ops;
  }

  lemma OneFragment(p: Packet)
    requires HeadersLength(p.flags) <= |p.data|
    ensures Composable([Some(p)]) && FullOf([Some(p)]) == p.data
  {
    var headers := HeadersLength(p.flags);
    assert Contents([Some(p)]) == [p] && [p][..0] == [];
    assert Composed([], headers) == [] && Piece([p], headers, 0) == p.data && [] + p.data == p.data;
  }
}
