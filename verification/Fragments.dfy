/** Putting the fragments of a network message together. */
module Fragments {
  import opened Bytes
  import opened Options

  const MAX_SIZE := 1024

  /** The bytes the header hash covers: the number of fragments, the message id and the start of the sender's key. The
      flags are not among them. The hash is taken to be injective. */
  datatype Header = Header(fragmentsNum: nat, id: nat, sender: seq<Byte>)

  const NETWORK := 1
  const FRAGMENTED := 2
  const BROADCAST := 4
  const DIRECT := 64

  predicate HasFlag(flags: Byte, flag: nat)
    requires flag > 0
  {
    flags / flag % 2 == 1
  }

  function HeadersLength(flags: Byte): (n: nat)
    ensures n <= 77
  {
    var keys := if HasFlag(flags, BROADCAST) || HasFlag(flags, DIRECT) then 40 else 72;
    1 + (if HasFlag(flags, FRAGMENTED) then 4 else 0) + (if HasFlag(flags, NETWORK) then 0 else keys)
  }

  datatype Packet = Packet(flags: Byte, header: Header, fragment: nat, data: seq<Byte>)

  predicate HasValidFragmentation(p: Packet) {
    p.header.fragmentsNum > 0 && p.fragment < p.header.fragmentsNum
  }

  /** Packets that passed the header check, which looks at each packet's own flags. */
  predicate WellFormed(p: Packet) {
    HeadersLength(p.flags) < |p.data| <= MAX_SIZE && p.header.fragmentsNum < 0x1_0000
  }

  /** The largest packets: 1024 bytes, one of 65535 fragments; and a packet that is nothing but headers is refused. */
  lemma LargestIsWellFormed(flags: Byte, id: nat, sender: seq<Byte>, data: seq<Byte>)
    ensures |data| == 1024 ==> WellFormed(Packet(flags, Header(65535, id, sender), 65534, data))
    ensures |data| == 1025 ==> !WellFormed(Packet(flags, Header(65535, id, sender), 65534, data))
    ensures |data| == HeadersLength(flags) ==> !WellFormed(Packet(flags, Header(65535, id, sender), 65534, data))
    ensures !WellFormed(Packet(flags, Header(65536, id, sender), 0, data))
  {
  }

  // ----- the slots of a message

  type Slots = seq<Option<Packet>>

  function Nothing(total: nat): (s: Slots) {
    seq(total, i => None)
  }

  function Empties(s: Slots): (n: nat)
    ensures n <= |s|
  {
    if s == [] then 0 else Empties(s[..|s| - 1]) + (if s[|s| - 1].None? then 1 else 0)
  }

  /** The first packet for a place stays. */
  function Place(s: Slots, p: Packet): (r: Slots)
    requires p.fragment < |s|
  {
    if s[p.fragment].None? then s[p.fragment := Some(p)] else s
  }

  lemma {:induction false} EmptiesOfNothing(total: nat)
    ensures Empties(Nothing(total)) == total
  {
    if total == 0 {
    } else {
      EmptiesOfNothing(total - 1);
      assert Nothing(total)[..total - 1] == Nothing(total - 1);
    }
  }

  lemma {:induction false} PlaceFillsOne(s: Slots, i: nat, p: Packet)
    requires i < |s| && s[i].None?
    ensures Empties(s[i := Some(p)]) == Empties(s) - 1
  {
    var n := |s| - 1;
    if i < n {
      PlaceFillsOne(s[..n], i, p);
      assert s[i := Some(p)][..n] == s[..n][i := Some(p)];
    } else {
      assert s[i := Some(p)][..n] == s[..n];
    }
  }

  lemma {:induction false} NoEmpties(s: Slots)
    ensures Empties(s) == 0 <==> forall i :: 0 <= i < |s| ==> s[i].Some?
  {
    if s == [] {
    } else {
      NoEmpties(s[..|s| - 1]);
    }
  }

  predicate AllThere(s: Slots) {
    s != [] && forall i :: 0 <= i < |s| ==> s[i].Some?
  }

  function Contents(s: Slots): (ps: seq<Packet>)
    requires AllThere(s)
    ensures |ps| == |s| && forall i :: 0 <= i < |s| ==> ps[i] == s[i].value
  {
    seq(|s|, i requires 0 <= i < |s| => s[i].value)
  }

  // ----- composition as meant

  /** The first fragment's header length applies to every fragment. */
  predicate Uniform(ps: seq<Packet>, headers: nat) {
    forall i :: 0 <= i < |ps| ==> headers <= |ps[i].data|
  }

  /** What a fragment contributes: the first one all of it, the others what follows the headers. */
  function Piece(ps: seq<Packet>, headers: nat, i: nat): (data: seq<Byte>)
    requires i < |ps| && headers <= |ps[i].data|
  {
    if i == 0 then ps[i].data else ps[i].data[headers..]
  }

  function Composed(ps: seq<Packet>, headers: nat): (data: seq<Byte>)
    requires Uniform(ps, headers)
  {
    if ps == [] then []
    else
      var n := |ps| - 1;
      Composed(ps[..n], headers) + Piece(ps, headers, n)
  }

  lemma ComposedStep(ps: seq<Packet>, headers: nat, i: nat)
    requires Uniform(ps, headers) && i < |ps|
    ensures Composed(ps[..i + 1], headers) == Composed(ps[..i], headers) + Piece(ps, headers, i)
  {
    assert ps[..i + 1][..i] == ps[..i];
  }

  lemma {:induction false} ComposedGrows(ps: seq<Packet>, headers: nat, i: nat)
    requires Uniform(ps, headers) && i <= |ps|
    ensures Composed(ps[..i], headers) <= Composed(ps, headers)
    decreases |ps|
  {
    if i == |ps| {
      assert ps[..i] == ps;
    } else {
      ComposedGrows(ps[..|ps| - 1], headers, i);
      assert ps[..|ps| - 1][..i] == ps[..i];
    }
  }

  function Joined(chunks: seq<seq<Byte>>): (data: seq<Byte>) {
    if chunks == [] then [] else Joined(chunks[..|chunks| - 1]) + chunks[|chunks| - 1]
  }

  /** Chunks sent each behind headers come back as one set of headers and the chunks in order. */
  lemma {:induction false} ComposedJoinsChunks(ps: seq<Packet>, headers: nat, chunks: seq<seq<Byte>>)
    requires |ps| == |chunks| > 0
    requires forall i :: 0 <= i < |ps| ==> headers <= |ps[i].data| && ps[i].data[headers..] == chunks[i]
    ensures Composed(ps, headers) == ps[0].data[..headers] + Joined(chunks)
  {
    var n := |ps| - 1;
    if n == 0 {
      assert chunks[..0] == [] && ps[..0] == [];
      assert ps[0].data == ps[0].data[..headers] + chunks[0];
    } else {
      ComposedJoinsChunks(ps[..n], headers, chunks[..n]);
      assert Piece(ps, headers, n) == chunks[n];
      Regroup(ps[0].data[..headers], Joined(chunks[..n]), chunks[n]);
    }
  }

  // ----- composition as computed, in 32 bits

  function Wrap(v: int): (w: nat)
    ensures w < TWO_32
  {
    v % TWO_32
  }

  /** The size of the buffer: every difference and every sum wraps. */
  function Allocated(ps: seq<Packet>, headers: nat): (n: nat)
    ensures ps != [] ==> n < TWO_32
  {
    if ps == [] then headers
    else Wrap(Allocated(ps[..|ps| - 1], headers) + Wrap(|ps[|ps| - 1].data| - headers))
  }

  function Skipped(headers: nat, i: nat): (n: nat) {
    if i == 0 then 0 else headers
  }

  function CopyLength(ps: seq<Packet>, headers: nat, i: nat): (n: nat)
    requires i < |ps|
  {
    Wrap(|ps[i].data| - Skipped(headers, i))
  }

  /** The copy of a fragment reads no byte beyond it. */
  predicate CopyInside(ps: seq<Packet>, headers: nat, i: nat)
    requires i < |ps|
  {
    Skipped(headers, i) + CopyLength(ps, headers, i) <= |ps[i].data|
  }

  /** Where the copies end. */
  function Copied(ps: seq<Packet>, headers: nat, i: nat): (n: nat)
    requires i <= |ps|
  {
    if i == 0 then 0 else Copied(ps, headers, i - 1) + CopyLength(ps, headers, i - 1)
  }

  /** Every copy stays inside its fragment and together they fill the buffer to its end. */
  ghost predicate FillsExactly(ps: seq<Packet>, headers: nat) {
    (forall i :: 0 <= i < |ps| ==> CopyInside(ps, headers, i)) && Copied(ps, headers, |ps|) == Allocated(ps, headers)
  }

  ghost predicate Received(ps: seq<Packet>) {
    0 < |ps| < 0x1_0000 && forall i :: 0 <= i < |ps| ==> WellFormed(ps[i])
  }

  /** A received message none of whose fragments is shorter than the first one's headers. */
  ghost predicate Straight(ps: seq<Packet>, headers: nat) {
    Received(ps) && headers == HeadersLength(ps[0].flags) && Uniform(ps, headers)
  }

  lemma CopyInsideIff(ps: seq<Packet>, headers: nat, i: nat)
    requires Received(ps) && headers == HeadersLength(ps[0].flags) && i < |ps|
    ensures CopyInside(ps, headers, i) <==> headers <= |ps[i].data|
    ensures headers <= |ps[i].data| ==> CopyLength(ps, headers, i) == |ps[i].data| - Skipped(headers, i)
  {
    assert WellFormed(ps[i]);
  }

  lemma NoWrap(sum: nat, size: nat, headers: nat)
    requires headers <= size && sum + (size - headers) < TWO_32
    ensures Wrap(sum + Wrap(size - headers)) == sum + (size - headers)
  {
  }

  lemma AllocatedStep(ps: seq<Packet>, headers: nat, i: nat)
    requires i < |ps|
    ensures Allocated(ps[..i + 1], headers) == Wrap(Allocated(ps[..i], headers) + Wrap(|ps[i].data| - headers))
  {
    assert ps[..i + 1][..i] == ps[..i];
  }

  lemma SizesAreBounded(ps: seq<Packet>, headers: nat, i: nat)
    requires Straight(ps, headers) && i < |ps|
    ensures headers <= |ps[i].data| <= MAX_SIZE
  {
    assert WellFormed(ps[i]);
  }

  lemma NothingComposed(ps: seq<Packet>, headers: nat)
    requires Uniform(ps, headers)
    ensures Uniform(ps[..0], headers) && Composed(ps[..0], headers) == []
  {
  }

  /** Without wrapping, the copies are as long as the pieces. */
  lemma {:induction false} CopiesAdd(ps: seq<Packet>, headers: nat, i: nat)
    requires Straight(ps, headers) && i <= |ps|
    ensures Copied(ps, headers, i) == |Composed(ps[..i], headers)| <= i * MAX_SIZE
  {
    hide Composed, HeadersLength, CopyLength, CopyInside;
    if i == 0 {
      NothingComposed(ps, headers);
    } else {
      CopiesAdd(ps, headers, i - 1);
      ComposedStep(ps, headers, i - 1);
      CopyInsideIff(ps, headers, i - 1);
      SizesAreBounded(ps, headers, i - 1);
    }
  }

  /** What the size counter holds after `i` fragments: at first the headers, which the first fragment counts again. */
  ghost function Counted(ps: seq<Packet>, headers: nat, i: nat): (n: nat)
    requires i <= |ps|
  {
    Copied(ps, headers, i) + (if i == 0 then headers else 0)
  }

  lemma SizesStep(ps: seq<Packet>, headers: nat, i: nat)
    requires Straight(ps, headers) && i < |ps|
    requires Allocated(ps[..i], headers) == Counted(ps, headers, i)
    ensures Allocated(ps[..i + 1], headers) == Counted(ps, headers, i + 1)
  {
    hide Composed, Allocated, HeadersLength, CopyInside, CopyLength, Wrap, Uniform;
    CopiesAdd(ps, headers, i);
    CopyInsideIff(ps, headers, i);
    SizesAreBounded(ps, headers, i);
    AllocatedStep(ps, headers, i);
    NoWrap(Counted(ps, headers, i), |ps[i].data|, headers);
  }

  lemma {:induction false} SizesAdd(ps: seq<Packet>, headers: nat, i: nat)
    requires Straight(ps, headers) && i <= |ps|
    ensures Allocated(ps[..i], headers) == Counted(ps, headers, i)
  {
    if i == 0 {
      assert ps[..0] == [];
    } else {
      SizesAdd(ps, headers, i - 1);
      SizesStep(ps, headers, i - 1);
    }
  }

  /** The code composes a received message properly exactly when no fragment is shorter than the first one's headers. */
  lemma FillsExactlyIff(ps: seq<Packet>, headers: nat)
    requires Received(ps) && headers == HeadersLength(ps[0].flags)
    ensures FillsExactly(ps, headers) <==> Uniform(ps, headers)
  {
    forall i | 0 <= i < |ps| ensures CopyInside(ps, headers, i) <==> headers <= |ps[i].data| {
      CopyInsideIff(ps, headers, i);
    }
    if Uniform(ps, headers) {
      CopiesAdd(ps, headers, |ps|);
      SizesAdd(ps, headers, |ps|);
      assert ps[..|ps|] == ps;
    }
  }

  /** Two fragments that pass the header check under one header, the second broadcast and short: 73 bytes are
      allocated, 100 are copied first, and the second copy has wrapped. */
  lemma MixedFlagsOverrun(header: Header)
    requires header.fragmentsNum == 2
    ensures var ps := [Packet(2, header, 0, seq(100, i => 0)), Packet(6, header, 1, seq(50, i => 0))];
      && Received(ps) && (forall i :: 0 <= i < 2 ==> HasValidFragmentation(ps[i]) && HasFlag(ps[i].flags, FRAGMENTED))
      && Allocated(ps, 77) == 73 && CopyLength(ps, 77, 0) == 100 && CopyLength(ps, 77, 1) == TWO_32 - 27
      && !FillsExactly(ps, 77)
  {
    var ps := [Packet(2, header, 0, seq(100, i => 0)), Packet(6, header, 1, seq(50, i => 0))];
    assert HeadersLength(2) == 77 && HeadersLength(6) == 45;
    assert ps[..1] == [ps[0]] && ps[..1][..0] == [];
    assert Allocated([], 77) == 77 && Allocated(ps[..1], 77) == 100;
    assert !CopyInside(ps, 77, 1);
  }

  // ----- whole headers

  /** What a fragment carries behind its own headers. */
  function Payload(p: Packet): (chunk: seq<Byte>)
    requires WellFormed(p)
  {
    p.data[HeadersLength(p.flags)..]
  }

  function Payloads(ps: seq<Packet>): (chunks: seq<seq<Byte>>)
    requires forall i :: 0 <= i < |ps| ==> WellFormed(ps[i])
    ensures |chunks| == |ps| && forall i :: 0 <= i < |ps| ==> chunks[i] == Payload(ps[i])
  {
    seq(|ps|, i requires 0 <= i < |ps| => Payload(ps[i]))
  }

  ghost predicate SameHeaders(ps: seq<Packet>, headers: nat) {
    forall i :: 0 <= i < |ps| ==> HeadersLength(ps[i].flags) == headers
  }

  /** Every fragment contributes its own payload exactly when all have headers of one length. */
  lemma PayloadsIff(ps: seq<Packet>, headers: nat)
    requires Received(ps) && Uniform(ps, headers)
    ensures (forall i :: 0 <= i < |ps| ==> ps[i].data[headers..] == Payloads(ps)[i]) <==> SameHeaders(ps, headers)
  {
    forall i | 0 <= i < |ps|
      ensures ps[i].data[headers..] == Payloads(ps)[i] <==> HeadersLength(ps[i].flags) == headers
    {
      assert WellFormed(ps[i]);
      assert |ps[i].data[headers..]| == |ps[i].data| - headers;
      assert |Payloads(ps)[i]| == |ps[i].data| - HeadersLength(ps[i].flags);
    }
  }

  /** Two fragments of 100 bytes under one header, the second broadcast: the buffer is filled exactly, with 23 of the 55
      bytes the second one carries. */
  lemma MixedFlagsCut(header: Header)
    requires header.fragmentsNum == 2
    ensures var ps := [Packet(2, header, 0, seq(100, i => 0)), Packet(6, header, 1, seq(100, i => 0))];
      && Received(ps) && (forall i :: 0 <= i < 2 ==> HasValidFragmentation(ps[i]) && HasFlag(ps[i].flags, FRAGMENTED))
      && HeadersLength(2) == 77 && FillsExactly(ps, 77)
      && |Piece(ps, 77, 1)| == 23 && |Payload(ps[1])| == 55 && !SameHeaders(ps, 77)
  {
    var ps := [Packet(2, header, 0, seq(100, i => 0)), Packet(6, header, 1, seq(100, i => 0))];
    assert HeadersLength(2) == 77 && HeadersLength(6) == 45;
    FillsExactlyIff(ps, 77);
    assert HeadersLength(ps[1].flags) == 45;
  }
}
