/** Messages and the collector that fills them, as objects. */
module MessageCollector {
  import opened Bytes
  import opened Options
  import opened Fragments
  import opened FragmentRuns

  // ----- composing into a buffer

  /** The size as computed, in 32 bits. */
  method TotalSize(ps: seq<Packet>, headers: nat) returns (totalSize: nat)
    ensures totalSize == Allocated(ps, headers)
  {
    totalSize := headers;
    var i := 0;
    assert ps[..0] == [];
    while i < |ps|
      invariant 0 <= i <= |ps|
      invariant totalSize == Allocated(ps[..i], headers)
    {
      AllocatedStep(ps, headers, i);
      totalSize := Wrap(totalSize + Wrap(|ps[i].data| - headers));
      i := i + 1;
    }
    assert ps[..i] == ps;
  }

  /** Copies one piece into the buffer. */
  method Copy(piece: seq<Byte>, buffer: array<Byte>, at: nat)
    requires at + |piece| <= buffer.Length
    modifies buffer
    ensures buffer[..at + |piece|] == old(buffer[..at]) + piece
  {
    forall k | 0 <= k < |piece| {
      buffer[at + k] := piece[k];
    }
  }

  /** The first `i` fragments have been composed to `content`. */
  ghost predicate Written(ps: seq<Packet>, headers: nat, i: nat, content: seq<Byte>) {
    i <= |ps| && Uniform(ps[..i], headers) && content == Composed(ps[..i], headers)
  }

  function Cut(ps: seq<Packet>, headers: nat, i: nat): (piece: seq<Byte>)
    requires i < |ps| && CopyInside(ps, headers, i)
    ensures |piece| == CopyLength(ps, headers, i)
  {
    ps[i].data[Skipped(headers, i)..Skipped(headers, i) + CopyLength(ps, headers, i)]
  }

  lemma NothingWritten(ps: seq<Packet>, headers: nat)
    ensures Written(ps, headers, 0, [])
  {
    assert ps[..0] == [];
  }

  lemma CopyExtends(ps: seq<Packet>, headers: nat, i: nat, content: seq<Byte>)
    requires Received(ps) && headers == HeadersLength(ps[0].flags) && i < |ps|
    requires Written(ps, headers, i, content) && CopyInside(ps, headers, i)
    ensures Written(ps, headers, i + 1, content + Cut(ps, headers, i))
  {
    CopyInsideIff(ps, headers, i);
    hide HeadersLength, CopyInside;
    assert ps[..i + 1][..i] == ps[..i];
    assert forall k :: 0 <= k < i ==> ps[..i][k] == ps[k];
    assert Piece(ps[..i + 1], headers, i) == Cut(ps, headers, i);
  }

  /** A copy is refused only if some fragment is too short. */
  lemma CopyFits(ps: seq<Packet>, headers: nat, i: nat, content: seq<Byte>)
    requires Straight(ps, headers) && i < |ps| && Written(ps, headers, i, content)
    ensures CopyInside(ps, headers, i) && |content| + CopyLength(ps, headers, i) <= Allocated(ps, headers)
  {
    CopyInsideIff(ps, headers, i);
    AllocatedIsEnough(ps, headers, i);
  }

  lemma AllWritten(ps: seq<Packet>, headers: nat, content: seq<Byte>)
    requires Received(ps) && headers == HeadersLength(ps[0].flags) && Written(ps, headers, |ps|, content)
    ensures Uniform(ps, headers) && content == Composed(ps, headers) && |content| == Allocated(ps, headers)
  {
    assert ps[..|ps|] == ps;
    FillsExactlyIff(ps, headers);
    CopiesAdd(ps, headers, |ps|);
  }

  lemma AllocatedIsEnough(ps: seq<Packet>, headers: nat, i: nat)
    requires Straight(ps, headers) && i < |ps|
    ensures Uniform(ps[..i], headers)
    ensures |Composed(ps[..i], headers)| + CopyLength(ps, headers, i) <= Allocated(ps, headers)
  {
    FillsExactlyIff(ps, headers);
    CopiesAdd(ps, headers, i);
    CopiedGrows(ps, headers, i + 1);
  }

  lemma {:induction false} CopiedGrows(ps: seq<Packet>, headers: nat, i: nat)
    requires i <= |ps|
    ensures Copied(ps, headers, i) <= Copied(ps, headers, |ps|)
    decreases |ps| - i
  {
    if i >= |ps| {
    } else {
      CopiedGrows(ps, headers, i + 1);
    }
  }

  /** Copies the first fragment whole and the rest without headers, one after the other. Stops before a copy that
      would leave its fragment or the buffer; otherwise the buffer ends up full. */
  method Fill(ps: seq<Packet>, headers: nat, buffer: array<Byte>) returns (ok: bool)
    requires Received(ps) && headers == HeadersLength(ps[0].flags) && buffer.Length == Allocated(ps, headers)
    modifies buffer
    ensures ok <==> Uniform(ps, headers)
    ensures ok ==> buffer[..] == Composed(ps, headers)
  {
    hide Written, CopyLength, Skipped, Allocated, Received, Composed, Uniform, HeadersLength, CopyInside, Cut;
    var i, at := 0, 0;
    NothingWritten(ps, headers);
    assert buffer[..0] == [];
    while i < |ps|
      invariant 0 <= i <= |ps| && 0 <= at <= buffer.Length && Written(ps, headers, i, buffer[..at])
    {
      var length := CopyLength(ps, headers, i);
      if !CopyInside(ps, headers, i) || at + length > buffer.Length {
        if Straight(ps, headers) {
          CopyFits(ps, headers, i, buffer[..at]);
        }
        return false;
      }
      CopyExtends(ps, headers, i, buffer[..at]);
      Copy(Cut(ps, headers, i), buffer, at);
      at := at + length;
      i := i + 1;
    }
    AllWritten(ps, headers, buffer[..at]);
    ok := true;
  }

  // ----- the message

  class Message {
    const header: Header
    var packetsLeft: nat
    var packetsTotal: nat
    var maxFragment: nat
    var packets: Slots
    var fullData: Option<seq<Byte>>
    /** The slots were dropped since the data was kept. */
    ghost var stale: bool

    /** The slots, which a drop clears until the next packet. */
    ghost function Filled(): (s: Slots)
      reads this
    {
      if packets == [] then Nothing(packetsTotal) else packets
    }

    ghost function Abs(): (s: State)
      reads this
    {
      State(Filled(), fullData, stale)
    }

    ghost predicate Valid()
      reads this
    {
      && 0 < packetsTotal == header.fragmentsNum < 0x1_0000
      && (packets == [] || |packets| == packetsTotal)
      && packetsLeft == Empties(Filled())
      && maxFragment <= packetsTotal && (packetsLeft < packetsTotal ==> maxFragment == packetsTotal)
      && forall i :: 0 <= i < |packets| && packets[i].Some? ==> WellFormed(packets[i].value)
    }

    constructor (p: Packet)
      requires HasValidFragmentation(p) && WellFormed(p)
      ensures Valid() && header == p.header && Abs() == Start(header)
    {
      header := p.header;
      packetsLeft, packetsTotal := p.header.fragmentsNum, p.header.fragmentsNum;
      maxFragment, fullData, stale := 0, None, false;
      packets := Nothing(p.header.fragmentsNum);
      EmptiesOfNothing(p.header.fragmentsNum);
    }

    predicate IsComplete()
      reads this
    {
      packetsLeft == 0
    }

    lemma CompleteMeansAllThere()
      requires Valid()
      ensures IsComplete() <==> AllThere(Filled())
      ensures IsComplete() ==> packets == Filled() && Received(Contents(packets))
    {
      NoEmpties(Filled());
      if packets == [] {
        EmptiesOfNothing(packetsTotal);
      }
    }

    method Store(p: Packet)
      requires Valid() && p.header == header && HasValidFragmentation(p) && WellFormed(p)
      modifies this
      ensures Valid() && Abs() == Step(old(Abs()), Arrive(p))
    {
      if |packets| == 0 {
        packets := Nothing(packetsTotal);
      }
      if packets[p.fragment].None? {
        PlaceFillsOne(packets, p.fragment, p);
        maxFragment := if p.header.fragmentsNum > maxFragment then p.header.fragmentsNum else maxFragment;
        packetsLeft := packetsLeft - 1;
        packets := packets[p.fragment := Some(p)];
      }
    }

    method Drop()
      requires Valid()
      modifies this
      ensures Valid() && Abs() == Step(old(Abs()), FragmentRuns.Drop)
    {
      stale := fullData.Some?;
      packetsLeft := packetsTotal;
      packets := [];
      EmptiesOfNothing(packetsTotal);
    }

    /** Composes the message and keeps the result. It goes wrong exactly when a fragment is missing or shorter than
        the first one's headers; then nothing is kept. */
    method ComposeFullData() returns (ok: bool)
      requires Valid()
      modifies this`fullData
      ensures ok <==> Composable(Filled())
      ensures fullData == if ok then Some(FullOf(Filled())) else old(fullData)
    {
      CompleteMeansAllThere();
      if !IsComplete() {
        return false;
      }
      var ps := Contents(packets);
      var headers := HeadersLength(ps[0].flags);
      var totalSize := TotalSize(ps, headers);
      var buffer := new Byte[totalSize];
      ok := Fill(ps, headers, buffer);
      if ok {
        fullData := Some(buffer[..]);
      }
    }

    /** What is kept is returned from the headers of the packet now in the first slot on. */
    method GetFullData() returns (r: Outcome)
      requires Valid()
      modifies this`fullData, this`stale
      ensures Valid() && Abs() == Step(old(Abs()), Read) && r == ReadOf(old(Abs()))
    {
      if fullData.None? {
        var ok := ComposeFullData();
        if !ok {
          return Undefined;
        }
        stale := false;
      }
      if packets == [] || packets[0].None? {
        return Undefined;
      }
      var headers := HeadersLength(packets[0].value.flags);
      if headers > |fullData.value| {
        return Undefined;
      }
      r := Text(fullData.value[headers..]);
    }

    /** Moves the composed data out, so that the next read composes again. */
    method ExtractData() returns (r: Option<seq<Byte>>)
      requires Valid()
      modifies this`fullData, this`stale
      ensures Valid() && Abs() == Step(old(Abs()), Extract)
      ensures r == Step(old(Abs()), Read).kept
    {
      if fullData.None? {
        var _ := ComposeFullData();
      }
      r := fullData;
      fullData, stale := None, false;
    }
  }

  // ----- the collector

  class PacketCollector {
    var messages: map<Header, Message>

    ghost predicate Valid()
      reads this, messages.Values
    {
      && (forall h :: h in messages ==> messages[h].header == h && messages[h].Valid())
      && (forall h, k :: h in messages && k in messages && h != k ==> messages[h] != messages[k])
    }

    constructor ()
      ensures Valid() && messages == map[]
    {
      messages := map[];
    }

    /** The message with a packet's header, a new one if need be. */
    method Find(p: Packet) returns (msg: Message, isNew: bool)
      requires Valid() && HasValidFragmentation(p) && WellFormed(p)
      modifies this
      ensures Valid() && messages == old(messages)[p.header := msg] && isNew == (p.header !in old(messages))
      ensures msg.header == p.header && msg.Valid()
      ensures isNew ==> fresh(msg) && msg.Abs() == Start(p.header)
      ensures !isNew ==> msg == old(messages)[p.header]
    {
      isNew := p.header !in messages;
      if isNew {
        msg := new Message(p);
        messages := messages[p.header := msg];
      } else {
        msg := messages[p.header];
      }
    }

    /** Finds or starts the message of a packet and stores the packet in its place. */
    method GetMessage(p: Packet) returns (msg: Message?, isNew: bool)
      requires Valid() && (HasFlag(p.flags, FRAGMENTED) && HasValidFragmentation(p) ==> WellFormed(p))
      modifies this, messages.Values
      ensures Valid()
      ensures msg == null <==> !(HasFlag(p.flags, FRAGMENTED) && HasValidFragmentation(p))
      ensures msg == null ==> messages == old(messages)
      ensures msg != null ==> messages == old(messages)[p.header := msg] && isNew == (p.header !in old(messages))
      ensures msg != null && isNew ==> msg.Abs() == Step(Start(p.header), Arrive(p))
      ensures msg != null && !isNew ==> msg.Abs() == Step(old(messages[p.header].Abs()), Arrive(p))
      ensures forall h :: h in old(messages) && h != p.header ==> old(messages)[h].Abs() == old(messages[h].Abs())
    {
      hide Step, Start, Message.Valid, WellFormed;
      if !HasFlag(p.flags, FRAGMENTED) || !HasValidFragmentation(p) {
        return null, false;
      }
      msg, isNew := Find(p);
      assert !isNew ==> msg in old(messages.Values);
      msg.Store(p);
    }
  }
}
