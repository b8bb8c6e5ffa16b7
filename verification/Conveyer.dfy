/** Packets of transactions on their way into a block. */
module Conveyer {
  import opened Bytes
  import opened SendCache
  import opened Options
  import TrustedMask

  /** `reference` is the block a new state refers to, when its field is readable. */
  datatype Tx = Tx(id: nat, valid: bool, source: nat, reference: Option<nat>)
  datatype Packet = Packet(transactions: seq<Tx>, states: seq<Tx>, signatures: seq<(nat, nat)>)
  datatype Meta = Meta(hashes: seq<Hash>, mask: seq<nat>, hashTable: map<Hash, Packet>, invalid: seq<Tx>)

  datatype SmartSignature = SmartSignature(key: nat, pool: Option<nat>, signatures: seq<(nat, nat)>)
  datatype PoolInfo = PoolInfo(sequence: nat, timestamp: nat, previous: nat, realTrusted: seq<Byte>)
  datatype Pool = Pool(sequence: nat, timestamp: nat, previous: nat, numberTrusted: Byte, realTrusted: nat,
    transactions: seq<Tx>, smart: seq<SmartSignature>)

  /** The block of a round: what the caller says of it, who took part, and what the packets give. */
  function Block(info: PoolInfo, transactions: seq<Tx>, smart: seq<SmartSignature>): (p: Pool) {
    Pool(info.sequence, info.timestamp, info.previous, |info.realTrusted| % 256,
      TrustedMask.Bits(TrustedMask.Low(info.realTrusted)), transactions, smart)
  }

  /** A packet signed by more than one node carries the result of a contract, state first. */
  predicate IsSmart(p: Packet) {
    |p.signatures| > 1
  }

  function Lookup(table: map<Hash, Packet>, hashTable: map<Hash, Packet>, h: Hash): (p: Option<Packet>) {
    if h in table then Some(table[h]) else if h in hashTable then Some(hashTable[h]) else None
  }

  // ----- what the mask selects

  predicate AllFound(table: map<Hash, Packet>, hashTable: map<Hash, Packet>, hs: seq<Hash>) {
    forall h :: h in hs ==> Lookup(table, hashTable, h).Some?
  }

  /** The packets of a list of hashes, in its order. */
  function Packets(table: map<Hash, Packet>, hashTable: map<Hash, Packet>, hs: seq<Hash>): (ps: seq<Packet>)
    requires AllFound(table, hashTable, hs)
  {
    if hs == [] then []
    else
      var last := hs[|hs| - 1];
      assert last in hs;
      Packets(table, hashTable, hs[..|hs| - 1]) + [Lookup(table, hashTable, last).value]
  }

  function Archive(table: map<Hash, Packet>, hashTable: map<Hash, Packet>, hs: seq<Hash>): (r: map<Hash, Packet>)
    requires AllFound(table, hashTable, hs)
  {
    map h | h in hs :: Lookup(table, hashTable, h).value
  }

  function Flat(ps: seq<Packet>): (txs: seq<Tx>) {
    if ps == [] then [] else Flat(ps[..|ps| - 1]) + ps[|ps| - 1].transactions
  }

  /** The valid transactions whose mask byte is set, or not set, in order. */
  function Select(txs: seq<Tx>, mask: seq<nat>, wanted: bool): (r: seq<Tx>) {
    if txs == [] then []
    else
      var n := |txs| - 1;
      Select(txs[..n], mask, wanted) + (if n < |mask| && (mask[n] != 0) == wanted && txs[n].valid then [txs[n]] else [])
  }

  function Signed(p: Packet): (s: SmartSignature)
    requires p.transactions != []
  {
    SmartSignature(p.transactions[0].source, p.transactions[0].reference, p.signatures)
  }

  ghost predicate StatesFirst(ps: seq<Packet>) {
    forall p :: p in ps && IsSmart(p) ==> p.transactions != []
  }

  function SmartSignatures(ps: seq<Packet>, mask: seq<nat>): (r: seq<SmartSignature>)
    requires StatesFirst(ps)
  {
    if ps == [] then []
    else
      var before, p := ps[..|ps| - 1], ps[|ps| - 1];
      var i := |Flat(before)|;
      assert p in ps;
      SmartSignatures(before, mask) + (if IsSmart(p) && i < |mask| && mask[i] != 0 then [Signed(p)] else [])
  }

  predicate Rejected(ps: seq<Packet>, mask: seq<nat>) {
    ps != [] &&
      var before, p := ps[..|ps| - 1], ps[|ps| - 1];
      var i := |Flat(before)|;
      Rejected(before, mask) || (IsSmart(p) && i < |mask| && mask[i] == 0)
  }

  /** States handed on: none from the first rejected contract packet onwards. */
  function States(ps: seq<Packet>, mask: seq<nat>): (r: seq<Tx>) {
    if ps == [] then []
    else
      var p := ps[|ps| - 1];
      States(ps[..|ps| - 1], mask) + (if IsSmart(p) && !Rejected(ps, mask) then p.states else [])
  }

  ghost predicate Accepts(table: map<Hash, Packet>, m: Meta) {
    AllFound(table, m.hashTable, m.hashes) && |Flat(Packets(table, m.hashTable, m.hashes))| <= |m.mask|
  }

  /** What the packets amount to under a mask. */
  datatype Draft = Draft(valid: seq<Tx>, invalid: seq<Tx>, smart: seq<SmartSignature>, states: seq<Tx>,
    rejected: bool, size: nat)

  function DraftOf(ps: seq<Packet>, mask: seq<nat>): (d: Draft)
    requires StatesFirst(ps)
  {
    Draft(Select(Flat(ps), mask, true), Select(Flat(ps), mask, false), SmartSignatures(ps, mask), States(ps, mask),
      Rejected(ps, mask), |Flat(ps)|)
  }

  /** What has been collected for the first `i` hashes of a round. */
  ghost predicate Gathered(table: map<Hash, Packet>, m: Meta, i: nat, d: Draft, archive: map<Hash, Packet>)
    requires i <= |m.hashes|
  {
    && AllFound(table, m.hashTable, m.hashes[..i])
    && var ps := Packets(table, m.hashTable, m.hashes[..i]);
    && StatesFirst(ps) && d == DraftOf(ps, m.mask) && archive == Archive(table, m.hashTable, m.hashes[..i])
  }

  // ----- what becomes of contract packets

  /** The mask byte that decides on a packet: the one of its first transaction. */
  function First(ps: seq<Packet>, k: nat): (i: nat)
    requires k < |ps|
  {
    |Flat(ps[..k])|
  }

  /** The contract packet `k` is rejected: its first mask byte is zero. */
  predicate RejectedAt(ps: seq<Packet>, mask: seq<nat>, k: nat)
    requires k < |ps|
  {
    |ps[k].signatures| > 1 && First(ps, k) < |mask| && mask[First(ps, k)] == 0
  }

  predicate SignedAt(ps: seq<Packet>, mask: seq<nat>, k: nat)
    requires k < |ps|
  {
    |ps[k].signatures| > 1 && First(ps, k) < |mask| && mask[First(ps, k)] != 0
  }

  /** The states of all contract packets, in order. */
  function ContractStates(ps: seq<Packet>): (r: seq<Tx>) {
    if ps == [] then []
    else ContractStates(ps[..|ps| - 1]) + (if |ps[|ps| - 1].signatures| > 1 then ps[|ps| - 1].states else [])
  }

  lemma FirstOfPart(ps: seq<Packet>, n: nat, k: nat)
    requires k < n <= |ps|
    ensures First(ps[..n], k) == First(ps, k) && ps[..n][k] == ps[k]
  {
    assert ps[..n][..k] == ps[..k];
  }

  lemma {:induction false} RejectedIff(ps: seq<Packet>, mask: seq<nat>)
    ensures Rejected(ps, mask) <==> exists k :: 0 <= k < |ps| && RejectedAt(ps, mask, k)
  {
    if ps == [] {
    } else {
      var n := |ps| - 1;
      RejectedIff(ps[..n], mask);
      forall k | 0 <= k < n ensures RejectedAt(ps[..n], mask, k) <==> RejectedAt(ps, mask, k) {
        FirstOfPart(ps, n, k);
      }
      assert RejectedAt(ps, mask, n) <==> IsSmart(ps[n]) && |Flat(ps[..n])| < |mask| && mask[|Flat(ps[..n])|] == 0;
    }
  }

  /** The states handed on are those of all contract packets before the first rejected one, in order, and none from
      there on. */
  lemma {:induction false} StatesAre(ps: seq<Packet>, mask: seq<nat>, m: nat)
    requires m <= |ps| && (forall k :: 0 <= k < m ==> !RejectedAt(ps, mask, k))
    requires m < |ps| ==> RejectedAt(ps, mask, m)
    ensures States(ps, mask) == ContractStates(ps[..m])
    decreases |ps|
  {
    hide RejectedAt;
    if ps == [] {
    } else {
      var n := |ps| - 1;
      RejectedIff(ps, mask);
      forall k | 0 <= k < n ensures RejectedAt(ps[..n], mask, k) <==> RejectedAt(ps, mask, k) {
        RejectedOfPart(ps, mask, n, k);
      }
      if m <= n {
        StatesAre(ps[..n], mask, m);
        assert ps[..n][..m] == ps[..m];
      } else {
        StatesAre(ps[..n], mask, n);
        assert ps[..n][..n] == ps[..n] && ps[..m] == ps;
      }
    }
  }

  lemma RejectedOfPart(ps: seq<Packet>, mask: seq<nat>, n: nat, k: nat)
    requires k < n <= |ps|
    ensures RejectedAt(ps[..n], mask, k) <==> RejectedAt(ps, mask, k)
  {
    FirstOfPart(ps, n, k);
  }

  /** How many contract packets are accepted. */
  ghost function SignedCount(ps: seq<Packet>, mask: seq<nat>, n: nat): (c: nat)
    requires n <= |ps|
  {
    if n == 0 then 0 else SignedCount(ps, mask, n - 1) + if SignedAt(ps, mask, n - 1) then 1 else 0
  }

  /** There is one signature per contract packet whose first mask byte is not zero, in order, with the source of the
      packet's first transaction as its key and the packet's own signatures. */
  lemma {:induction false} SignaturesAre(ps: seq<Packet>, mask: seq<nat>, n: nat, k: nat)
    requires StatesFirst(ps) && k < n <= |ps|
    ensures StatesFirst(ps[..n]) && |SmartSignatures(ps[..n], mask)| == SignedCount(ps, mask, n)
    ensures SignedAt(ps, mask, k) ==>
      && ps[k].transactions != [] && SignedCount(ps, mask, k) < SignedCount(ps, mask, n)
      && SmartSignatures(ps[..n], mask)[SignedCount(ps, mask, k)]
         == SmartSignature(ps[k].transactions[0].source, ps[k].transactions[0].reference, ps[k].signatures)
    decreases n
  {
    hide SmartSignatures, SignedAt, StatesFirst;
    PartStatesFirst(ps, n);
    PartStatesFirst(ps, n - 1);
    SignaturesStep(ps, mask, n);
    if n == 1 {
      NoSignatures(ps, mask);
    } else if k < n - 1 {
      SignaturesAre(ps, mask, n - 1, k);
    } else {
      SignaturesAre(ps, mask, n - 1, 0);
    }
  }

  lemma PartStatesFirst(ps: seq<Packet>, n: nat)
    requires StatesFirst(ps) && n <= |ps|
    ensures StatesFirst(ps[..n])
  {
    assert forall p :: p in ps[..n] ==> p in ps;
  }

  lemma NoSignatures(ps: seq<Packet>, mask: seq<nat>)
    requires StatesFirst(ps[..0])
    ensures SmartSignatures(ps[..0], mask) == []
  {
  }

  lemma SignaturesStep(ps: seq<Packet>, mask: seq<nat>, n: nat)
    requires 0 < n <= |ps| && StatesFirst(ps[..n]) && StatesFirst(ps[..n - 1])
    ensures SignedAt(ps, mask, n - 1) ==>
      && ps[n - 1].transactions != []
      && SmartSignatures(ps[..n], mask) == SmartSignatures(ps[..n - 1], mask) + [SmartSignature(
           ps[n - 1].transactions[0].source, ps[n - 1].transactions[0].reference, ps[n - 1].signatures)]
    ensures !SignedAt(ps, mask, n - 1) ==> SmartSignatures(ps[..n], mask) == SmartSignatures(ps[..n - 1], mask)
  {
    assert ps[..n][..n - 1] == ps[..n - 1] && ps[..n][n - 1] == ps[n - 1] && ps[n - 1] in ps[..n];
  }

  // ----- the mask is a partition

  lemma OnOneSide(taken: seq<Tx>, refused: seq<Tx>, before: seq<Tx>, t: Tx, wanted: bool)
    requires multiset(taken) + multiset(refused) == multiset(before)
    ensures var added: seq<Tx> := [t];
      multiset(taken + (if wanted then added else [])) + multiset(refused + (if wanted then [] else added))
        == multiset(before + added)
  {
  }

  lemma SelectNothing(mask: seq<nat>)
    ensures Select([], mask, true) == [] && Select([], mask, false) == []
  {
  }

  lemma SelectStep(txs: seq<Tx>, mask: seq<nat>, wanted: bool)
    requires 0 < |txs| <= |mask| && txs[|txs| - 1].valid
    ensures var n := |txs| - 1;
      var added: seq<Tx> := if (mask[n] != 0) == wanted then [txs[n]] else [];
      Select(txs, mask, wanted) == Select(txs[..n], mask, wanted) + added
  {
  }

  lemma {:induction false} SelectSplits(txs: seq<Tx>, mask: seq<nat>)
    requires |txs| <= |mask| && forall t :: t in txs ==> t.valid
    ensures multiset(Select(txs, mask, true)) + multiset(Select(txs, mask, false)) == multiset(txs)
  {
    hide Select;
    if txs == [] {
      SelectNothing(mask);
    } else {
      var n := |txs| - 1;
      var before := txs[..n];
      assert txs[n] in txs && txs == before + [txs[n]];
      SelectSplits(before, mask);
      SelectStep(txs, mask, true);
      SelectStep(txs, mask, false);
      OnOneSide(Select(before, mask, true), Select(before, mask, false), before, txs[n], mask[n] != 0);
    }
  }

  /** The transactions before position `i` that are selected. */
  lemma {:induction false} SelectKeepsOrder(txs: seq<Tx>, mask: seq<nat>, b: bool, i: nat)
    requires i <= |txs|
    ensures Select(txs[..i], mask, b) <= Select(txs, mask, b)
    decreases |txs|
  {
    if i < |txs| {
      var n := |txs| - 1;
      SelectKeepsOrder(txs[..n], mask, b, i);
      assert txs[..n][..i] == txs[..i];
    } else {
      assert txs[..i] == txs;
    }
  }

  /** Each selected transaction stands where the number of selected ones before it says. */
  lemma SelectAt(txs: seq<Tx>, mask: seq<nat>, b: bool, i: nat)
    requires i < |txs| && i < |mask| && (mask[i] != 0) == b && txs[i].valid
    ensures |Select(txs[..i], mask, b)| < |Select(txs, mask, b)|
    ensures Select(txs, mask, b)[|Select(txs[..i], mask, b)|] == txs[i]
  {
    assert txs[..i + 1][..i] == txs[..i];
    SelectKeepsOrder(txs, mask, b, i + 1);
  }

  /** Contract packets in a table begin with their state. */
  ghost predicate Sound(table: map<Hash, Packet>) {
    forall h :: h in table && IsSmart(table[h]) ==> table[h].transactions != []
  }

  lemma OnePacketMore(table: map<Hash, Packet>, hashTable: map<Hash, Packet>, hs: seq<Hash>, h: Hash)
    requires AllFound(table, hashTable, hs) && Lookup(table, hashTable, h).Some?
    ensures AllFound(table, hashTable, hs + [h])
    ensures var p := Lookup(table, hashTable, h).value;
      && Packets(table, hashTable, hs + [h]) == Packets(table, hashTable, hs) + [p]
      && Archive(table, hashTable, hs + [h]) == Archive(table, hashTable, hs)[h := p]
      && (h in Archive(table, hashTable, hs) ==> Archive(table, hashTable, hs)[h := p] == Archive(table, hashTable, hs))
  {
    assert (hs + [h])[..|hs|] == hs;
  }

  lemma {:induction false} FlatGrows(table: map<Hash, Packet>, hashTable: map<Hash, Packet>, hs: seq<Hash>, i: nat)
    requires AllFound(table, hashTable, hs) && i <= |hs|
    ensures AllFound(table, hashTable, hs[..i])
    ensures |Flat(Packets(table, hashTable, hs[..i]))| <= |Flat(Packets(table, hashTable, hs))|
    decreases |hs|
  {
    if i == |hs| {
      assert hs[..i] == hs;
    } else {
      var before := hs[..|hs| - 1];
      assert before[..i] == hs[..i];
      FlatGrows(table, hashTable, before, i);
      var ps := Packets(table, hashTable, hs);
      assert ps[..|ps| - 1] == Packets(table, hashTable, before);
    }
  }

  lemma {:induction false} SamePackets(table: map<Hash, Packet>, hashTable: map<Hash, Packet>,
    table': map<Hash, Packet>, hashTable': map<Hash, Packet>, hs: seq<Hash>)
    requires AllFound(table, hashTable, hs)
    requires forall h :: h in hs ==> Lookup(table, hashTable, h) == Lookup(table', hashTable', h)
    ensures AllFound(table', hashTable', hs) && Packets(table, hashTable, hs) == Packets(table', hashTable', hs)
  {
    if hs == [] {
    } else {
      assert hs[|hs| - 1] in hs;
      SamePackets(table, hashTable, table', hashTable', hs[..|hs| - 1]);
    }
  }

  function EraseAll(c: seq<Entry>, hs: seq<Hash>): (r: seq<Entry>) {
    if hs == [] then c else Erase(EraseAll(c, hs[..|hs| - 1]), hs[|hs| - 1])
  }

  class ConveyerBase {
    var packetsTable: map<Hash, Packet>
    var metas: map<nat, Meta>
    var sendCache: seq<Entry>
    var currentRound: nat

    constructor ()
      ensures packetsTable == map[] && metas == map[] && sendCache == [] && currentRound == 0
    {
      packetsTable, metas, sendCache, currentRound := map[], map[], [], 0;
    }

    function Waiting(): (s: State)
      reads this
    {
      State(sendCache, packetsTable.Keys)
    }

    function FindPacket(h: Hash, round: nat): (p: Option<Packet>)
      reads this
    {
      Lookup(packetsTable, if round in metas then metas[round].hashTable else map[], h)
    }

    /** Some round's metadata holds the packet. */
    predicate Archived(h: Hash)
      reads this`metas
    {
      exists r :: r in metas && h in metas[r].hashTable
    }

    method AddPacketToMeta(round: nat, h: Hash, p: Packet)
      modifies this`packetsTable, this`sendCache
      ensures forall limit :: Waiting() == Step(old(Waiting()), Add(round, h, Archived(h)), limit)
      ensures packetsTable
        == if h in old(packetsTable) || Archived(h) then old(packetsTable) else old(packetsTable)[h := p]
    {
      if !Has(sendCache, h) {
        sendCache := Emplace(sendCache, Entry(round, h, 0));
      }
      if h !in packetsTable && !Archived(h) {
        packetsTable := packetsTable[h := p];
      }
    }

    method AddRejectedHashToCache(h: Hash) returns (ok: bool)
      modifies this`packetsTable, this`sendCache
      ensures forall limit :: Waiting() == Step(old(Waiting()), Reject(currentRound, h, Archived(h)), limit)
      ensures ok <==> !Has(old(sendCache), h) && (h in old(packetsTable) || Archived(h))
      ensures forall k :: k in packetsTable && k in old(packetsTable) ==> packetsTable[k] == old(packetsTable)[k]
    {
      if Has(sendCache, h) || (h !in packetsTable && !Archived(h)) {
        return false;
      }
      sendCache := Emplace(sendCache, Entry(currentRound, h, 0));
      if h !in packetsTable {
        var r :| r in metas && h in metas[r].hashTable;
        packetsTable := packetsTable[h := metas[r].hashTable[h]];
      }
      ok := true;
    }

    method RemoveHashFromSendCache(h: Hash)
      modifies this`sendCache
      ensures sendCache == Erase(old(sendCache), h)
    {
      var i := 0;
      while i < |sendCache| && sendCache[i].hash != h
        invariant 0 <= i <= |sendCache| && sendCache == old(sendCache)
        invariant sendCache[..i] + Erase(sendCache[i..], h) == Erase(sendCache, h)
      {
        assert sendCache[i..][1..] == sendCache[i + 1..];
        assert sendCache[..i] + ([sendCache[i]] + Erase(sendCache[i + 1..], h)) ==
          sendCache[..i + 1] + Erase(sendCache[i + 1..], h);
        i := i + 1;
      }
      if i < |sendCache| {
        assert sendCache[i..][1..] == sendCache[i + 1..];
        sendCache := sendCache[..i] + sendCache[i + 1..];
      } else {
        assert sendCache[i..] == [] && sendCache[..i] == sendCache;
      }
    }

    method RemoveHashesFromTable(hs: seq<Hash>)
      modifies this`packetsTable, this`sendCache
      ensures packetsTable == old(packetsTable) - (set h | h in hs)
      ensures sendCache == EraseAll(old(sendCache), hs)
    {
      var i := 0;
      assert old(packetsTable) - (set h | h in hs[..0]) == old(packetsTable);
      while i < |hs|
        invariant 0 <= i <= |hs|
        invariant packetsTable == old(packetsTable) - (set h | h in hs[..i])
        invariant sendCache == EraseAll(old(sendCache), hs[..i])
      {
        assert hs[..i + 1] == hs[..i] + [hs[i]] && hs[..i + 1][..i] == hs[..i];
        packetsTable := packetsTable - {hs[i]};
        RemoveHashFromSendCache(hs[i]);
        i := i + 1;
      }
      assert hs[..i] == hs;
    }

    /** Sends again what is due and has not been sent too often; forgets what is worn out or gone. */
    method CheckSendCache(age: nat, maxResends: nat) returns (sent: seq<Entry>)
      modifies this`packetsTable, this`sendCache
      ensures Waiting() == Check(old(Waiting()), currentRound, age, maxResends)
      ensures sent == Resends(old(Waiting()), currentRound, age, maxResends)
      ensures packetsTable == old(packetsTable) - Worn(Due(old(sendCache), currentRound, age), maxResends)
    {
      sent := [];
      ghost var none: set<Hash> := {};
      assert old(packetsTable) - none == old(packetsTable);
      if sendCache == [] || currentRound < age {
        assert sendCache[0..] == sendCache;
        return;
      }
      hide UpperBound, Kept, Emplace;
      var k := UpperBound(sendCache, currentRound - age);
      var due := sendCache[..k];
      var toSend, toRemove := SplitDue(due, maxResends);
      packetsTable := packetsTable - toRemove;
      sendCache := sendCache[k..];
      sent := SendAgain(toSend);
    }

    method SendAgain(toSend: seq<Entry>) returns (sent: seq<Entry>)
      modifies this`sendCache
      ensures sent == Found(toSend, packetsTable.Keys)
      ensures sendCache == Again(old(sendCache), currentRound, sent)
    {
      hide Again, Found, Emplace;
      sent := [];
      NothingSent(sendCache, currentRound, packetsTable.Keys);
      assert toSend[..0] == [];
      var j := 0;
      while j < |toSend|
        invariant 0 <= j <= |toSend|
        invariant sent == Found(toSend[..j], packetsTable.Keys)
        invariant sendCache == Again(old(sendCache), currentRound, sent)
      {
        var e := toSend[j];
        FoundGrows(toSend, j, packetsTable.Keys);
        if e.hash in packetsTable {
          AgainGrows(old(sendCache), currentRound, sent, e);
          sent := sent + [e];
          sendCache := Emplace(sendCache, Entry(currentRound, e.hash, e.count + 1));
        }
        j := j + 1;
      }
      assert toSend[..j] == toSend;
    }

    static method SplitDue(due: seq<Entry>, maxResends: nat) returns (toSend: seq<Entry>, toRemove: set<Hash>)
      ensures toSend == Kept(due, maxResends) && toRemove == Worn(due, maxResends)
    {
      hide Kept, Worn;
      toSend, toRemove := [], {};
      NothingSplit(maxResends);
      assert due[..0] == [];
      var i := 0;
      while i < |due|
        invariant 0 <= i <= |due|
        invariant toSend == Kept(due[..i], maxResends) && toRemove == Worn(due[..i], maxResends)
      {
        SplitGrows(due, i, maxResends);
        if MayResend(due[i], maxResends) {
          toSend := toSend + [due[i]];
        } else {
          toRemove := toRemove + {due[i].hash};
        }
        i := i + 1;
      }
      assert due[..i] == due;
    }

    /** Adds the transactions of one packet to the selected and the rejected ones. */
    static method TakePacket(ghost before: seq<Tx>, p: Packet, mask: seq<nat>, start: nat, taken: seq<Tx>,
      refused: seq<Tx>)
      returns (valid: seq<Tx>, invalid: seq<Tx>, index: nat)
      requires start == |before| && taken == Select(before, mask, true) && refused == Select(before, mask, false)
      ensures var txs := before + p.transactions;
        valid == Select(txs, mask, true) && invalid == Select(txs, mask, false) && index == |txs|
    {
      valid, invalid, index := taken, refused, start;
      assert before + p.transactions[..0] == before;
      var j := 0;
      while j < |p.transactions|
        invariant 0 <= j <= |p.transactions| && index == start + j
        invariant valid == Select(before + p.transactions[..j], mask, true)
        invariant invalid == Select(before + p.transactions[..j], mask, false)
      {
        var t := p.transactions[j];
        ghost var txs := before + p.transactions[..j + 1];
        assert txs[..index] == before + p.transactions[..j] && txs[index] == t;
        if index < |mask| && t.valid {
          if mask[index] != 0 {
            valid := valid + [t];
          } else {
            invalid := invalid + [t];
          }
        }
        index := index + 1;
        j := j + 1;
      }
      assert p.transactions[..j] == p.transactions;
    }

    /** The contract part of a packet: its signatures, and the states it hands on. */
    static method TakeStates(ghost before: seq<Packet>, p: Packet, mask: seq<nat>, start: nat,
      signed: seq<SmartSignature>, handed: seq<Tx>, wasRejected: bool)
      returns (smart: seq<SmartSignature>, states: seq<Tx>, rejected: bool)
      requires StatesFirst(before + [p]) && StatesFirst(before) && start == |Flat(before)|
      requires signed == SmartSignatures(before, mask) && handed == States(before, mask) &&
        wasRejected == Rejected(before, mask)
      ensures smart == SmartSignatures(before + [p], mask) && states == States(before + [p], mask)
      ensures rejected == Rejected(before + [p], mask)
    {
      smart, states, rejected := signed, handed, wasRejected;
      assert (before + [p])[..|before|] == before && p in before + [p];
      if IsSmart(p) {
        if start < |mask| {
          if mask[start] != 0 {
            smart := smart + [Signed(p)];
          } else {
            rejected := true;
          }
        }
        if !rejected {
          states := states + p.states;
        }
      }
    }

    /** Takes one more packet. */
    static method Take(ghost ps: seq<Packet>, p: Packet, mask: seq<nat>, d: Draft) returns (d': Draft)
      requires StatesFirst(ps) && StatesFirst(ps + [p]) && d == DraftOf(ps, mask)
      ensures d' == DraftOf(ps + [p], mask)
    {
      assert (ps + [p])[..|ps|] == ps;
      var smart, states, rejected := TakeStates(ps, p, mask, d.size, d.smart, d.states, d.rejected);
      var valid, invalid, index := TakePacket(Flat(ps), p, mask, d.size, d.valid, d.invalid);
      d' := Draft(valid, invalid, smart, states, rejected, index);
    }

    /** One more hash of the round, whose packet has been found. */
    method Gather(m: Meta, i: nat, p: Packet, d: Draft, archive: map<Hash, Packet>)
      returns (d': Draft, archive': map<Hash, Packet>)
      requires Sound(m.hashTable) && Sound(packetsTable) && i < |m.hashes| && Gathered(packetsTable, m, i, d, archive)
      requires Lookup(packetsTable, m.hashTable, m.hashes[i]) == Some(p)
      ensures Gathered(packetsTable, m, i + 1, d', archive')
    {
      hide DraftOf, Packets, Archive;
      var h := m.hashes[i];
      ghost var ps := Packets(packetsTable, m.hashTable, m.hashes[..i]);
      assert m.hashes[..i + 1] == m.hashes[..i] + [h];
      OnePacketMore(packetsTable, m.hashTable, m.hashes[..i], h);
      d' := Take(ps, p, m.mask, d);
      archive' := if h in archive then archive else archive[h := p];
    }

    /** Collects the round's packets in the order of its hashes; fails at the first hash without a packet and where
        the mask is too short. */
    method Assemble(m: Meta) returns (ok: bool, d: Draft, archive: map<Hash, Packet>)
      requires Sound(m.hashTable) && Sound(packetsTable)
      ensures ok <==> Accepts(packetsTable, m)
      ensures ok ==> var ps := Packets(packetsTable, m.hashTable, m.hashes); StatesFirst(ps) && d == DraftOf(ps, m.mask)
      ensures ok ==> archive == Archive(packetsTable, m.hashTable, m.hashes)
    {
      hide Gathered, Accepts, DraftOf, Packets, Archive, StatesFirst, Sound;
      d, archive := Draft([], [], [], [], false, 0), map[];
      NothingGathered(packetsTable, m);
      var i := 0;
      while i < |m.hashes|
        invariant 0 <= i <= |m.hashes| && Gathered(packetsTable, m, i, d, archive) && d.size <= |m.mask|
      {
        var found := Lookup(packetsTable, m.hashTable, m.hashes[i]);
        if found.None? {
          NotAccepted(packetsTable, m, i);
          return false, d, archive;
        }
        d, archive := Gather(m, i, found.value, d, archive);
        i := i + 1;
        if d.size > |m.mask| {
          TooShort(packetsTable, m, i, d, archive);
          return false, d, archive;
        }
      }
      AllGathered(packetsTable, m, d, archive);
      ok := true;
    }

    /** Turns the round's packets into a block. On success the block and the rejected transactions are the packets,
        flattened in the order of the hashes and split by the mask; the packets move from the table to the round's
        metadata, where each hash still finds the packet it found before. */
    method ApplyCharacteristic(info: PoolInfo) returns (pool: Option<Pool>, states: seq<Tx>)
      requires Sound(packetsTable) && (info.sequence in metas ==> Sound(metas[info.sequence].hashTable))
      modifies this`packetsTable, this`metas, this`sendCache
      ensures pool.Some? <==> info.sequence in old(metas) && Accepts(old(packetsTable), old(metas)[info.sequence])
      ensures info.sequence !in old(metas) ==>
        packetsTable == old(packetsTable) && metas == old(metas) && sendCache == old(sendCache)
      ensures info.sequence in old(metas) ==>
        && packetsTable == old(packetsTable) - (set h | h in old(metas)[info.sequence].hashes)
        && sendCache == EraseAll(old(sendCache), old(metas)[info.sequence].hashes)
      ensures pool.None? ==> metas == old(metas) && states == []
      ensures pool.Some? ==>
        var m := old(metas)[info.sequence];
        var ps := Packets(old(packetsTable), m.hashTable, m.hashes);
        && StatesFirst(ps)
        && pool.value == Block(info, Select(Flat(ps), m.mask, true), SmartSignatures(ps, m.mask))
        && states == States(ps, m.mask)
        && info.sequence in metas && metas == old(metas)[info.sequence := metas[info.sequence]]
        && metas[info.sequence].hashes == m.hashes && metas[info.sequence].mask == m.mask
        && metas[info.sequence].hashTable == Archive(old(packetsTable), m.hashTable, m.hashes)
        && metas[info.sequence].invalid == Select(Flat(ps), m.mask, false)
        && forall h :: h in m.hashes ==> FindPacket(h, info.sequence) == old(FindPacket(h, info.sequence))
    {
      if info.sequence !in metas {
        return None, [];
      }
      var m := metas[info.sequence];
      var ok, d, archive := Assemble(m);
      RemoveHashesFromTable(m.hashes);
      if !ok {
        return None, [];
      }
      metas := metas[info.sequence := m.(hashTable := archive, invalid := d.invalid)];
      var bits := TrustedMask.MaskToBits(info.realTrusted);
      var number := |info.realTrusted| % 256;
      pool := Some(Pool(info.sequence, info.timestamp, info.previous, number, bits, d.valid, d.smart));
      states := d.states;
    }
  }

  lemma NothingGathered(table: map<Hash, Packet>, m: Meta)
    ensures Gathered(table, m, 0, Draft([], [], [], [], false, 0), map[])
  {
  }

  lemma NotAccepted(table: map<Hash, Packet>, m: Meta, i: nat)
    requires i < |m.hashes| && Lookup(table, m.hashTable, m.hashes[i]).None?
    ensures !Accepts(table, m)
  {
    assert m.hashes[i] in m.hashes;
  }

  lemma AllGathered(table: map<Hash, Packet>, m: Meta, d: Draft, archive: map<Hash, Packet>)
    requires Gathered(table, m, |m.hashes|, d, archive) && d.size <= |m.mask|
    ensures Accepts(table, m)
    ensures var ps := Packets(table, m.hashTable, m.hashes); StatesFirst(ps) && d == DraftOf(ps, m.mask)
    ensures archive == Archive(table, m.hashTable, m.hashes)
  {
    assert m.hashes[..|m.hashes|] == m.hashes;
  }

  lemma TooShort(table: map<Hash, Packet>, m: Meta, i: nat, d: Draft, archive: map<Hash, Packet>)
    requires i <= |m.hashes| && Gathered(table, m, i, d, archive) && d.size > |m.mask|
    ensures !Accepts(table, m)
  {
    if AllFound(table, m.hashTable, m.hashes) {
      FlatGrows(table, m.hashTable, m.hashes, i);
    }
  }

  /** Doing it again gives the same block. */
  method ApplyTwice(c: ConveyerBase, info: PoolInfo) returns (first: Option<Pool>, second: Option<Pool>)
    requires Sound(c.packetsTable) && (info.sequence in c.metas ==> Sound(c.metas[info.sequence].hashTable))
    modifies c`packetsTable, c`metas, c`sendCache
    ensures first.Some? ==> second == first
  {
    var states, again;
    first, states := c.ApplyCharacteristic(info);
    if first.None? {
      return first, None;
    }
    ghost var m, m' := old(c.metas)[info.sequence], c.metas[info.sequence];
    assert forall h :: h in m.hashes ==>
      Lookup(c.packetsTable, m'.hashTable, h) == c.FindPacket(h, info.sequence) == old(c.FindPacket(h, info.sequence))
        == Lookup(old(c.packetsTable), m.hashTable, h);
    SamePackets(old(c.packetsTable), m.hashTable, c.packetsTable, m'.hashTable, m.hashes);
    second, again := c.ApplyCharacteristic(info);
  }
}
