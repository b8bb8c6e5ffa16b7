/** The chain as a value: the run of blocks, how much of it is persisted, and the out-of-order cache. */
module ChainModel {

  /** Everything a block's hash covers besides its sequence and parent. */
  datatype Body = Body(content: nat, confidants: seq<nat>, numberConfirmations: nat, roundConfirmations: nat)

  /** Hashes are the hashed data themselves, so they are injective by construction. Signatures are not hashed. */
  datatype Hash = NoHash | HashOf(number: nat, prev: Hash, body: Body)

  datatype Block = Block(number: nat, prev: Hash, body: Body, signatures: nat)

  function HashBlock(b: Block): (h: Hash) {
    HashOf(b.number, b.prev, b.body)
  }

  /** What the node decides with cryptography and tables outside this model: whether a block is consistent,
      whether its signatures hold given the previous confidants, and how fees and wallet ids, which
      depend on the chain below it, complete it. */
  datatype Oracle = Oracle(consistent: Block -> bool,
                           verifies: (Block, seq<nat>) -> bool,
                           complete: (Hash, Body, bool) -> nat)

  datatype Cached = Cached(block: Block, bySync: bool)

  /** `saved` blocks are in the database; at most one more is deferred in memory. */
  datatype Chain = Chain(blocks: seq<Block>, saved: nat, cache: map<nat, Cached>, removable: nat)

  function LastSeq(s: Chain): (r: nat) {
    if s.blocks == [] then 0 else |s.blocks| - 1
  }

  function LastHash(s: Chain): (h: Hash) {
    if s.blocks == [] then NoHash else HashBlock(s.blocks[|s.blocks| - 1])
  }

  /** A hash-linked run of consecutive sequences from genesis. */
  ghost predicate Linked(blocks: seq<Block>) {
    && (forall i :: 0 <= i < |blocks| ==> blocks[i].number == i)
    && (forall i {:trigger ParentHash(blocks, i)} :: 0 <= i < |blocks| ==> blocks[i].prev == ParentHash(blocks, i))
  }

  ghost function ParentHash(blocks: seq<Block>, i: nat): Hash
    requires i <= |blocks|
  {
    if i == 0 then NoHash else HashBlock(blocks[i - 1])
  }

  /** The chain has its genesis block, is linked, and all but at most its top block are persisted. */
  ghost predicate WellFormed(s: Chain) {
    && s.blocks != [] && Linked(s.blocks)
    && s.saved <= |s.blocks| <= s.saved + 1
    && forall k :: k in s.cache ==> s.cache[k].block.number == k
  }

  function Consistent(o: Oracle, b: Block): (r: bool) {
    b.number == 0 || o.consistent(b)
  }

  function LacksConfirmations(b: Block): (r: bool) {
    (b.body.numberConfirmations == 0 || b.body.roundConfirmations == 0) && b.number > 1
  }

  function LastConfidants(s: Chain, number: nat): (r: seq<nat>) {
    if 1 < number <= |s.blocks| then s.blocks[number - 1].body.confidants else []
  }

  // ----- operations

  /** Drop the top block, deferred or persisted, if a removal is allowed. */
  function RemoveLast(s: Chain): (s': Chain) {
    if s.removable == 0 || s.blocks == [] then s
    else
      var top := |s.blocks| - 1;
      s.(blocks := s.blocks[..top], saved := if s.saved < top then s.saved else top)
  }

  /** Flush the deferred block and put `b` on top if it is consistent and its signatures hold. */
  function Record(o: Oracle, s: Chain, b: Block): (r: (Chain, bool)) {
    if LastSeq(s) + 1 != b.number then (s, false)
    else
      var b' := b.(prev := LastHash(s));
      var deferred := s.saved < |s.blocks|;
      if !Consistent(o, b') || (deferred && !Consistent(o, s.blocks[|s.blocks| - 1])) then (s, false)
      else
        var flushed := s.(saved := |s.blocks|);
        if o.verifies(b', LastConfidants(s, b.number)) then
          (flushed.(blocks := s.blocks + [b'], removable := 1), true)
        else
          (flushed.(removable := if s.removable > 0 then s.removable else 1), false)
  }

  /** The block with the fees and wallet ids the node gives it on top of the chain. */
  function Completed(o: Oracle, s: Chain, b: Block, bySync: bool): (c: Block) {
    b.(body := b.body.(content := o.complete(LastHash(s), b.body, bySync)))
  }

  function Store(o: Oracle, s: Chain, b: Block, bySync: bool): (r: (Chain, bool)) {
    if b.number <= LastSeq(s) then (s, true)
    else if LacksConfirmations(b) then (s, false)
    else if b.number == LastSeq(s) + 1 then
      if b.prev != LastHash(s) then
        if b.prev.NoHash? then (s, false) else (RemoveLast(s), false)
      else
        Record(o, s, Completed(o, s, b, bySync))
    else if b.number in s.cache then (s, true)
    else (s.(cache := s.cache[b.number := Cached(b, bySync)]), true)
  }

  /** Record cached blocks for as long as the next one is there and is accepted. */
  function DrainFrom(o: Oracle, s: Chain): (s': Chain)
    requires WellFormed(s)
    decreases |s.cache|
  {
    var next := LastSeq(s) + 1;
    if next !in s.cache then s
    else
      var (s1, ok) := Store(o, s, s.cache[next].block, s.cache[next].bySync);
      StoreKeepsWellFormed(o, s, s.cache[next].block, s.cache[next].bySync);
      var s2 := s1.(cache := s1.cache - {next});
      if ok then DrainFrom(o, s2) else s2
  }

  function Outdated(s: Chain): (s': Chain) {
    s.(cache := map k | k in s.cache && k > LastSeq(s) :: s.cache[k])
  }

  /** Forget outdated cached blocks, then record what follows the top. */
  function Drain(o: Oracle, s: Chain): (s': Chain)
    requires WellFormed(s)
  {
    if |s.cache| == 0 then s else DrainFrom(o, Outdated(s))
  }

  function Flush(s: Chain): (s': Chain) {
    s.(saved := |s.blocks|)
  }

  /** The one way to break the chain: an allowed removal while only genesis is left. */
  predicate RemovesGenesis(s: Chain, b: Block) {
    && |s.blocks| == 1 && s.removable > 0
    && b.number == 1 && b.prev != LastHash(s) && !b.prev.NoHash?
  }

  lemma LinkedPrefix(blocks: seq<Block>, n: nat)
    requires Linked(blocks) && n <= |blocks|
    ensures Linked(blocks[..n])
  {
    forall i | 0 <= i < n ensures blocks[..n][i].prev == ParentHash(blocks[..n], i) {
      assert ParentHash(blocks[..n], i) == ParentHash(blocks, i);
    }
  }

  lemma LinkedAppend(blocks: seq<Block>, b: Block)
    requires Linked(blocks) && blocks != []
    requires b.number == |blocks| && b.prev == HashBlock(blocks[|blocks| - 1])
    ensures Linked(blocks + [b])
  {
    var all := blocks + [b];
    forall i | 0 <= i < |all| ensures all[i].prev == ParentHash(all, i) {
      if i < |blocks| {
        assert all[i] == blocks[i] && ParentHash(all, i) == ParentHash(blocks, i);
      } else {
        assert all[i] == b && all[i - 1] == blocks[i - 1];
      }
    }
  }

  lemma RemoveKeepsWellFormed(s: Chain)
    requires WellFormed(s)
    ensures WellFormed(RemoveLast(s)) <==> s.removable == 0 || |s.blocks| > 1
  {
    LinkedPrefix(s.blocks, |s.blocks| - 1);
  }

  lemma RecordKeepsWellFormed(o: Oracle, s: Chain, b: Block)
    requires WellFormed(s)
    ensures WellFormed(Record(o, s, b).0) && Record(o, s, b).0.cache == s.cache
    ensures Record(o, s, b).1 ==> Record(o, s, b).0.blocks == s.blocks + [b.(prev := LastHash(s))]
  {
    if Record(o, s, b).1 {
      LinkedAppend(s.blocks, b.(prev := LastHash(s)));
    }
  }

  /** Storing a block, whatever becomes of it, keeps the chain well formed, except exactly when it makes
      the node drop its genesis block. */
  lemma StoreKeepsWellFormed(o: Oracle, s: Chain, b: Block, bySync: bool)
    requires WellFormed(s)
    ensures WellFormed(Store(o, s, b, bySync).0) <==> !RemovesGenesis(s, b)
    ensures Store(o, s, b, bySync).1 ==> !RemovesGenesis(s, b)
    ensures b.number == LastSeq(s) + 1 ==> Store(o, s, b, bySync).0.cache == s.cache
  {
    RemoveKeepsWellFormed(s);
    RecordKeepsWellFormed(o, s, Completed(o, s, b, bySync));
  }

  /** A block above number 1 without confirmations, or without round confirmations, is refused whatever else holds. */
  lemma UnconfirmedIsRefused(o: Oracle, s: Chain, b: Block, bySync: bool)
    requires b.number > LastSeq(s) && b.number > 1
    ensures b.body.numberConfirmations == 0 || b.body.roundConfirmations == 0 ==> Store(o, s, b, bySync) == (s, false)
    ensures Store(o, s, b, bySync).1 ==> b.body.numberConfirmations > 0 && b.body.roundConfirmations > 0
  {
  }

  /** When storing succeeds, and what has then happened: an old block is ignored, the next one is on top if it stands on
      the last hash, is consistent and rightly signed, and a later one is in the cache unless one was there. */
  lemma StoreSucceedsIff(o: Oracle, s: Chain, b: Block, bySync: bool)
    requires WellFormed(s)
    ensures var (s', ok) := Store(o, s, b, bySync);
      var n := |s.blocks|;
      var confirmed := b.number <= 1 || (b.body.numberConfirmations > 0 && b.body.roundConfirmations > 0);
      && (b.number < n ==> ok && s' == s)
      && (b.number > n ==> ok == confirmed && s'.blocks == s.blocks && s'.saved == s.saved)
      && (b.number > n && confirmed ==>
            s'.cache == if b.number in s.cache then s.cache else s.cache[b.number := Cached(b, bySync)])
      && (b.number == n ==>
            var c := Completed(o, s, b, bySync);
            && (ok <==> && confirmed && b.prev == HashBlock(s.blocks[n - 1]) && o.consistent(c)
                        && (s.saved < n && n > 1 ==> o.consistent(s.blocks[n - 1]))
                        && o.verifies(c, if n > 1 then s.blocks[n - 1].body.confidants else []))
            && (ok ==> s'.blocks == s.blocks + [c] && s'.saved == n && s'.cache == s.cache && s'.removable == 1)
            && (!ok ==>
                  var foreign := confirmed && b.prev != HashBlock(s.blocks[n - 1]) && b.prev != NoHash;
                  && s'.cache == s.cache && (s.removable > 0 ==> s'.removable == s.removable)
                  && s'.blocks == if foreign && s.removable > 0 then s.blocks[..n - 1] else s.blocks))
  {
    assert forall i :: 0 <= i < |s.blocks| ==> s.blocks[i].number == i;
  }

  /** Genesis alone, and a first block on a foreign parent: nothing is left. */
  lemma GenesisCanBeLost(o: Oracle, body: Body, bySync: bool)
    ensures var s, b := Chain([Block(0, NoHash, body, 0)], 1, map[], 1), Block(1, HashOf(7, NoHash, body), body, 1);
      WellFormed(s) && RemovesGenesis(s, b) && Store(o, s, b, bySync).0.blocks == []
  {
    var s, b := Chain([Block(0, NoHash, body, 0)], 1, map[], 1), Block(1, HashOf(7, NoHash, body), body, 1);
    assert LastHash(s) == HashOf(0, NoHash, body) != b.prev;
    assert s.blocks[..0] == [];
  }
}
