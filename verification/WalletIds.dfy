/** Short ids for wallet addresses: the table, the writer of a block, a follower replaying it, and rollback. */
module WalletIds {
  import opened Addresses
  import opened Options

  /** Half of the largest 32-bit id; ids from here on are refused by an exception. */
  const ID_LIMIT: nat := 0xFFFF_FFFF / 2

  datatype Table = Table(ids: map<Key, nat>, next: nat)

  ghost predicate Injective(ids: map<Key, nat>) {
    forall a, b :: a in ids && b in ids && ids[a] == ids[b] ==> a == b
  }

  /** Every id has been handed out below `next`, each to one address. */
  ghost predicate Dense(t: Table) {
    Injective(t.ids) && forall a :: a in t.ids ==> t.ids[a] < t.next
  }

  // ----- the table: unique by address and by id

  predicate CanInsert(t: Table, key: Key, id: nat) {
    key !in t.ids && forall b :: b in t.ids ==> t.ids[b] != id
  }

  datatype Outcome = Inserted(id: nat) | Refused(id: nat) | Overflow

  /** Insertion of a given id. The exception comes after the entry is in. */
  function Insert(t: Table, a: Address, id: nat): (r: (Table, Outcome)) {
    if a.WalletId? || !CanInsert(t, a.key, id) then (t, Refused(id))
    else
      var ids := t.ids[a.key := id];
      if id < t.next then (Table(ids, t.next), Inserted(id))
      else if id >= ID_LIMIT then (Table(ids, t.next), Overflow)
      else (Table(ids, id + 1), Inserted(id))
  }

  /** The id of an address, a new one if need be. */
  function Get(t: Table, a: Address): (r: (Table, Outcome)) {
    if a.WalletId? then (t, Refused(a.id))
    else if !CanInsert(t, a.key, t.next) then (t, Refused(if a.key in t.ids then t.ids[a.key] else t.next))
    else
      var ids := t.ids[a.key := t.next];
      if t.next >= ID_LIMIT then (Table(ids, t.next), Overflow) else (Table(ids, t.next + 1), Inserted(t.next))
  }

  function Remove(t: Table, a: Address): (r: Table) {
    if a.WalletId? || a.key !in t.ids then t
    else Table(t.ids - {a.key}, if t.next > 0 then t.next - 1 else 0)
  }

  // ----- blocks

  datatype Pool = Pool(transactions: seq<(Address, Address)>, confidants: seq<Key>)

  /** Where in the block an address appears. */
  datatype Place = Place(index: nat, isTarget: bool)
  datatype NewWallet = NewWallet(place: Place, id: nat)

  function AddressAt(p: Pool, place: Place): (a: Option<Address>) {
    if place.index >= |p.transactions| + |p.confidants| then None
    else if place.index < |p.transactions| then
      Some(if place.isTarget then p.transactions[place.index].1 else p.transactions[place.index].0)
    else Some(PublicKey(p.confidants[place.index - |p.transactions|]))
  }

  // ----- the writer: every place of the block in turn

  datatype Written = Written(table: Table, wallets: seq<NewWallet>, threw: bool)

  function WriteAt(w: Written, p: Pool, genesis: Key, place: Place): (r: Written)
    requires AddressAt(p, place).Some?
  {
    var a := AddressAt(p, place).value;
    if w.threw || a.WalletId? || a.key == genesis then w
    else
      match Get(w.table, a)
      case (t, Inserted(id)) => Written(t, w.wallets + [NewWallet(place, id)], false)
      case (t, Refused(_)) => w.(table := t)
      case (t, Overflow) => Written(t, w.wallets, true)
  }

  /** After the first `i` transactions and, once those are done, the first `k` confidants. */
  function WriteTransactions(t: Table, p: Pool, genesis: Key, i: nat): (r: Written)
    requires i <= |p.transactions|
  {
    if i == 0 then Written(t, [], false)
    else WriteAt(WriteAt(WriteTransactions(t, p, genesis, i - 1), p, genesis, Place(i - 1, false)), p, genesis,
      Place(i - 1, true))
  }

  function WriteConfidants(t: Table, p: Pool, genesis: Key, k: nat): (r: Written)
    requires k <= |p.confidants|
  {
    if k == 0 then WriteTransactions(t, p, genesis, |p.transactions|)
    else WriteAt(WriteConfidants(t, p, genesis, k - 1), p, genesis, Place(|p.transactions| + k - 1, true))
  }

  function Write(t: Table, p: Pool, genesis: Key): (r: Written) {
    WriteConfidants(t, p, genesis, |p.confidants|)
  }

  // ----- the follower and the rollback

  datatype Replayed = Replayed(table: Table, ok: bool)

  function ReplayOne(r: Replayed, p: Pool, w: NewWallet): (r': Replayed) {
    if !r.ok then r
    else
      match AddressAt(p, w.place)
      case None => Replayed(r.table, false)
      case Some(a) => var (t, o) := Insert(r.table, a, w.id); Replayed(t, !o.Overflow?)
  }

  function Replay(t: Table, p: Pool, ws: seq<NewWallet>): (r: Replayed) {
    if ws == [] then Replayed(t, true) else ReplayOne(Replay(t, p, ws[..|ws| - 1]), p, ws[|ws| - 1])
  }

  function Rollback(t: Table, p: Pool, ws: seq<NewWallet>): (r: Table)
    decreases |ws|
  {
    if ws == [] then t
    else
      match AddressAt(p, ws[0].place)
      case None => t
      case Some(a) => Rollback(Remove(t, a), p, ws[1..])
  }

  // ----- the writer, the follower and the rollback agree

  predicate Names(p: Pool, w: NewWallet, k: Key) {
    AddressAt(p, w.place) == Some(PublicKey(k))
  }

  predicate NamesAKey(p: Pool, w: NewWallet) {
    AddressAt(p, w.place).Some? && AddressAt(p, w.place).value.PublicKey?
  }

  ghost function Keys(p: Pool, ws: seq<NewWallet>): (ks: set<Key>) {
    set w | w in ws && NamesAKey(p, w) :: AddressAt(p, w.place).value.key
  }

  /** Each entry names a key of its own, from the given ids. */
  ghost predicate Listed(p: Pool, ws: seq<NewWallet>, ids: map<Key, nat>) {
    && (forall i :: 0 <= i < |ws| ==>
          && NamesAKey(p, ws[i]) && AddressAt(p, ws[i].place).value.key in ids
          && ids[AddressAt(p, ws[i].place).value.key] == ws[i].id)
    && (forall i, j :: 0 <= i < j < |ws| ==> AddressAt(p, ws[i].place) != AddressAt(p, ws[j].place))
  }

  /** Where the writer stands: its table is what a follower gets from the list, and taking the list away leaves the
      table it started from. */
  ghost predicate InStep(t: Table, p: Pool, w: Written) {
    && Replay(t, p, w.wallets) == Replayed(w.table, true)
    && Listed(p, w.wallets, w.table.ids)
    && w.table.ids - Keys(p, w.wallets) == t.ids
    && w.table.next == t.next + |w.wallets|
    && (Dense(t) ==> Dense(w.table))
  }

  /** Where the next id can be inserted, asking for an id and inserting that one are the same; elsewhere asking changes
      nothing. */
  lemma GetIsInsert(t: Table, a: Address)
    requires a.PublicKey?
    ensures CanInsert(t, a.key, t.next) ==> Insert(t, a, t.next) == Get(t, a)
    ensures !CanInsert(t, a.key, t.next) ==> Get(t, a).0 == t && Get(t, a).1.Refused?
  {
  }

  lemma ReplayAppend(t: Table, p: Pool, w: Written, place: Place, key: Key)
    requires Replay(t, p, w.wallets) == Replayed(w.table, true)
    requires AddressAt(p, place) == Some(PublicKey(key)) && CanInsert(w.table, key, w.table.next)
    requires w.table.next < ID_LIMIT
    ensures Replay(t, p, w.wallets + [NewWallet(place, w.table.next)])
      == Replayed(Table(w.table.ids[key := w.table.next], w.table.next + 1), true)
  {
    assert (w.wallets + [NewWallet(place, w.table.next)])[..|w.wallets|] == w.wallets;
    GetIsInsert(w.table, PublicKey(key));
  }

  lemma KeysAppend(p: Pool, ws: seq<NewWallet>, e: NewWallet, key: Key)
    requires AddressAt(p, e.place) == Some(PublicKey(key))
    ensures Keys(p, ws + [e]) == Keys(p, ws) + {key}
  {
    assert e in ws + [e];
    forall k | k in Keys(p, ws) ensures k in Keys(p, ws + [e]) {
      var w :| w in ws && NamesAKey(p, w) && AddressAt(p, w.place).value.key == k;
      assert w in ws + [e];
    }
  }

  lemma ListedAppend(p: Pool, ws: seq<NewWallet>, ids: map<Key, nat>, e: NewWallet, key: Key)
    requires Listed(p, ws, ids) && AddressAt(p, e.place) == Some(PublicKey(key)) && key !in ids
    ensures Listed(p, ws + [e], ids[key := e.id])
  {
  }

  /** One more wallet on the list. */
  lemma AppendKeepsInStep(t: Table, p: Pool, w: Written, place: Place, key: Key)
    requires InStep(t, p, w) && AddressAt(p, place) == Some(PublicKey(key))
    requires CanInsert(w.table, key, w.table.next) && w.table.next < ID_LIMIT
    ensures InStep(t, p,
      Written(Table(w.table.ids[key := w.table.next], w.table.next + 1),
        w.wallets + [NewWallet(place, w.table.next)], false))
  {
    hide Replay, Listed, Keys;
    var entry := NewWallet(place, w.table.next);
    ReplayAppend(t, p, w, place, key);
    KeysAppend(p, w.wallets, entry, key);
    ListedAppend(p, w.wallets, w.table.ids, entry, key);
    assert w.table.ids[key := w.table.next] - Keys(p, w.wallets + [entry]) == w.table.ids - Keys(p, w.wallets);
  }

  lemma WriteKeepsInStep(t: Table, p: Pool, genesis: Key, w: Written, place: Place)
    requires AddressAt(p, place).Some? && (w.threw || InStep(t, p, w))
    ensures var r := WriteAt(w, p, genesis, place); r.threw || InStep(t, p, r)
  {
    var a := AddressAt(p, place).value;
    if !w.threw && a.PublicKey? {
      GetIsInsert(w.table, a);
      if CanInsert(w.table, a.key, w.table.next) && w.table.next < ID_LIMIT {
        AppendKeepsInStep(t, p, w, place, a.key);
      }
    }
  }

  lemma {:induction false} WriteTransactionsInStep(t: Table, p: Pool, genesis: Key, i: nat)
    requires i <= |p.transactions|
    ensures var r := WriteTransactions(t, p, genesis, i); r.threw || InStep(t, p, r)
  {
    if i == 0 {
      assert t.ids - Keys(p, []) == t.ids;
    } else {
      WriteTransactionsInStep(t, p, genesis, i - 1);
      var w := WriteTransactions(t, p, genesis, i - 1);
      WriteKeepsInStep(t, p, genesis, w, Place(i - 1, false));
      WriteKeepsInStep(t, p, genesis, WriteAt(w, p, genesis, Place(i - 1, false)), Place(i - 1, true));
    }
  }

  lemma {:induction false} WriteInStep(t: Table, p: Pool, genesis: Key, k: nat)
    requires k <= |p.confidants|
    ensures var r := WriteConfidants(t, p, genesis, k); r.threw || InStep(t, p, r)
  {
    hide InStep, Dense, WriteAt;
    if k == 0 {
      WriteTransactionsInStep(t, p, genesis, |p.transactions|);
    } else {
      WriteInStep(t, p, genesis, k - 1);
      WriteKeepsInStep(t, p, genesis, WriteConfidants(t, p, genesis, k - 1), Place(|p.transactions| + k - 1, true));
    }
  }

  /** Taking away a list of entries that are all there. */
  lemma {:induction false} RollbackRemoves(t: Table, p: Pool, ws: seq<NewWallet>)
    requires Listed(p, ws, t.ids) && |ws| <= t.next
    ensures Rollback(t, p, ws) == Table(t.ids - Keys(p, ws), t.next - |ws|)
    decreases |ws|
  {
    if ws == [] {
      assert t.ids - Keys(p, ws) == t.ids;
    } else {
      var k := AddressAt(p, ws[0].place).value.key;
      var t' := Remove(t, PublicKey(k));
      RollbackRemoves(t', p, ws[1..]);
      assert Keys(p, ws) == {k} + Keys(p, ws[1..]) by {
        assert ws == [ws[0]] + ws[1..];
      }
      assert t'.ids - Keys(p, ws[1..]) == t.ids - Keys(p, ws);
    }
  }

  /** A follower that replays the writer's list on the same table gets the writer's table, and rolling the list back
      restores the table before the block, ids and counter alike. Any table will do, also one that a rollback has left
      with ids at or above the counter. */
  lemma FollowerAgreesAndRollbackRestores(t: Table, p: Pool, genesis: Key)
    requires !Write(t, p, genesis).threw
    ensures var w := Write(t, p, genesis);
      && Replay(t, p, w.wallets) == Replayed(w.table, true)
      && Rollback(w.table, p, w.wallets) == t
      && (Dense(t) ==> Dense(w.table))
  {
    WriteInStep(t, p, genesis, |p.confidants|);
    var w := Write(t, p, genesis);
    RollbackRemoves(w.table, p, w.wallets);
  }

  // ----- which address gets which id

  /** Every entry of the list names an address of the block: the source or the target of the transaction it points to,
      or a confidant. That address is a public key, and its id in the table is the one of the entry. */
  lemma EntriesStand(t: Table, p: Pool, genesis: Key, i: nat)
    requires !Write(t, p, genesis).threw && i < |Write(t, p, genesis).wallets|
    ensures var w := Write(t, p, genesis);
      var n, entry := w.wallets[i].place.index, w.wallets[i];
      && n < |p.transactions| + |p.confidants|
      && var a := if n >= |p.transactions| then PublicKey(p.confidants[n - |p.transactions|])
                  else if entry.place.isTarget then p.transactions[n].1 else p.transactions[n].0;
         a.PublicKey? && a.key in w.table.ids && w.table.ids[a.key] == entry.id
  {
    hide Write, Replay;
    WrittenInStep(t, p, genesis);
    assert NamesAKey(p, Write(t, p, genesis).wallets[i]);
  }

  lemma WrittenInStep(t: Table, p: Pool, genesis: Key)
    requires !Write(t, p, genesis).threw
    ensures InStep(t, p, Write(t, p, genesis))
  {
    WriteInStep(t, p, genesis, |p.confidants|);
  }

  /** The addresses of transactions: source, target, source, target. */
  function Parties(txs: seq<(Address, Address)>): (r: seq<Address>) {
    if txs == [] then [] else Parties(txs[..|txs| - 1]) + [txs[|txs| - 1].0] + [txs[|txs| - 1].1]
  }

  function Confidants(keys: seq<Key>): (r: seq<Address>) {
    if keys == [] then [] else Confidants(keys[..|keys| - 1]) + [PublicKey(keys[|keys| - 1])]
  }

  /** The addresses of a block in the order in which they appear. */
  function Appearances(p: Pool): (r: seq<Address>) {
    Parties(p.transactions) + Confidants(p.confidants)
  }

  /** The keys that are new to a table, in the order of their first appearance. */
  function NewKeys(t: Table, genesis: Key, addresses: seq<Address>): (ks: seq<Key>) {
    if addresses == [] then []
    else
      var ks, a := NewKeys(t, genesis, addresses[..|addresses| - 1]), addresses[|addresses| - 1];
      if a.PublicKey? && a.key != genesis && a.key !in t.ids && a.key !in ks then ks + [a.key] else ks
  }

  /** Which keys these are: all that appear, are new and are not the genesis key, each once; and those of a part of the
      block come first. */
  lemma {:induction false} NewKeysAre(t: Table, genesis: Key, addresses: seq<Address>, n: nat)
    requires n <= |addresses|
    ensures var ks := NewKeys(t, genesis, addresses);
      && (forall k :: k in ks <==> PublicKey(k) in addresses && k != genesis && k !in t.ids)
      && (forall i, j :: 0 <= i < j < |ks| ==> ks[i] != ks[j])
      && NewKeys(t, genesis, addresses[..n]) <= ks
    decreases |addresses|
  {
    if addresses == [] {
    } else {
      var m := |addresses| - 1;
      assert addresses == addresses[..m] + [addresses[m]];
      if n <= m {
        NewKeysAre(t, genesis, addresses[..m], n);
        assert addresses[..m][..n] == addresses[..n];
      } else {
        NewKeysAre(t, genesis, addresses[..m], m);
        assert addresses[..n] == addresses;
      }
    }
  }

  /** The writer has seen these addresses: their new keys have got the ids from the old counter on, in order. */
  ghost predicate Numbered(t: Table, genesis: Key, addresses: seq<Address>, w: Written) {
    var ks := NewKeys(t, genesis, addresses);
    && Dense(w.table) && w.table.next == t.next + |ks| && |w.wallets| == |ks|
    && (forall k :: k in w.table.ids <==> k in t.ids || k in ks)
    && (forall k :: k in t.ids ==> k in w.table.ids && w.table.ids[k] == t.ids[k])
    && (forall i :: 0 <= i < |ks| ==> ks[i] in w.table.ids && w.table.ids[ks[i]] == w.wallets[i].id == t.next + i)
  }

  /** It has thrown exactly when there was an id for one of them at or above the limit. */
  ghost predicate NumberedOrThrown(t: Table, genesis: Key, addresses: seq<Address>, w: Written) {
    var ks := NewKeys(t, genesis, addresses);
    && (w.threw <==> ks != [] && t.next + |ks| > 0x7FFF_FFFF)
    && (!w.threw ==> Numbered(t, genesis, addresses, w))
  }

  lemma NumbersOneMore(t: Table, p: Pool, genesis: Key, addresses: seq<Address>, w: Written, place: Place)
    requires AddressAt(p, place).Some? && NumberedOrThrown(t, genesis, addresses, w)
    ensures NumberedOrThrown(t, genesis, addresses + [AddressAt(p, place).value], WriteAt(w, p, genesis, place))
  {
    hide NewKeys, AddressAt;
    var a := AddressAt(p, place).value;
    var more := addresses + [a];
    NewKeysMore(t, genesis, addresses, a);
    if !w.threw && a.PublicKey? {
      assert Dense(w.table);
    }
  }

  lemma NewKeysMore(t: Table, genesis: Key, addresses: seq<Address>, a: Address)
    ensures var ks := NewKeys(t, genesis, addresses);
      NewKeys(t, genesis, addresses + [a])
      == if a.PublicKey? && a.key != genesis && a.key !in t.ids && a.key !in ks then ks + [a.key] else ks
  {
    assert (addresses + [a])[..|addresses|] == addresses;
  }

  lemma {:induction false} NumbersParties(t: Table, p: Pool, genesis: Key, i: nat)
    requires Dense(t) && i <= |p.transactions|
    ensures NumberedOrThrown(t, genesis, Parties(p.transactions[..i]), WriteTransactions(t, p, genesis, i))
  {
    hide WriteAt, NumberedOrThrown, AddressAt;
    if i == 0 {
      NumbersNothing(t, genesis);
    } else {
      NumbersParties(t, p, genesis, i - 1);
      var w, before := WriteTransactions(t, p, genesis, i - 1), Parties(p.transactions[..i - 1]);
      PlacesOf(p, i - 1);
      NumbersOneMore(t, p, genesis, before, w, Place(i - 1, false));
      NumbersOneMore(t, p, genesis, before + [p.transactions[i - 1].0], WriteAt(w, p, genesis, Place(i - 1, false)),
        Place(i - 1, true));
      assert p.transactions[..i][..i - 1] == p.transactions[..i - 1];
    }
  }

  lemma NumbersNothing(t: Table, genesis: Key)
    requires Dense(t)
    ensures NumberedOrThrown(t, genesis, Parties([]), Written(t, [], false))
  {
  }

  lemma PlacesOf(p: Pool, i: nat)
    requires i < |p.transactions|
    ensures AddressAt(p, Place(i, false)) == Some(p.transactions[i].0)
    ensures AddressAt(p, Place(i, true)) == Some(p.transactions[i].1)
  {
  }

  lemma ConfidantAt(p: Pool, k: nat)
    requires k < |p.confidants|
    ensures AddressAt(p, Place(|p.transactions| + k, true)) == Some(PublicKey(p.confidants[k]))
  {
  }

  lemma {:induction false} NumbersConfidants(t: Table, p: Pool, genesis: Key, k: nat)
    requires Dense(t) && k <= |p.confidants|
    ensures NumberedOrThrown(t, genesis, Parties(p.transactions) + Confidants(p.confidants[..k]),
      WriteConfidants(t, p, genesis, k))
  {
    hide WriteAt, NumberedOrThrown, AddressAt;
    if k == 0 {
      NumbersParties(t, p, genesis, |p.transactions|);
      assert p.transactions[..|p.transactions|] == p.transactions;
      assert Parties(p.transactions) + Confidants(p.confidants[..0]) == Parties(p.transactions);
    } else {
      NumbersConfidants(t, p, genesis, k - 1);
      ConfidantAt(p, k - 1);
      var before := Parties(p.transactions) + Confidants(p.confidants[..k - 1]);
      var w := WriteConfidants(t, p, genesis, k - 1);
      NumbersOneMore(t, p, genesis, before, w, Place(|p.transactions| + k - 1, true));
      assert p.confidants[..k][..k - 1] == p.confidants[..k - 1];
      assert before + [PublicKey(p.confidants[k - 1])] == Parties(p.transactions) + Confidants(p.confidants[..k]);
    }
  }

  /** From a dense table the writer throws if and only if the ids run out: there are new keys, and the counter would
      pass half of the 32-bit range. */
  lemma ThrowsIff(t: Table, p: Pool, genesis: Key)
    requires Dense(t)
    ensures var ks := NewKeys(t, genesis, Appearances(p));
      Write(t, p, genesis).threw <==> ks != [] && t.next + |ks| > 0x7FFF_FFFF
  {
    hide NewKeys;
    NumbersConfidants(t, p, genesis, |p.confidants|);
    assert p.confidants[..|p.confidants|] == p.confidants;
  }

  /** From a dense table every public key of the block but the genesis one is in the table afterwards, and the new ones
      have got the ids from the old counter on, in the order of their first appearance. */
  lemma EveryNewKeyIsNumbered(t: Table, p: Pool, genesis: Key)
    requires Dense(t) && !Write(t, p, genesis).threw
    ensures Numbered(t, genesis, Appearances(p), Write(t, p, genesis))
    ensures forall i :: 0 <= i < |p.transactions| ==>
      && InTable(Write(t, p, genesis).table, genesis, p.transactions[i].0)
      && InTable(Write(t, p, genesis).table, genesis, p.transactions[i].1)
    ensures forall i :: 0 <= i < |p.confidants| ==>
      p.confidants[i] == genesis || p.confidants[i] in Write(t, p, genesis).table.ids
  {
    hide Write, NewKeys;
    WrittenIsNumbered(t, p, genesis);
    NewKeysAre(t, genesis, Appearances(p), 0);
    forall i | 0 <= i < |p.transactions|
      ensures p.transactions[i].0 in Appearances(p) && p.transactions[i].1 in Appearances(p)
    {
      PartyAppears(p.transactions, i);
    }
    forall i | 0 <= i < |p.confidants| ensures PublicKey(p.confidants[i]) in Appearances(p) {
      ConfidantAppears(p.confidants, i);
    }
  }

  predicate InTable(t: Table, genesis: Key, a: Address) {
    a.PublicKey? ==> a.key == genesis || a.key in t.ids
  }

  lemma WrittenOrThrown(t: Table, p: Pool, genesis: Key)
    ensures Dense(t) ==> NumberedOrThrown(t, genesis, Appearances(p), Write(t, p, genesis))
  {
    hide NumberedOrThrown, Dense;
    if Dense(t) {
      NumbersConfidants(t, p, genesis, |p.confidants|);
      assert p.confidants[..|p.confidants|] == p.confidants;
    }
  }

  lemma WrittenIsNumbered(t: Table, p: Pool, genesis: Key)
    requires Dense(t) && !Write(t, p, genesis).threw
    ensures Numbered(t, genesis, Appearances(p), Write(t, p, genesis))
  {
    hide Numbered;
    NumbersConfidants(t, p, genesis, |p.confidants|);
    assert p.confidants[..|p.confidants|] == p.confidants;
  }

  lemma {:induction false} PartyAppears(txs: seq<(Address, Address)>, i: nat)
    requires i < |txs|
    ensures txs[i].0 in Parties(txs) && txs[i].1 in Parties(txs)
  {
    if i == |txs| - 1 {
    } else {
      PartyAppears(txs[..|txs| - 1], i);
    }
  }

  lemma {:induction false} ConfidantAppears(keys: seq<Key>, i: nat)
    requires i < |keys|
    ensures PublicKey(keys[i]) in Confidants(keys)
  {
    if i == |keys| - 1 {
    } else {
      ConfidantAppears(keys[..|keys| - 1], i);
    }
  }

  // ----- lists from elsewhere

  /** Entry `i` and all before it point into the block. */
  ghost predicate Usable(p: Pool, ws: seq<NewWallet>, i: nat)
    requires i < |ws|
  {
    forall j :: 0 <= j <= i ==> AddressAt(p, ws[j].place).Some?
  }

  /** The keys a list names before its first unusable entry. */
  ghost function NamedKeys(p: Pool, ws: seq<NewWallet>): (ks: set<Key>) {
    set i | 0 <= i < |ws| && Usable(p, ws, i) && NamesAKey(p, ws[i]) :: AddressAt(p, ws[i].place).value.key
  }

  lemma NamedKeysGrow(p: Pool, ws: seq<NewWallet>)
    requires ws != []
    ensures NamedKeys(p, ws[..|ws| - 1]) <= NamedKeys(p, ws)
    ensures (forall i :: 0 <= i < |ws| ==> AddressAt(p, ws[i].place).Some?) && NamesAKey(p, ws[|ws| - 1])
      ==> AddressAt(p, ws[|ws| - 1].place).value.key in NamedKeys(p, ws)
  {
    hide AddressAt;
    var before := ws[..|ws| - 1];
    forall k | k in NamedKeys(p, before) ensures k in NamedKeys(p, ws) {
      var i :| 0 <= i < |before| && Usable(p, before, i) && Names(p, before[i], k);
      assert Usable(p, ws, i) && Names(p, ws[i], k);
    }
    if forall i :: 0 <= i < |ws| ==> AddressAt(p, ws[i].place).Some? {
      assert Usable(p, ws, |ws| - 1);
    }
  }

  lemma {:induction false} ReplayGrows(t: Table, p: Pool, ws: seq<NewWallet>)
    ensures var r := Replay(t, p, ws);
      && (r.ok ==> forall i :: 0 <= i < |ws| ==> AddressAt(p, ws[i].place).Some?)
      && (forall k :: k in t.ids ==> k in r.table.ids && r.table.ids[k] == t.ids[k])
      && r.table.ids.Keys <= t.ids.Keys + NamedKeys(p, ws)
  {
    hide NamedKeys, AddressAt;
    if ws == [] {
    } else {
      var n := |ws| - 1;
      var before := ws[..n];
      ReplayGrows(t, p, before);
      NamedKeysGrow(p, ws);
      if Replay(t, p, before).ok {
        assert forall j :: 0 <= j < n ==> before[j] == ws[j];
      }
    }
  }

  lemma {:induction false} RollbackIds(t: Table, p: Pool, ws: seq<NewWallet>)
    ensures Rollback(t, p, ws).ids == t.ids - NamedKeys(p, ws)
    decreases |ws|
  {
    if ws == [] {
      assert t.ids - NamedKeys(p, ws) == t.ids;
    } else if AddressAt(p, ws[0].place).None? {
      assert NamedKeys(p, ws) == {};
      assert t.ids - NamedKeys(p, ws) == t.ids;
    } else {
      var a := AddressAt(p, ws[0].place).value;
      RollbackIds(Remove(t, a), p, ws[1..]);
      FirstNamed(p, ws);
      assert Remove(t, a).ids - NamedKeys(p, ws[1..]) == t.ids - NamedKeys(p, ws);
    }
  }

  lemma FirstNamed(p: Pool, ws: seq<NewWallet>)
    requires ws != [] && AddressAt(p, ws[0].place).Some?
    ensures NamedKeys(p, ws) ==
      NamedKeys(p, ws[1..]) + (if NamesAKey(p, ws[0]) then {AddressAt(p, ws[0].place).value.key} else {})
  {
    var rest := ws[1..];
    forall i | 0 <= i < |rest| ensures Usable(p, rest, i) <==> Usable(p, ws, i + 1) {
      assert forall j :: 0 <= j <= i ==> rest[j] == ws[j + 1];
      assert forall j :: 1 <= j <= i + 1 ==> rest[j - 1] == ws[j];
    }
    assert Usable(p, ws, 0);
    forall k | k in NamedKeys(p, rest) ensures k in NamedKeys(p, ws) {
      var i :| 0 <= i < |rest| && Usable(p, rest, i) && Names(p, rest[i], k);
      assert Usable(p, ws, i + 1) && Names(p, ws[i + 1], k);
    }
    forall k | k in NamedKeys(p, ws) && !Names(p, ws[0], k) ensures k in NamedKeys(p, rest) {
      var i :| 0 <= i < |ws| && Usable(p, ws, i) && Names(p, ws[i], k);
      assert Usable(p, rest, i - 1) && Names(p, rest[i - 1], k);
    }
  }

  /** Replaying any list and rolling it back leaves the ids as they were exactly when the list names no address that
      was already there: rollback also takes away a wallet whose insertion had been refused. */
  lemma RollbackRestoresIdsIff(t: Table, p: Pool, ws: seq<NewWallet>)
    ensures Rollback(Replay(t, p, ws).table, p, ws).ids == t.ids <==> NamedKeys(p, ws) !! t.ids.Keys
  {
    var r := Replay(t, p, ws).table;
    ReplayGrows(t, p, ws);
    RollbackIds(r, p, ws);
    if NamedKeys(p, ws) !! t.ids.Keys {
      assert r.ids - NamedKeys(p, ws) == t.ids;
    }
  }

  /** The counter after stepping back `n` times; it does not go below zero. */
  function Lowered(next: nat, n: int): (r: nat) {
    if n < 0 then next else if next >= n then next - n else 0
  }

  lemma SizeWithout(ids: map<Key, nat>, k: Key)
    requires k in ids
    ensures |ids - {k}| == |ids| - 1
  {
    assert (ids - {k}).Keys == ids.Keys - {k};
  }

  /** Rolling back steps the counter back once for every id it takes away. */
  lemma {:induction false} RollbackNext(t: Table, p: Pool, ws: seq<NewWallet>)
    ensures var r := Rollback(t, p, ws); |r.ids| <= |t.ids| && r.next == Lowered(t.next, |t.ids| - |r.ids|)
    decreases |ws|
  {
    hide Rollback, Remove, AddressAt;
    if ws == [] || AddressAt(p, ws[0].place).None? {
      RollbackStops(t, p, ws);
    } else {
      var a := AddressAt(p, ws[0].place).value;
      RollbackNext(Remove(t, a), p, ws[1..]);
      RollbackOnce(t, p, ws);
      RemoveSteps(t, a);
    }
  }

  lemma RollbackStops(t: Table, p: Pool, ws: seq<NewWallet>)
    requires ws == [] || AddressAt(p, ws[0].place).None?
    ensures Rollback(t, p, ws) == t
  {
  }

  lemma RollbackOnce(t: Table, p: Pool, ws: seq<NewWallet>)
    requires ws != [] && AddressAt(p, ws[0].place).Some?
    ensures Rollback(t, p, ws) == Rollback(Remove(t, AddressAt(p, ws[0].place).value), p, ws[1..])
  {
  }

  lemma RemoveSteps(t: Table, a: Address)
    ensures var r := Remove(t, a); |r.ids| <= |t.ids| && r.next == Lowered(t.next, |t.ids| - |r.ids|)
  {
    if a.PublicKey? && a.key in t.ids {
      SizeWithout(t.ids, a.key);
    }
  }

  /** Entry `i` is reached and its id is taken into the table. */
  ghost predicate Enters(t: Table, p: Pool, ws: seq<NewWallet>, i: nat)
    requires i < |ws|
  {
    var r := Replay(t, p, ws[..i]);
    r.ok && NamesAKey(p, ws[i]) && CanInsert(r.table, AddressAt(p, ws[i].place).value.key, ws[i].id)
  }

  /** The ids of a list that are taken into the table. */
  ghost function Entered(t: Table, p: Pool, ws: seq<NewWallet>): (ids: set<nat>) {
    set i | 0 <= i < |ws| && Enters(t, p, ws, i) :: ws[i].id
  }

  lemma EntersBefore(t: Table, p: Pool, ws: seq<NewWallet>, n: nat, i: nat)
    requires i < n <= |ws|
    ensures Enters(t, p, ws[..n], i) <==> Enters(t, p, ws, i)
  {
    assert ws[..n][..i] == ws[..i] && ws[..n][i] == ws[i];
  }

  lemma EnteredLast(t: Table, p: Pool, ws: seq<NewWallet>)
    requires ws != []
    ensures var n := |ws| - 1;
      Entered(t, p, ws) == Entered(t, p, ws[..n]) + if Enters(t, p, ws, n) then {ws[n].id} else {}
  {
    hide Enters;
    var n := |ws| - 1;
    var before := ws[..n];
    forall i | 0 <= i < n ensures Enters(t, p, before, i) <==> Enters(t, p, ws, i) {
      EntersBefore(t, p, ws, n, i);
    }
    forall id | id in Entered(t, p, before) ensures id in Entered(t, p, ws) {
      var i :| 0 <= i < n && Enters(t, p, before, i) && before[i].id == id;
      assert Enters(t, p, ws, i) && ws[i].id == id;
    }
    forall id | id in Entered(t, p, ws) && !(Enters(t, p, ws, n) && id == ws[n].id)
      ensures id in Entered(t, p, before)
    {
      var i :| 0 <= i < |ws| && Enters(t, p, ws, i) && ws[i].id == id;
      assert Enters(t, p, before, i) && before[i].id == id;
    }
  }

  /** What the ids that entered have done to a table; those from the limit on do not move the counter. */
  ghost predicate Grown(t: Table, ids: set<nat>, r: Table) {
    |r.ids| == |t.ids| + |ids| && ids <= r.ids.Values && Moved(t.next, ids, r.next)
  }

  ghost predicate Moved(next: nat, ids: set<nat>, next': nat) {
    && next <= next' && (forall id :: id in ids && id < ID_LIMIT ==> id < next')
    && (next' == next || (next' - 1 in ids && next' - 1 < ID_LIMIT))
  }

  lemma MovesOnce(next: nat, ids: set<nat>, next': nat, id: nat)
    requires Moved(next, ids, next')
    ensures Moved(next, ids + {id}, if id < next' || id >= ID_LIMIT then next' else id + 1)
  {
  }

  lemma ReplayLast(t: Table, p: Pool, ws: seq<NewWallet>)
    requires ws != []
    ensures var n := |ws| - 1;
      var r, r' := Replay(t, p, ws[..n]).table, Replay(t, p, ws).table;
      if Enters(t, p, ws, n) then
        var k, id := AddressAt(p, ws[n].place).value.key, ws[n].id;
        && CanInsert(r, k, id) && r'.ids == r.ids[k := id]
        && r'.next == if id < r.next || id >= ID_LIMIT then r.next else id + 1
      else r' == r
  {
  }

  lemma GrowsByOne(t: Table, ids: set<nat>, r: Table, k: Key, id: nat, r': Table)
    requires Grown(t, ids, r) && CanInsert(r, k, id) && r'.ids == r.ids[k := id]
    requires r'.next == if id < r.next || id >= ID_LIMIT then r.next else id + 1
    ensures Grown(t, ids + {id}, r')
  {
    hide Moved;
    OneMoreId(r.ids, k, id);
    MovesOnce(t.next, ids, r.next, id);
    assert id !in ids;
  }

  lemma OneMoreId(ids: map<Key, nat>, k: Key, id: nat)
    requires k !in ids && forall b :: b in ids ==> ids[b] != id
    ensures |ids[k := id]| == |ids| + 1 && id !in ids.Values && ids[k := id].Values == ids.Values + {id}
  {
    var ids' := ids[k := id];
    assert ids'.Keys == ids.Keys + {k} && ids'[k] == id;
    forall v | v in ids.Values ensures v in ids'.Values {
      var b :| b in ids && ids[b] == v;
      assert ids'[b] == v;
    }
  }

  lemma {:induction false} ReplayEnters(t: Table, p: Pool, ws: seq<NewWallet>)
    ensures Grown(t, Entered(t, p, ws), Replay(t, p, ws).table)
  {
    if ws == [] {
      assert Entered(t, p, ws) == {};
    } else {
      var n := |ws| - 1;
      ReplayEnters(t, p, ws[..n]);
      EnteredLast(t, p, ws);
      ReplayLast(t, p, ws);
      if Enters(t, p, ws, n) {
        var k := AddressAt(p, ws[n].place).value.key;
        GrowsByOne(t, Entered(t, p, ws[..n]), Replay(t, p, ws[..n]).table, k, ws[n].id, Replay(t, p, ws).table);
      } else {
        assert Entered(t, p, ws) == Entered(t, p, ws[..n]);
      }
    }
  }

  /** The counter had been moved by exactly as many steps as there are new ids, or by no more than that from zero:
      the new ids lie below that point and, unless the counter stood at zero, the last id below it is one of them. */
  ghost predicate CounterMatches(next: nat, ids: set<nat>) {
    && (forall id :: id in ids && id < ID_LIMIT ==> id < next + |ids|)
    && (next == 0 || ids == {} || (next + |ids| - 1 in ids && next + |ids| - 1 < ID_LIMIT))
  }

  lemma CounterRestored(t: Table, ids: set<nat>, r: Table)
    requires Grown(t, ids, r)
    ensures Lowered(r.next, |ids|) == t.next <==> CounterMatches(t.next, ids)
  {
  }

  /** The whole table is restored if and only if the list names no address that was already there and the ids it
      brought in match the counter. */
  lemma RollbackRestoresIff(t: Table, p: Pool, ws: seq<NewWallet>)
    ensures Rollback(Replay(t, p, ws).table, p, ws) == t
      <==> NamedKeys(p, ws) !! t.ids.Keys && CounterMatches(t.next, Entered(t, p, ws))
  {
    hide NamedKeys, Rollback, Replay, Entered, CounterMatches;
    RollbackRestoresIdsIff(t, p, ws);
    RollbackNext(Replay(t, p, ws).table, p, ws);
    ReplayEnters(t, p, ws);
    CounterRestored(t, Entered(t, p, ws), Replay(t, p, ws).table);
  }

  /** The ids from `low` up to `high`. */
  ghost function Interval(low: nat, high: nat): (s: set<nat>)
    requires low <= high
    ensures |s| == high - low && forall i :: i in s <==> low <= i < high
  {
    if low == high then {} else Interval(low, high - 1) + {high - 1}
  }

  lemma {:induction false} SubsetOfSameSize(a: set<nat>, b: set<nat>)
    requires a <= b && |b| <= |a|
    ensures a == b
  {
    if x :| x in b && x !in a {
      Smaller(a, b - {x});
    }
  }

  lemma {:induction false} Smaller(a: set<nat>, b: set<nat>)
    requires a <= b
    ensures |a| <= |b|
  {
    if a == {} {
    } else {
      var x :| x in a;
      Smaller(a - {x}, b - {x});
    }
  }

  /** Ids from `next` on that stay below the limit match the counter if and only if they are the next ones in a row. */
  lemma MatchesIff(next: nat, ids: set<nat>)
    requires forall id :: id in ids ==> next <= id < ID_LIMIT
    ensures CounterMatches(next, ids) <==> ids == Interval(next, next + |ids|)
  {
    if CounterMatches(next, ids) {
      SubsetOfSameSize(ids, Interval(next, next + |ids|));
    }
  }

  /** In a table that holds exactly the ids below its counter, whatever a list brings in without running into the limit
      is undone if and only if no known address is named and the new ids are the next ones in a row. */
  lemma FullTableRestoredIff(t: Table, p: Pool, ws: seq<NewWallet>)
    requires t.ids.Values == Interval(0, t.next) && forall id :: id in Entered(t, p, ws) ==> id < ID_LIMIT
    ensures var ids := Entered(t, p, ws);
      Rollback(Replay(t, p, ws).table, p, ws) == t
      <==> NamedKeys(p, ws) !! t.ids.Keys && ids == Interval(t.next, t.next + |ids|)
  {
    hide NamedKeys, Rollback, Replay, CounterMatches;
    RollbackRestoresIff(t, p, ws);
    forall id | id in Entered(t, p, ws) ensures t.next <= id {
      EnteredIsNew(t, p, ws, id);
    }
    MatchesIff(t.next, Entered(t, p, ws));
  }

  lemma EnteredIsNew(t: Table, p: Pool, ws: seq<NewWallet>, id: nat)
    requires id in Entered(t, p, ws)
    ensures id !in t.ids.Values
  {
    var i :| 0 <= i < |ws| && Enters(t, p, ws, i) && ws[i].id == id;
    ReplayGrows(t, p, ws[..i]);
  }

  /** An id handed out of turn: the ids are restored and the counter is not. */
  lemma RollbackLosesTheCounter()
    ensures var t, p, ws := Table(map[], 0), Pool([], [7]), [NewWallet(Place(0, true), 10)];
      Rollback(Replay(t, p, ws).table, p, ws) == Table(map[], 10)
  {
    var t, p, w := Table(map[], 0), Pool([], [7]), NewWallet(Place(0, true), 10);
    assert [w][..0] == [] && [w][1..] == [];
    assert Replay(t, p, []) == Replayed(t, true);
    var r := Table(map[7 := 10], 11);
    assert Replay(t, p, [w]) == Replayed(r, true);
    assert Remove(r, PublicKey(7)) == Table(map[], 10);
    assert Rollback(Table(map[], 10), p, []) == Table(map[], 10);
  }

  /** One wallet known to the table, and a block that lists it again. */
  lemma RollbackLosesAKnownWallet()
    ensures var t, p, ws := Table(map[7 := 0], 1), Pool([], [7]), [NewWallet(Place(0, true), 1)];
      Dense(t) && Replay(t, p, ws) == Replayed(t, true) && Rollback(t, p, ws) == Table(map[], 0)
  {
    var t, p, w := Table(map[7 := 0], 1), Pool([], [7]), NewWallet(Place(0, true), 1);
    assert [w][..0] == [] && [w][1..] == [];
    assert Replay(t, p, []) == Replayed(t, true);
    assert Rollback(Remove(t, PublicKey(7)), p, []) == Remove(t, PublicKey(7));
  }

  /** A new address gets an id if and only if the counter's id is free. */
  lemma GetsAnIdIff(t: Table, a: Address)
    requires a.PublicKey? && a.key !in t.ids
    ensures Get(t, a).1.Refused? <==> t.next in t.ids.Values
  {
    if t.next in t.ids.Values {
      assert exists b :: b in t.ids && t.ids[b] == t.next;
    }
  }

  /** The last id that can be given out, and the first that throws. */
  lemma LimitIs(key: Key)
    ensures Get(Table(map[], 0x7FFF_FFFE), PublicKey(key))
      == (Table(map[key := 0x7FFF_FFFE], 0x7FFF_FFFF), Inserted(0x7FFF_FFFE))
    ensures Get(Table(map[], 0x7FFF_FFFF), PublicKey(key)).1.Overflow?
  {
  }

  /** A rollback that takes an early id away leaves the counter on an id in use, and the next new wallet gets none. */
  lemma RollbackBlocksTheCounter()
    ensures var t, p, ws := Table(map[7 := 0, 8 := 1], 2), Pool([], [7]), [NewWallet(Place(0, true), 0)];
      var r := Rollback(t, p, ws);
      Dense(t) && r == Table(map[8 := 1], 1) && !Dense(r) && Get(r, PublicKey(9)) == (r, Refused(1))
  {
    var t, p, w := Table(map[7 := 0, 8 := 1], 2), Pool([], [7]), NewWallet(Place(0, true), 0);
    assert [w][1..] == [];
    var r := Table(map[8 := 1], 1);
    assert t.ids - {7} == r.ids && Remove(t, PublicKey(7)) == r;
    assert Rollback(r, p, []) == r;
    assert r.ids[8] == 1;
  }

  // ----- the class

  class WalletsIds {
    var data: map<Key, nat>
    var nextId: nat

    /** An id belongs to one address. */
    ghost predicate Valid()
      reads this
    {
      Injective(data)
    }

    constructor ()
      ensures Valid() && Abs() == Table(map[], 0) && Dense(Abs())
    {
      data, nextId := map[], 0;
    }

    function Abs(): (t: Table)
      reads this
    {
      Table(data, nextId)
    }

    method InsertId(a: Address, id: nat) returns (o: Outcome)
      requires Valid()
      modifies this
      ensures Valid()
      ensures (Abs(), o) == Insert(old(Abs()), a, id)
    {
      if a.WalletId? || !CanInsert(Abs(), a.key, id) {
        return Refused(id);
      }
      data := data[a.key := id];
      if id >= nextId {
        if id >= ID_LIMIT {
          return Overflow;
        }
        nextId := id + 1;
      }
      o := Inserted(id);
    }

    method Find(a: Address) returns (id: Option<nat>)
      ensures a.WalletId? ==> id == Some(a.id)
      ensures a.PublicKey? ==> id == if a.key in data then Some(data[a.key]) else None
    {
      if a.WalletId? {
        id := Some(a.id);
      } else if a.key !in data {
        id := None;
      } else {
        id := Some(data[a.key]);
      }
    }

    /** The address with an id, of which there is at most one. */
    method FindAddress(id: nat) returns (a: Option<Address>)
      requires Valid()
      ensures a.None? <==> forall k :: k in data ==> data[k] != id
      ensures a.Some? ==> a.value.PublicKey? && forall k :: k in data ==> (data[k] == id <==> k == a.value.key)
      ensures a.Some? ==> a.value.key in data
    {
      if k :| k in data && data[k] == id {
        return Some(PublicKey(k));
      }
      a := None;
    }

    method GetId(a: Address) returns (o: Outcome)
      requires Valid()
      modifies this
      ensures Valid()
      ensures (Abs(), o) == Get(old(Abs()), a)
    {
      if a.WalletId? {
        return Refused(a.id);
      }
      if !CanInsert(Abs(), a.key, nextId) {
        return Refused(if a.key in data then data[a.key] else nextId);
      }
      data := data[a.key := nextId];
      if nextId >= ID_LIMIT {
        return Overflow;
      }
      o := Inserted(nextId);
      nextId := nextId + 1;
    }

    method RemoveId(a: Address) returns (ok: bool)
      requires Valid()
      modifies this
      ensures Valid()
      ensures Abs() == Remove(old(Abs()), a) && ok == a.PublicKey?
    {
      if a.WalletId? {
        return false;
      }
      if a.key in data {
        data := data - {a.key};
        if nextId > 0 {
          nextId := nextId - 1;
        }
      }
      ok := true;
    }

    /** One place of the block; the flag says that the call has thrown. */
    method AddNewWallet(p: Pool, genesis: Key, place: Place, wallets: seq<NewWallet>)
      returns (list: seq<NewWallet>, threw: bool)
      requires AddressAt(p, place).Some?
      requires Valid()
      modifies this
      ensures Valid()
      ensures Written(Abs(), list, threw) == WriteAt(Written(old(Abs()), wallets, false), p, genesis, place)
    {
      list, threw := wallets, false;
      var a := AddressAt(p, place).value;
      if a.WalletId? || a.key == genesis {
        return;
      }
      var o := GetId(a);
      match o {
        case Inserted(id) => list := list + [NewWallet(place, id)];
        case Refused(_) =>
        case Overflow => threw := true;
      }
    }

    method AddTransactionWallets(p: Pool, genesis: Key) returns (list: seq<NewWallet>, threw: bool)
      requires Valid()
      modifies this
      ensures Valid()
      ensures Written(Abs(), list, threw) == WriteTransactions(old(Abs()), p, genesis, |p.transactions|)
    {
      list, threw := [], false;
      var i := 0;
      while i < |p.transactions|
        invariant 0 <= i <= |p.transactions| && !threw && Valid()
        invariant Written(Abs(), list, threw) == WriteTransactions(old(Abs()), p, genesis, i)
      {
        list, threw := AddNewWallet(p, genesis, Place(i, false), list);
        if !threw {
          list, threw := AddNewWallet(p, genesis, Place(i, true), list);
        }
        i := i + 1;
        if threw {
          StaysThrown(old(Abs()), p, genesis, i);
          return;
        }
      }
    }

    /** Gives ids to the new addresses of a block and lists them. A follower with the same table reaches the same
        table from the list, and taking the list back restores the table. */
    method AddNewWalletsToPool(p: Pool, genesis: Key) returns (list: seq<NewWallet>, threw: bool)
      requires Valid()
      modifies this
      ensures Valid()
      ensures Written(Abs(), list, threw) == Write(old(Abs()), p, genesis)
      ensures !threw ==>
        Replay(old(Abs()), p, list) == Replayed(Abs(), true) && Rollback(Abs(), p, list) == old(Abs())
      ensures old(Dense(Abs())) ==> NumberedOrThrown(old(Abs()), genesis, Appearances(p), Written(Abs(), list, threw))
    {
      hide WriteAt, WriteTransactions, Replay, Rollback, Dense, AddressAt, Injective, NumberedOrThrown;
      list, threw := AddTransactionWallets(p, genesis);
      if threw {
        StaysThrownLater(old(Abs()), p, genesis, 0);
        WrittenOrThrown(old(Abs()), p, genesis);
        return;
      }
      var k := 0;
      while k < |p.confidants|
        invariant 0 <= k <= |p.confidants| && !threw && Valid()
        invariant Written(Abs(), list, threw) == WriteConfidants(old(Abs()), p, genesis, k)
      {
        ConfidantAt(p, k);
        list, threw := AddNewWallet(p, genesis, Place(|p.transactions| + k, true), list);
        k := k + 1;
        if threw {
          StaysThrownLater(old(Abs()), p, genesis, k);
          WrittenOrThrown(old(Abs()), p, genesis);
          return;
        }
      }
      FollowerAgreesAndRollbackRestores(old(Abs()), p, genesis);
      WrittenOrThrown(old(Abs()), p, genesis);
    }

    method UpdateWalletIds(p: Pool, ws: seq<NewWallet>) returns (ok: bool)
      requires Valid()
      modifies this
      ensures Valid()
      ensures Replayed(Abs(), ok) == Replay(old(Abs()), p, ws)
    {
      ok := true;
      var i := 0;
      while i < |ws|
        invariant 0 <= i <= |ws| && ok && Valid()
        invariant Replayed(Abs(), ok) == Replay(old(Abs()), p, ws[..i])
      {
        assert ws[..i + 1][..i] == ws[..i];
        match AddressAt(p, ws[i].place) {
          case None =>
            ok := false;
          case Some(a) =>
            var o := InsertId(a, ws[i].id);
            ok := !o.Overflow?;
        }
        i := i + 1;
        if !ok {
          StaysFailed(old(Abs()), p, ws, i);
          return;
        }
      }
      assert ws[..i] == ws;
    }

    method RemoveWalletsInPool(p: Pool, ws: seq<NewWallet>)
      requires Valid()
      modifies this
      ensures Valid()
      ensures Abs() == Rollback(old(Abs()), p, ws)
    {
      var i := 0;
      while i < |ws|
        invariant 0 <= i <= |ws| && Valid()
        invariant Rollback(Abs(), p, ws[i..]) == Rollback(old(Abs()), p, ws)
      {
        match AddressAt(p, ws[i].place) {
          case None =>
            return;
          case Some(a) =>
            var _ := RemoveId(a);
        }
        i := i + 1;
      }
    }
  }

  lemma {:induction false} StaysThrown(t: Table, p: Pool, genesis: Key, i: nat)
    requires i <= |p.transactions| && WriteTransactions(t, p, genesis, i).threw
    ensures WriteTransactions(t, p, genesis, i) == WriteTransactions(t, p, genesis, |p.transactions|)
    decreases |p.transactions| - i
  {
    if i >= |p.transactions| {
    } else {
      StaysThrown(t, p, genesis, i + 1);
    }
  }

  lemma {:induction false} StaysThrownLater(t: Table, p: Pool, genesis: Key, k: nat)
    requires k <= |p.confidants| && WriteConfidants(t, p, genesis, k).threw
    ensures WriteConfidants(t, p, genesis, k) == Write(t, p, genesis)
    decreases |p.confidants| - k
  {
    if k >= |p.confidants| {
    } else {
      StaysThrownLater(t, p, genesis, k + 1);
    }
  }

  lemma {:induction false} StaysFailed(t: Table, p: Pool, ws: seq<NewWallet>, i: nat)
    requires i <= |ws| && !Replay(t, p, ws[..i]).ok
    ensures Replay(t, p, ws[..i]) == Replay(t, p, ws)
    decreases |ws| - i
  {
    if i < |ws| {
      assert ws[..i + 1][..i] == ws[..i];
      StaysFailed(t, p, ws, i + 1);
    } else {
      assert ws[..i] == ws;
    }
  }
}
