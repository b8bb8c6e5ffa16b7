/** The binary form of a pool: the part its hash covers, the length of that part, and the signatures. */
module PoolCodec {
  import opened Bytes
  import opened Options
  import opened Streams
  import opened TransactionCodec

  const HASH_SIZE := 32

  datatype NewWallet = NewWallet(index: nat, isTarget: bool, walletId: U32)
  datatype SmartSignature = SmartSignature(key: Key, pool: U64, signatures: seq<(Byte, Signature)>)

  datatype Meta = Meta(version: Byte, previous: seq<Byte>, sequence: U64, fields: Fields, roundCost: Amount)
  datatype Trust = Trust(numberTrusted: Byte, realTrusted: U64, confidants: seq<Key>,
    numberConfirmations: Byte, confirmationMask: U64, confirmations: seq<Signature>)
  datatype Pool = Pool(meta: Meta, transactions: seq<Transaction>, newWallets: seq<NewWallet>, trust: Trust,
    hashingLength: U64, signatures: seq<Signature>, smartSignatures: seq<SmartSignature>)

  // ----- hashes

  function PutHash(h: seq<Byte>): (s: seq<Byte>) {
    [|h| % 256] + h
  }

  function GetHash(s: seq<Byte>): (r: Parsed<seq<Byte>>) {
    var (n, s1) :- Get8(s);
    if n == 0 then Ok([], s1)
    else if n != HASH_SIZE || |s1| < HASH_SIZE then Fail
    else GetRaw(s1, HASH_SIZE)
  }

  predicate HashFits(h: seq<Byte>) {
    |h| == 0 || |h| == HASH_SIZE
  }

  lemma HashRoundTrip(h: seq<Byte>, rest: seq<Byte>)
    requires HashFits(h)
    ensures GetHash(PutHash(h) + rest) == Ok(h, rest)
  {
    Regroup([|h|], h, rest);
    RoundTrip8(|h|, h + rest);
    RawRoundTrip(h, rest);
  }

  /** What is read as a hash: nothing behind a zero, or the 32 bytes behind a 32. */
  lemma HashReads(s: seq<Byte>)
    ensures GetHash(s) == if s != [] && s[0] == 0 then Ok([], s[1..])
      else if |s| >= 33 && s[0] == 32 then Ok(s[1..33], s[33..]) else Fail
  {
    if |s| >= 33 {
      assert s[1..][..32] == s[1..33] && s[1..][32..] == s[33..];
    }
  }

  lemma HashStable(s: seq<Byte>, more: seq<Byte>)
    requires GetHash(s).Ok?
    ensures GetHash(s + more) == GetHash(s).Extended(more) && HashFits(GetHash(s).value)
  {
    Stable8(s, more);
    if Get8(s).value != 0 {
      RawStable(Get8(s).rest, HASH_SIZE, more);
    }
  }

  // ----- new wallets: a 63-bit index and one bit for the side of the transaction

  function AddressWord(w: NewWallet): (v: U64)
    ensures v >= TWO_63 <==> w.isTarget
    ensures w.index < TWO_63 ==> v % TWO_63 == w.index
  {
    w.index % TWO_63 + (if w.isTarget then TWO_63 else 0)
  }

  function PutNewWallet(w: NewWallet): (s: seq<Byte>) {
    LE(AddressWord(w), 8) + LE(w.walletId, 4)
  }

  function GetNewWallet(s: seq<Byte>): (r: Parsed<NewWallet>) {
    var (v, s1) :- Get64(s);
    var (id, s2) :- Get32(s1);
    Ok(NewWallet(v % TWO_63, v >= TWO_63, id), s2)
  }

  predicate NewWalletFits(w: NewWallet) {
    w.index < TWO_63
  }

  lemma NewWalletRoundTrip(w: NewWallet, rest: seq<Byte>)
    requires NewWalletFits(w)
    ensures GetNewWallet(PutNewWallet(w) + rest) == Ok(w, rest)
  {
    hide AddressWord, LE;
    var v := AddressWord(w);
    Regroup(LE(v, 8), LE(w.walletId, 4), rest);
    RoundTrip64(v, LE(w.walletId, 4) + rest);
    RoundTrip32(w.walletId, rest);
  }

  lemma NewWalletStable(s: seq<Byte>, more: seq<Byte>)
    requires GetNewWallet(s).Ok?
    ensures GetNewWallet(s + more) == GetNewWallet(s).Extended(more) && NewWalletFits(GetNewWallet(s).value)
  {
    Stable64(s, more);
    Stable32(Get64(s).rest, more);
  }

  // ----- signatures of smart contract rounds

  function PutSigned(e: (Byte, Signature)): (s: seq<Byte>) {
    [e.0] + e.1
  }

  function GetSigned(s: seq<Byte>): (r: Parsed<(Byte, Signature)>) {
    var (b, s1) :- Get8(s);
    var (sig, s2) :- GetSignature(s1);
    Ok((b, sig), s2)
  }

  lemma SignedRoundTrip(e: (Byte, Signature), rest: seq<Byte>)
    ensures GetSigned(PutSigned(e) + rest) == Ok(e, rest)
  {
    Regroup([e.0], e.1, rest);
    RoundTrip8(e.0, e.1 + rest);
    RawRoundTrip(e.1, rest);
  }

  lemma SignedStable(s: seq<Byte>, more: seq<Byte>)
    requires GetSigned(s).Ok?
    ensures GetSigned(s + more) == GetSigned(s).Extended(more)
  {
    Stable8(s, more);
    RawStable(Get8(s).rest, SIGNATURE_SIZE, more);
  }

  // ----- lists, with and without a count in front

  function PutKey(k: Key): (s: seq<Byte>) { k }

  function PutSignature(g: Signature): (s: seq<Byte>) { g }

  function PutSignedList(es: seq<(Byte, Signature)>): (s: seq<Byte>) {
    [|es| % 256] + PutMany(PutSigned, es)
  }

  function GetSignedList(s: seq<Byte>): (r: Parsed<seq<(Byte, Signature)>>) {
    var (n, s1) :- Get8(s);
    GetMany(GetSigned, n, s1)
  }

  lemma EachSignedRoundTrip(es: seq<(Byte, Signature)>, rest: seq<Byte>)
    ensures GetMany(GetSigned, |es|, PutMany(PutSigned, es) + rest) == Ok(es, rest)
  {
    forall e, r | e in es ensures GetSigned(PutSigned(e) + r) == Ok(e, r) {
      SignedRoundTrip(e, r);
    }
    ManyRoundTrip(PutSigned, GetSigned, es, rest);
  }

  lemma SignedListRoundTrip(es: seq<(Byte, Signature)>, rest: seq<Byte>)
    requires |es| < 256
    ensures GetSignedList(PutSignedList(es) + rest) == Ok(es, rest)
  {
    hide PutMany, GetMany;
    Regroup([|es|], PutMany(PutSigned, es), rest);
    RoundTrip8(|es|, PutMany(PutSigned, es) + rest);
    EachSignedRoundTrip(es, rest);
  }

  lemma SignedListStable(s: seq<Byte>, more: seq<Byte>)
    requires GetSignedList(s).Ok?
    ensures GetSignedList(s + more) == GetSignedList(s).Extended(more) && |GetSignedList(s).value| < 256
  {
    Stable8(s, more);
    forall r, e | GetSigned(r).Ok? ensures GetSigned(r + e) == GetSigned(r).Extended(e) {
      SignedStable(r, e);
    }
    ManyStable(GetSigned, x => true, Get8(s).value, Get8(s).rest, more);
  }

  function PutSmart(g: SmartSignature): (s: seq<Byte>) {
    g.key + (LE(g.pool, 8) + PutSignedList(g.signatures))
  }

  function GetSmart(s: seq<Byte>): (r: Parsed<SmartSignature>) {
    var (key, s1) :- GetKey(s);
    var (pool, s2) :- Get64(s1);
    var (signatures, s3) :- GetSignedList(s2);
    Ok(SmartSignature(key, pool, signatures), s3)
  }

  predicate SmartFits(g: SmartSignature) {
    |g.signatures| < 256
  }

  lemma SmartRoundTrip(g: SmartSignature, rest: seq<Byte>)
    requires SmartFits(g)
    ensures GetSmart(PutSmart(g) + rest) == Ok(g, rest)
  {
    var list := PutSignedList(g.signatures);
    Regroup(g.key, LE(g.pool, 8) + list, rest);
    Regroup(LE(g.pool, 8), list, rest);
    RawRoundTrip(g.key, LE(g.pool, 8) + (list + rest));
    RoundTrip64(g.pool, list + rest);
    SignedListRoundTrip(g.signatures, rest);
  }

  lemma SmartStable(s: seq<Byte>, more: seq<Byte>)
    requires GetSmart(s).Ok?
    ensures GetSmart(s + more) == GetSmart(s).Extended(more) && SmartFits(GetSmart(s).value)
  {
    var s1 := GetKey(s).rest;
    RawStable(s, KEY_SIZE, more);
    Stable64(s1, more);
    SignedListStable(Get64(s1).rest, more);
  }

  function PutSmarts(gs: seq<SmartSignature>): (s: seq<Byte>) {
    [|gs| % 256] + PutMany(PutSmart, gs)
  }

  function GetSmarts(s: seq<Byte>): (r: Parsed<seq<SmartSignature>>) {
    var (n, s1) :- Get8(s);
    GetMany(GetSmart, n, s1)
  }

  ghost predicate SmartsFit(gs: seq<SmartSignature>) {
    |gs| < 256 && forall g :: g in gs ==> SmartFits(g)
  }

  lemma EachSmartRoundTrip(gs: seq<SmartSignature>, rest: seq<Byte>)
    requires forall g :: g in gs ==> SmartFits(g)
    ensures GetMany(GetSmart, |gs|, PutMany(PutSmart, gs) + rest) == Ok(gs, rest)
  {
    forall g, r | g in gs ensures GetSmart(PutSmart(g) + r) == Ok(g, r) {
      SmartRoundTrip(g, r);
    }
    ManyRoundTrip(PutSmart, GetSmart, gs, rest);
  }

  lemma SmartsRoundTrip(gs: seq<SmartSignature>, rest: seq<Byte>)
    requires SmartsFit(gs)
    ensures GetSmarts(PutSmarts(gs) + rest) == Ok(gs, rest)
  {
    hide PutMany, GetMany;
    Regroup([|gs|], PutMany(PutSmart, gs), rest);
    RoundTrip8(|gs|, PutMany(PutSmart, gs) + rest);
    EachSmartRoundTrip(gs, rest);
  }

  lemma SmartsStable(s: seq<Byte>, more: seq<Byte>)
    requires GetSmarts(s).Ok?
    ensures GetSmarts(s + more) == GetSmarts(s).Extended(more) && SmartsFit(GetSmarts(s).value)
  {
    Stable8(s, more);
    forall r, e | GetSmart(r).Ok? ensures GetSmart(r + e) == GetSmart(r).Extended(e) && SmartFits(GetSmart(r).value) {
      SmartStable(r, e);
    }
    ManyStable(GetSmart, SmartFits, Get8(s).value, Get8(s).rest, more);
  }

  function PutTransactions(ts: seq<Transaction>): (s: seq<Byte>) {
    LE(|ts|, 4) + PutMany(PutTransaction, ts)
  }

  function GetTransactions(s: seq<Byte>): (r: Parsed<seq<Transaction>>) {
    var (n, s1) :- Get32(s);
    GetMany(GetTransaction, n, s1)
  }

  ghost predicate TransactionsFit(ts: seq<Transaction>) {
    |ts| < TWO_32 && forall t :: t in ts ==> TransactionFits(t)
  }

  lemma EachTransactionRoundTrip(ts: seq<Transaction>, rest: seq<Byte>)
    requires forall t :: t in ts ==> TransactionFits(t)
    ensures GetMany(GetTransaction, |ts|, PutMany(PutTransaction, ts) + rest) == Ok(ts, rest)
  {
    forall t, r | t in ts ensures GetTransaction(PutTransaction(t) + r) == Ok(t, r) {
      TransactionRoundTrip(t, r);
    }
    ManyRoundTrip(PutTransaction, GetTransaction, ts, rest);
  }

  lemma TransactionsRoundTrip(ts: seq<Transaction>, rest: seq<Byte>)
    requires TransactionsFit(ts)
    ensures GetTransactions(PutTransactions(ts) + rest) == Ok(ts, rest)
  {
    hide PutMany, GetMany;
    Regroup(LE(|ts|, 4), PutMany(PutTransaction, ts), rest);
    RoundTrip32(|ts|, PutMany(PutTransaction, ts) + rest);
    EachTransactionRoundTrip(ts, rest);
  }

  lemma TransactionsStable(s: seq<Byte>, more: seq<Byte>)
    requires GetTransactions(s).Ok?
    ensures GetTransactions(s + more) == GetTransactions(s).Extended(more)
    ensures TransactionsFit(GetTransactions(s).value)
  {
    Stable32(s, more);
    forall r, e | GetTransaction(r).Ok?
      ensures GetTransaction(r + e) == GetTransaction(r).Extended(e) && TransactionFits(GetTransaction(r).value)
    {
      TransactionStable(r, e);
    }
    ManyStable(GetTransaction, t => TransactionFits(t), Get32(s).value, Get32(s).rest, more);
  }

  function PutNewWallets(ws: seq<NewWallet>): (s: seq<Byte>) {
    LE(|ws|, 4) + PutMany(PutNewWallet, ws)
  }

  function GetNewWallets(s: seq<Byte>): (r: Parsed<seq<NewWallet>>) {
    var (n, s1) :- Get32(s);
    GetMany(GetNewWallet, n, s1)
  }

  ghost predicate NewWalletsFit(ws: seq<NewWallet>) {
    |ws| < TWO_32 && forall w :: w in ws ==> NewWalletFits(w)
  }

  lemma EachNewWalletRoundTrip(ws: seq<NewWallet>, rest: seq<Byte>)
    requires forall w :: w in ws ==> NewWalletFits(w)
    ensures GetMany(GetNewWallet, |ws|, PutMany(PutNewWallet, ws) + rest) == Ok(ws, rest)
  {
    forall w, r | w in ws ensures GetNewWallet(PutNewWallet(w) + r) == Ok(w, r) {
      NewWalletRoundTrip(w, r);
    }
    ManyRoundTrip(PutNewWallet, GetNewWallet, ws, rest);
  }

  lemma NewWalletsRoundTrip(ws: seq<NewWallet>, rest: seq<Byte>)
    requires NewWalletsFit(ws)
    ensures GetNewWallets(PutNewWallets(ws) + rest) == Ok(ws, rest)
  {
    hide PutMany, GetMany;
    Regroup(LE(|ws|, 4), PutMany(PutNewWallet, ws), rest);
    RoundTrip32(|ws|, PutMany(PutNewWallet, ws) + rest);
    EachNewWalletRoundTrip(ws, rest);
  }

  lemma NewWalletsStable(s: seq<Byte>, more: seq<Byte>)
    requires GetNewWallets(s).Ok?
    ensures GetNewWallets(s + more) == GetNewWallets(s).Extended(more) && NewWalletsFit(GetNewWallets(s).value)
  {
    Stable32(s, more);
    forall r, e | GetNewWallet(r).Ok?
      ensures GetNewWallet(r + e) == GetNewWallet(r).Extended(e) && NewWalletFits(GetNewWallet(r).value)
    {
      NewWalletStable(r, e);
    }
    ManyStable(GetNewWallet, NewWalletFits, Get32(s).value, Get32(s).rest, more);
  }

  lemma KeysRoundTrip(ks: seq<Key>, rest: seq<Byte>)
    ensures GetMany(GetKey, |ks|, PutMany(PutKey, ks) + rest) == Ok(ks, rest)
  {
    forall k, r | k in ks ensures GetKey(PutKey(k) + r) == Ok(k, r) {
      RawRoundTrip(k, r);
    }
    ManyRoundTrip(PutKey, GetKey, ks, rest);
  }

  lemma KeysStable(n: nat, s: seq<Byte>, more: seq<Byte>)
    requires GetMany(GetKey, n, s).Ok?
    ensures GetMany(GetKey, n, s + more) == GetMany(GetKey, n, s).Extended(more) && |GetMany(GetKey, n, s).value| == n
  {
    forall r, e | GetKey(r).Ok? ensures GetKey(r + e) == GetKey(r).Extended(e) {
      RawStable(r, KEY_SIZE, e);
    }
    ManyStable(GetKey, x => true, n, s, more);
  }

  lemma SignaturesRoundTrip(gs: seq<Signature>, rest: seq<Byte>)
    ensures GetMany(GetSignature, |gs|, PutMany(PutSignature, gs) + rest) == Ok(gs, rest)
  {
    forall g, r | g in gs ensures GetSignature(PutSignature(g) + r) == Ok(g, r) {
      RawRoundTrip(g, r);
    }
    ManyRoundTrip(PutSignature, GetSignature, gs, rest);
  }

  lemma SignaturesStable(n: nat, s: seq<Byte>, more: seq<Byte>)
    requires GetMany(GetSignature, n, s).Ok?
    ensures GetMany(GetSignature, n, s + more) == GetMany(GetSignature, n, s).Extended(more)
    ensures |GetMany(GetSignature, n, s).value| == n
  {
    forall r, e | GetSignature(r).Ok? ensures GetSignature(r + e) == GetSignature(r).Extended(e) {
      RawStable(r, SIGNATURE_SIZE, e);
    }
    ManyStable(GetSignature, x => true, n, s, more);
  }

  // ----- the parts of a pool

  function PutMeta(m: Meta): (s: seq<Byte>) {
    [m.version] + (PutHash(m.previous) + (LE(m.sequence, 8) + (PutFields(m.fields) + PutAmount(m.roundCost))))
  }

  function GetMeta(s: seq<Byte>): (r: Parsed<Meta>) {
    var (version, s1) :- Get8(s);
    var (previous, s2) :- GetHash(s1);
    var (sequence, s3) :- Get64(s2);
    var (fields, s4) :- GetFields(s3);
    var (cost, s5) :- GetAmount(s4);
    Ok(Meta(version, previous, sequence, fields, cost), s5)
  }

  ghost predicate MetaFits(m: Meta) {
    HashFits(m.previous) && FieldsFit(m.fields)
  }

  lemma MetaRoundTrip(m: Meta, rest: seq<Byte>)
    requires MetaFits(m)
    ensures GetMeta(PutMeta(m) + rest) == Ok(m, rest)
  {
    var h, q, f, a := PutHash(m.previous), LE(m.sequence, 8), PutFields(m.fields), PutAmount(m.roundCost);
    Regroup([m.version], h + (q + (f + a)), rest);
    Regroup(h, q + (f + a), rest);
    Regroup(q, f + a, rest);
    Regroup(f, a, rest);
    RoundTrip8(m.version, h + (q + (f + (a + rest))));
    HashRoundTrip(m.previous, q + (f + (a + rest)));
    RoundTrip64(m.sequence, f + (a + rest));
    FieldsRoundTrip(m.fields, a + rest);
    AmountRoundTrip(m.roundCost, rest);
  }

  lemma MetaStable(s: seq<Byte>, more: seq<Byte>)
    requires GetMeta(s).Ok?
    ensures GetMeta(s + more) == GetMeta(s).Extended(more) && MetaFits(GetMeta(s).value)
  {
    var s1 := Get8(s).rest;
    var s2 := GetHash(s1).rest;
    var s3 := Get64(s2).rest;
    Stable8(s, more);
    HashStable(s1, more);
    Stable64(s2, more);
    FieldsStable(s3, more);
    AmountStable(GetFields(s3).rest, more);
  }

  function PutConfidants(t: Trust): (s: seq<Byte>) {
    [t.numberTrusted] + (LE(t.realTrusted, 8) + PutMany(PutKey, t.confidants))
  }

  function PutConfirmations(t: Trust): (s: seq<Byte>) {
    [t.numberConfirmations] + (LE(t.confirmationMask, 8) + PutMany(PutSignature, t.confirmations))
  }

  function PutTrust(t: Trust): (s: seq<Byte>) {
    PutConfidants(t) + PutConfirmations(t)
  }

  function GetConfidants(s: seq<Byte>): (r: Parsed<(Byte, U64, seq<Key>)>) {
    var (n, s1) :- Get8(s);
    var (mask, s2) :- Get64(s1);
    var (keys, s3) :- GetMany(GetKey, n, s2);
    Ok((n, mask, keys), s3)
  }

  function GetConfirmations(s: seq<Byte>): (r: Parsed<(Byte, U64, seq<Signature>)>) {
    var (n, s1) :- Get8(s);
    var (mask, s2) :- Get64(s1);
    var (sigs, s3) :- GetMany(GetSignature, Popcount(mask), s2);
    Ok((n, mask, sigs), s3)
  }

  function GetTrust(s: seq<Byte>): (r: Parsed<Trust>) {
    var (a, s1) :- GetConfidants(s);
    var (b, s2) :- GetConfirmations(s1);
    Ok(Trust(a.0, a.1, a.2, b.0, b.1, b.2), s2)
  }

  predicate TrustFits(t: Trust) {
    |t.confidants| == t.numberTrusted && |t.confirmations| == Popcount(t.confirmationMask)
  }

  lemma ConfidantsRoundTrip(t: Trust, rest: seq<Byte>)
    requires TrustFits(t)
    ensures GetConfidants(PutConfidants(t) + rest) == Ok((t.numberTrusted, t.realTrusted, t.confidants), rest)
  {
    var m, k := LE(t.realTrusted, 8), PutMany(PutKey, t.confidants);
    Regroup([t.numberTrusted], m + k, rest);
    Regroup(m, k, rest);
    RoundTrip8(t.numberTrusted, m + (k + rest));
    RoundTrip64(t.realTrusted, k + rest);
    KeysRoundTrip(t.confidants, rest);
  }

  lemma ConfirmationsRoundTrip(t: Trust, rest: seq<Byte>)
    requires TrustFits(t)
    ensures GetConfirmations(PutConfirmations(t) + rest)
         == Ok((t.numberConfirmations, t.confirmationMask, t.confirmations), rest)
  {
    var m, k := LE(t.confirmationMask, 8), PutMany(PutSignature, t.confirmations);
    Regroup([t.numberConfirmations], m + k, rest);
    Regroup(m, k, rest);
    RoundTrip8(t.numberConfirmations, m + (k + rest));
    RoundTrip64(t.confirmationMask, k + rest);
    SignaturesRoundTrip(t.confirmations, rest);
  }

  lemma TrustRoundTrip(t: Trust, rest: seq<Byte>)
    requires TrustFits(t)
    ensures GetTrust(PutTrust(t) + rest) == Ok(t, rest)
  {
    Regroup(PutConfidants(t), PutConfirmations(t), rest);
    ConfidantsRoundTrip(t, PutConfirmations(t) + rest);
    ConfirmationsRoundTrip(t, rest);
  }

  lemma TrustStable(s: seq<Byte>, more: seq<Byte>)
    requires GetTrust(s).Ok?
    ensures GetTrust(s + more) == GetTrust(s).Extended(more) && TrustFits(GetTrust(s).value)
  {
    var s1 := Get8(s).rest;
    Stable8(s, more);
    Stable64(s1, more);
    KeysStable(Get8(s).value, Get64(s1).rest, more);
    var t := GetConfidants(s).rest;
    var t1 := Get8(t).rest;
    Stable8(t, more);
    Stable64(t1, more);
    SignaturesStable(Popcount(Get64(t1).value), Get64(t1).rest, more);
  }

  /** What is written before the length: the part that is hashed. */
  function PutHashed(p: Pool): (s: seq<Byte>) {
    PutMeta(p.meta) + (PutTransactions(p.transactions) + (PutNewWallets(p.newWallets) + PutTrust(p.trust)))
  }

  /** What is written after the length. */
  function PutSignatures(p: Pool): (s: seq<Byte>) {
    PutMany(PutSignature, p.signatures) + PutSmarts(p.smartSignatures)
  }

  function PutPool(p: Pool): (s: seq<Byte>) {
    PutHashed(p) + (LE(|PutHashed(p)|, 8) + PutSignatures(p))
  }

  datatype Hashed = Hashed(meta: Meta, transactions: seq<Transaction>, newWallets: seq<NewWallet>, trust: Trust)

  function HashedPart(p: Pool): (h: Hashed) {
    Hashed(p.meta, p.transactions, p.newWallets, p.trust)
  }

  function GetHashed(s: seq<Byte>): (r: Parsed<Hashed>) {
    var (meta, s1) :- GetMeta(s);
    var (transactions, s2) :- GetTransactions(s1);
    var (newWallets, s3) :- GetNewWallets(s2);
    var (trust, s4) :- GetTrust(s3);
    Ok(Hashed(meta, transactions, newWallets, trust), s4)
  }

  function GetPool(s: seq<Byte>): (r: Parsed<Pool>) {
    var (h, s1) :- GetHashed(s);
    var (length, s2) :- Get64(s1);
    var (signatures, s3) :- GetMany(GetSignature, Popcount(h.trust.realTrusted), s2);
    var (smarts, s4) :- GetSmarts(s3);
    Ok(Pool(h.meta, h.transactions, h.newWallets, h.trust, length, signatures, smarts), s4)
  }

  ghost predicate HashedFits(h: Hashed) {
    MetaFits(h.meta) && TransactionsFit(h.transactions) && NewWalletsFit(h.newWallets) && TrustFits(h.trust)
  }

  /** What the writer relies on: counters agree with the lists they count and every list fits its counter. */
  ghost predicate PoolFits(p: Pool) {
    HashedFits(HashedPart(p)) && |p.signatures| == Popcount(p.trust.realTrusted) && SmartsFit(p.smartSignatures)
  }

  lemma HashedRoundTrip(p: Pool, rest: seq<Byte>)
    requires HashedFits(HashedPart(p))
    ensures GetHashed(PutHashed(p) + rest) == Ok(HashedPart(p), rest)
  {
    var t, w, c := PutTransactions(p.transactions), PutNewWallets(p.newWallets), PutTrust(p.trust);
    Regroup(PutMeta(p.meta), t + (w + c), rest);
    Regroup(t, w + c, rest);
    Regroup(w, c, rest);
    MetaRoundTrip(p.meta, t + (w + (c + rest)));
    TransactionsRoundTrip(p.transactions, w + (c + rest));
    NewWalletsRoundTrip(p.newWallets, c + rest);
    TrustRoundTrip(p.trust, rest);
  }

  lemma HashedStable(s: seq<Byte>, more: seq<Byte>)
    requires GetHashed(s).Ok?
    ensures GetHashed(s + more) == GetHashed(s).Extended(more) && HashedFits(GetHashed(s).value)
  {
    var s1 := GetMeta(s).rest;
    var s2 := GetTransactions(s1).rest;
    MetaStable(s, more);
    TransactionsStable(s1, more);
    NewWalletsStable(s2, more);
    TrustStable(GetNewWallets(s2).rest, more);
  }

  /** The pool as it is after writing: the length of the hashed part is filled in. */
  function Composed(p: Pool): (c: Pool)
    requires |PutHashed(p)| < TWO_64
  {
    p.(hashingLength := |PutHashed(p)|)
  }

  /** A pool with any length written behind its hashed part. */
  function WithLength(p: Pool, length: U64): (s: seq<Byte>) {
    PutHashed(p) + (LE(length, 8) + PutSignatures(p))
  }

  /** The reader takes the length as it comes. */
  lemma LengthIsNotChecked(p: Pool, length: U64, rest: seq<Byte>)
    requires PoolFits(p)
    ensures GetPool(WithLength(p, length) + rest) == Ok(p.(hashingLength := length), rest)
  {
    var n, g, m := LE(length, 8), PutMany(PutSignature, p.signatures), PutSmarts(p.smartSignatures);
    Regroup(PutHashed(p), n + (g + m), rest);
    Regroup(n, g + m, rest);
    Regroup(g, m, rest);
    HashedRoundTrip(p, n + (g + (m + rest)));
    RoundTrip64(length, g + (m + rest));
    SignaturesRoundTrip(p.signatures, m + rest);
    SmartsRoundTrip(p.smartSignatures, rest);
  }

  lemma PoolRoundTrip(p: Pool, rest: seq<Byte>)
    requires PoolFits(p) && |PutHashed(p)| < TWO_64
    ensures GetPool(PutPool(p) + rest) == Ok(Composed(p), rest)
  {
    LengthIsNotChecked(p, |PutHashed(p)|, rest);
  }

  lemma PoolStable(s: seq<Byte>, more: seq<Byte>)
    requires GetPool(s).Ok?
    ensures GetPool(s + more) == GetPool(s).Extended(more) && PoolFits(GetPool(s).value)
  {
    var h, s1 := GetHashed(s).value, GetHashed(s).rest;
    var s2 := Get64(s1).rest;
    HashedStable(s, more);
    Stable64(s1, more);
    SignaturesStable(Popcount(h.trust.realTrusted), s2, more);
    SmartsStable(GetMany(GetSignature, Popcount(h.trust.realTrusted), s2).rest, more);
  }

  // ----- what the format promises

  /** Where a pool begins: the version, the length of the previous hash and the hash, and eight bytes of sequence,
      lowest first. */
  lemma PoolLayout(p: Pool)
    requires HashFits(p.meta.previous)
    ensures var s, h := PutPool(p), p.meta.previous;
      && |s| >= 10 + |h| && s[0] == p.meta.version && s[1] == |h| && s[2..2 + |h|] == h
      && s[2 + |h|..10 + |h|] == LE(p.meta.sequence, 8)
  {
    hide PutTransactions, PutNewWallets, PutTrust, PutFields, PutAmount, PutSignatures, LE;
    var s, m, h := PutPool(p), PutMeta(p.meta), p.meta.previous;
    assert |m| >= 10 + |h| && m[0] == p.meta.version && m[1] == |h| && m[2..2 + |h|] == h
      && m[2 + |h|..10 + |h|] == LE(p.meta.sequence, 8);
    assert s[..|m|] == m;
    assert s[2..2 + |h|] == m[2..2 + |h|] && s[2 + |h|..10 + |h|] == m[2 + |h|..10 + |h|];
  }

  /** A pool comes back from its own bytes exactly when every counter agrees with its list and fits. */
  lemma RoundTripsExactlyWhenItFits(p: Pool)
    requires |PutHashed(p)| < TWO_64
    ensures GetPool(PutPool(p)) == Ok(Composed(p), []) <==> PoolFits(p)
  {
    assert PutPool(p) + [] == PutPool(p);
    if PoolFits(p) {
      PoolRoundTrip(p, []);
    }
    if GetPool(PutPool(p)) == Ok(Composed(p), []) {
      PoolStable(PutPool(p), []);
    }
  }

  /** A pool cut short is rejected. */
  lemma PrefixIsRejected(p: Pool, k: nat)
    requires PoolFits(p) && |PutHashed(p)| < TWO_64 && k < |PutPool(p)|
    ensures GetPool(PutPool(p)[..k]) == Fail
  {
    hide GetPool, PutPool, PoolFits, PutHashed, Composed, Popcount;
    var s := PutPool(p);
    assert s[..k] + s[k..] == s == s + [];
    PoolRoundTrip(p, []);
    if GetPool(s[..k]).Ok? {
      PoolStable(s[..k], s[k..]);
    }
  }

  /** The bytes that are hashed are the part before the length, and they fix every field written there. */
  lemma HashedBytes(p: Pool, q: Pool)
    requires PoolFits(p) && PoolFits(q) && |PutHashed(p)| < TWO_64
    ensures PutPool(p)[..Composed(p).hashingLength] == PutHashed(p)
    ensures PutHashed(p) == PutHashed(q) <==> HashedPart(p) == HashedPart(q)
  {
    HashedRoundTrip(p, []);
    HashedRoundTrip(q, []);
  }

  /** The bytes a reader hashes: as many as the length it has read, if there are so many. */
  function HashInput(s: seq<Byte>): (h: Option<seq<Byte>>) {
    match GetPool(s)
    case Fail => None
    case Ok(p, _) => if p.hashingLength <= |s| then Some(s[..p.hashingLength]) else None
  }

  /** What a reader hashes is the hashed part of the pool it has read if and only if the length read is the length of
      that part. The reader does not compare the two. */
  lemma HashCoversIff(p: Pool, length: U64)
    requires PoolFits(p)
    ensures GetPool(WithLength(p, length)) == Ok(p.(hashingLength := length), [])
    ensures HashInput(WithLength(p, length)) == Some(PutHashed(p)) <==> length == |PutHashed(p)|
    ensures var s := WithLength(p, length); HashInput(s) == if length > |s| then None else Some(s[..length])
  {
    hide GetPool, PutHashed, PoolFits;
    LengthIsNotChecked(p, length, []);
    var s := WithLength(p, length);
    assert s + [] == s;
    if length <= |s| {
      assert |s[..length]| == length;
    }
  }

  /** With a length of zero nothing is hashed, whatever the pool. */
  lemma NothingHashed(p: Pool)
    requires PoolFits(p)
    ensures GetPool(WithLength(p, 0)) == Ok(p.(hashingLength := 0), []) && HashInput(WithLength(p, 0)) == Some([])
  {
    hide GetPool, PutHashed, PoolFits;
    HashCoversIff(p, 0);
  }

  /** One trusted node announced and no confidant given: the pool does not come back from its own bytes. */
  lemma CountersMustAgree()
    ensures var trust := Trust(1, 0, [], 0, 0, []);
      var p := Pool(Meta(0, [], 0, [], Amount(0, 0)), [], [], trust, 0, [], []);
      |PutHashed(p)| < TWO_64 && GetPool(PutPool(p)) != Ok(Composed(p), [])
  {
    var trust := Trust(1, 0, [], 0, 0, []);
    var p := Pool(Meta(0, [], 0, [], Amount(0, 0)), [], [], trust, 0, [], []);
    assert |PutMeta(p.meta)| == 23 && |PutTrust(trust)| == 18;
    assert |PutTransactions([])| == 4 && |PutNewWallets([])| == 4;
    RoundTripsExactlyWhenItFits(p);
  }
}
