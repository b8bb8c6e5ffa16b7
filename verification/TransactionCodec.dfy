/** The binary form of amounts, user fields and transactions. */
module TransactionCodec {
  import opened Bytes
  import opened Streams

  const KEY_SIZE := 32
  const SIGNATURE_SIZE := 64

  type Key = s: seq<Byte> | |s| == KEY_SIZE witness seq(KEY_SIZE, _ => 0)
  type Signature = s: seq<Byte> | |s| == SIGNATURE_SIZE witness seq(SIGNATURE_SIZE, _ => 0)
  type Int32 = v: int | -0x8000_0000 <= v < 0x8000_0000

  function GetKey(s: seq<Byte>): (r: Parsed<Key>) {
    var (b, s1) :- GetRaw(s, KEY_SIZE);
    Ok(b, s1)
  }

  function GetSignature(s: seq<Byte>): (r: Parsed<Signature>) {
    var (b, s1) :- GetRaw(s, SIGNATURE_SIZE);
    Ok(b, s1)
  }

  // ----- signed integers

  function PutInt32(v: Int32): (s: seq<Byte>) {
    LE(if v < 0 then v + TWO_32 else v, 4)
  }

  function GetInt32(s: seq<Byte>): (r: Parsed<Int32>) {
    var (v, s1) :- Get32(s);
    Ok(if v >= 0x8000_0000 then v - TWO_32 else v, s1)
  }

  lemma Int32RoundTrip(v: Int32, rest: seq<Byte>)
    ensures GetInt32(PutInt32(v) + rest) == Ok(v, rest)
  {
    RoundTrip32(if v < 0 then v + TWO_32 else v, rest);
  }

  lemma Int32Stable(s: seq<Byte>, more: seq<Byte>)
    requires GetInt32(s).Ok?
    ensures GetInt32(s + more) == GetInt32(s).Extended(more)
  {
    Stable32(s, more);
  }

  // ----- amounts

  datatype Amount = Amount(integral: Int32, fraction: U64)

  function PutAmount(a: Amount): (s: seq<Byte>) {
    PutInt32(a.integral) + LE(a.fraction, 8)
  }

  function GetAmount(s: seq<Byte>): (r: Parsed<Amount>) {
    var (integral, s1) :- GetInt32(s);
    var (fraction, s2) :- Get64(s1);
    Ok(Amount(integral, fraction), s2)
  }

  lemma AmountRoundTrip(a: Amount, rest: seq<Byte>)
    ensures GetAmount(PutAmount(a) + rest) == Ok(a, rest)
  {
    Regroup(PutInt32(a.integral), LE(a.fraction, 8), rest);
    Int32RoundTrip(a.integral, LE(a.fraction, 8) + rest);
    RoundTrip64(a.fraction, rest);
  }

  lemma AmountStable(s: seq<Byte>, more: seq<Byte>)
    requires GetAmount(s).Ok?
    ensures GetAmount(s + more) == GetAmount(s).Extended(more)
  {
    Int32Stable(s, more);
    Stable64(GetInt32(s).rest, more);
  }

  // ----- user fields

  datatype UserField = Unknown | Integer(i: U64) | Text(s: seq<Byte>) | Money(a: Amount)

  /** A field without a type writes nothing. */
  function PutUserField(f: UserField): (s: seq<Byte>) {
    match f
    case Unknown => []
    case Integer(i) => [1] + LE(i, 8)
    case Text(s) => [2] + (LE(|s|, 4) + s)
    case Money(a) => [3] + PutAmount(a)
  }

  function GetText(s: seq<Byte>): (r: Parsed<seq<Byte>>) {
    var (n, s1) :- Get32(s);
    GetRaw(s1, n)
  }

  function GetUserField(s: seq<Byte>): (r: Parsed<UserField>) {
    var (tag, s1) :- Get8(s);
    match tag
    case 1 => var (i, s2) :- Get64(s1); Ok(Integer(i), s2)
    case 2 => var (t, s2) :- GetText(s1); Ok(Text(t), s2)
    case 3 => var (a, s2) :- GetAmount(s1); Ok(Money(a), s2)
    case _ => Fail
  }

  predicate UserFieldFits(f: UserField) {
    !f.Unknown? && (f.Text? ==> |f.s| < TWO_32)
  }

  /** The type byte of each kind of field, and what stands behind it. */
  lemma TypeBytes(i: U64, s: seq<Byte>, a: Amount)
    ensures PutUserField(Integer(i))[0] == 1 && PutUserField(Integer(i))[1..] == LE(i, 8)
    ensures PutUserField(Text(s))[0] == 2 && PutUserField(Text(s))[1..] == LE(|s|, 4) + s
    ensures PutUserField(Money(a))[0] == 3 && PutUserField(Money(a))[1..] == PutAmount(a)
    ensures PutUserField(Unknown) == []
  {
  }

  lemma UserFieldRoundTrip(f: UserField, rest: seq<Byte>)
    requires UserFieldFits(f)
    ensures GetUserField(PutUserField(f) + rest) == Ok(f, rest)
  {
    match f
    case Integer(i) =>
      Regroup([1], LE(i, 8), rest);
      RoundTrip8(1, LE(i, 8) + rest);
      RoundTrip64(i, rest);
    case Text(s) =>
      Regroup([2], LE(|s|, 4) + s, rest);
      RoundTrip8(2, (LE(|s|, 4) + s) + rest);
      Regroup(LE(|s|, 4), s, rest);
      RoundTrip32(|s|, s + rest);
      RawRoundTrip(s, rest);
    case Money(a) =>
      Regroup([3], PutAmount(a), rest);
      RoundTrip8(3, PutAmount(a) + rest);
      AmountRoundTrip(a, rest);
  }

  lemma TextStable(s: seq<Byte>, more: seq<Byte>)
    requires GetText(s).Ok?
    ensures GetText(s + more) == GetText(s).Extended(more) && |GetText(s).value| < TWO_32
  {
    Stable32(s, more);
    RawStable(Get32(s).rest, Get32(s).value, more);
  }

  lemma UserFieldStable(s: seq<Byte>, more: seq<Byte>)
    requires GetUserField(s).Ok?
    ensures GetUserField(s + more) == GetUserField(s).Extended(more)
    ensures UserFieldFits(GetUserField(s).value)
  {
    Stable8(s, more);
    var s1 := Get8(s).rest;
    match Get8(s).value
    case 1 => Stable64(s1, more);
    case 2 => TextStable(s1, more);
    case _ => AmountStable(s1, more);
  }

  // ----- the map of user fields, as its entries in key order

  type Fields = seq<(Int32, UserField)>

  ghost predicate Sorted(m: Fields) {
    forall i, j :: 0 <= i < j < |m| ==> m[i].0 < m[j].0
  }

  function PutField(e: (Int32, UserField)): (s: seq<Byte>) {
    PutInt32(e.0) + PutUserField(e.1)
  }

  function GetField(s: seq<Byte>): (r: Parsed<(Int32, UserField)>) {
    var (k, s1) :- GetInt32(s);
    var (f, s2) :- GetUserField(s1);
    Ok((k, f), s2)
  }

  predicate FieldFits(e: (Int32, UserField)) {
    UserFieldFits(e.1)
  }

  lemma FieldRoundTrip(e: (Int32, UserField), rest: seq<Byte>)
    requires FieldFits(e)
    ensures GetField(PutField(e) + rest) == Ok(e, rest)
  {
    Regroup(PutInt32(e.0), PutUserField(e.1), rest);
    Int32RoundTrip(e.0, PutUserField(e.1) + rest);
    UserFieldRoundTrip(e.1, rest);
  }

  lemma FieldStable(s: seq<Byte>, more: seq<Byte>)
    requires GetField(s).Ok?
    ensures GetField(s + more) == GetField(s).Extended(more) && FieldFits(GetField(s).value)
  {
    Int32Stable(s, more);
    UserFieldStable(GetInt32(s).rest, more);
  }

  /** Insertion into the map: the first entry for a key stays. */
  function Emplace(m: Fields, e: (Int32, UserField)): (r: Fields)
    ensures |m| <= |r| <= |m| + 1
  {
    if m == [] || e.0 < m[0].0 then [e] + m
    else if e.0 == m[0].0 then m
    else [m[0]] + Emplace(m[1..], e)
  }

  function EmplaceAll(m: Fields, es: Fields): (r: Fields)
    ensures |r| <= |m| + |es|
    decreases |es|
  {
    if es == [] then m else EmplaceAll(Emplace(m, es[0]), es[1..])
  }

  /** What a map is: the keys, each with the entry that came first, in order. */
  lemma {:induction false} EmplaceIsInsertion(m: Fields, e: (Int32, UserField))
    requires Sorted(m)
    ensures Sorted(Emplace(m, e))
    ensures forall x :: x in Emplace(m, e) <==> x in m || (x == e && forall y :: y in m ==> y.0 != e.0)
  {
    if m == [] || e.0 < m[0].0 {
    } else if e.0 == m[0].0 {
      assert m[0] in m;
    } else {
      EmplaceIsInsertion(m[1..], e);
      assert m == [m[0]] + m[1..];
      forall x | x in Emplace(m[1..], e) ensures m[0].0 < x.0 {
        if x in m[1..] {
          var i :| 0 <= i < |m[1..]| && m[1..][i] == x;
          assert m[i + 1] == x;
        }
      }
      var r := Emplace(m[1..], e);
      forall i, j | 0 <= i < j < |r| + 1 ensures ([m[0]] + r)[i].0 < ([m[0]] + r)[j].0 {
        assert r[j - 1] in r;
      }
      assert forall y :: y in m <==> y == m[0] || y in m[1..];
    }
  }

  lemma {:induction false} EmplaceLast(m: Fields, e: (Int32, UserField))
    requires Sorted(m + [e])
    ensures Emplace(m, e) == m + [e]
  {
    if m == [] {
    } else {
      assert (m + [e])[0] == m[0] && (m + [e])[|m|] == e;
      forall i, j | 0 <= i < j < |m[1..] + [e]| ensures (m[1..] + [e])[i].0 < (m[1..] + [e])[j].0 {
        assert (m[1..] + [e])[i] == (m + [e])[i + 1] && (m[1..] + [e])[j] == (m + [e])[j + 1];
      }
      EmplaceLast(m[1..], e);
    }
  }

  lemma {:induction false} EmplaceInOrder(m: Fields, es: Fields)
    requires Sorted(m + es)
    ensures EmplaceAll(m, es) == m + es
    decreases |es|
  {
    if es == [] {
      assert m + es == m;
    } else {
      assert forall i :: 0 <= i < |m| + 1 ==> (m + [es[0]])[i] == (m + es)[i];
      EmplaceLast(m, es[0]);
      assert (m + [es[0]]) + es[1..] == m + es;
      EmplaceInOrder(m + [es[0]], es[1..]);
    }
  }

  ghost predicate AllFit(m: Fields) {
    forall e :: e in m ==> FieldFits(e)
  }

  lemma {:induction false} EmplaceAllKeeps(m: Fields, es: Fields)
    requires Sorted(m) && AllFit(m) && AllFit(es)
    ensures Sorted(EmplaceAll(m, es)) && AllFit(EmplaceAll(m, es))
    decreases |es|
  {
    if es == [] {
    } else {
      EmplaceIsInsertion(m, es[0]);
      assert es[0] in es;
      EmplaceAllKeeps(Emplace(m, es[0]), es[1..]);
    }
  }

  /** The number of entries is written in one byte. */
  function PutFields(m: Fields): (s: seq<Byte>) {
    [|m| % 256] + PutMany(PutField, m)
  }

  function GetFields(s: seq<Byte>): (r: Parsed<Fields>) {
    var (n, s1) :- Get8(s);
    var (es, s2) :- GetMany(GetField, n, s1);
    Ok(EmplaceAll([], es), s2)
  }

  ghost predicate FieldsFit(m: Fields) {
    Sorted(m) && |m| < 256 && AllFit(m)
  }

  lemma EntriesRoundTrip(m: Fields, rest: seq<Byte>)
    requires AllFit(m)
    ensures GetMany(GetField, |m|, PutMany(PutField, m) + rest) == Ok(m, rest)
  {
    forall e, r | e in m ensures GetField(PutField(e) + r) == Ok(e, r) {
      FieldRoundTrip(e, r);
    }
    ManyRoundTrip(PutField, GetField, m, rest);
  }

  lemma FieldsRoundTrip(m: Fields, rest: seq<Byte>)
    requires FieldsFit(m)
    ensures GetFields(PutFields(m) + rest) == Ok(m, rest)
  {
    hide EmplaceAll, PutMany, GetMany;
    var entries := PutMany(PutField, m);
    Regroup([|m|], entries, rest);
    RoundTrip8(|m|, entries + rest);
    EntriesRoundTrip(m, rest);
    assert [] + m == m;
    EmplaceInOrder([], m);
  }

  lemma FieldsStable(s: seq<Byte>, more: seq<Byte>)
    requires GetFields(s).Ok?
    ensures GetFields(s + more) == GetFields(s).Extended(more)
    ensures FieldsFit(GetFields(s).value)
  {
    Stable8(s, more);
    forall r, e | GetField(r).Ok? ensures GetField(r + e) == GetField(r).Extended(e) && FieldFits(GetField(r).value) {
      FieldStable(r, e);
    }
    ManyStable(GetField, FieldFits, Get8(s).value, Get8(s).rest, more);
    EmplaceAllKeeps([], GetMany(GetField, Get8(s).value, Get8(s).rest).value);
  }

  // ----- transactions

  datatype Party = PublicKey(key: Key) | WalletId(id: U32)

  function PutParty(a: Party): (s: seq<Byte>) {
    match a
    case PublicKey(key) => key
    case WalletId(id) => LE(id, 4)
  }

  function GetParty(s: seq<Byte>, isId: bool): (r: Parsed<Party>) {
    if isId then
      var (id, s1) :- Get32(s);
      Ok(WalletId(id), s1)
    else
      var (key, s1) :- GetKey(s);
      Ok(PublicKey(key), s1)
  }

  lemma PartyRoundTrip(a: Party, rest: seq<Byte>)
    ensures GetParty(PutParty(a) + rest, a.WalletId?) == Ok(a, rest)
  {
    match a
    case PublicKey(key) => RawRoundTrip(key, rest);
    case WalletId(id) => RoundTrip32(id, rest);
  }

  lemma PartyStable(s: seq<Byte>, isId: bool, more: seq<Byte>)
    requires GetParty(s, isId).Ok?
    ensures GetParty(s + more, isId) == GetParty(s, isId).Extended(more)
  {
    if isId {
      Stable32(s, more);
    } else {
      RawStable(s, KEY_SIZE, more);
    }
  }

  /** `innerId` is the bit pattern of the signed 64-bit number; fees are the bits of the packed commission. */
  datatype Transaction = Transaction(innerId: U64, source: Party, target: Party, amount: Amount, maxFee: U16,
    currency: Byte, fields: Fields, signature: Signature, countedFee: U16)

  const TWO_30: nat := 0x4000_0000
  const TWO_31: nat := 0x8000_0000
  const TWO_46: nat := 0x4000_0000_0000

  /** Bits 16 to 47 of the inner id, with the two top bits forced on for wallet ids. */
  function HighWord(innerId: U64, sourceIsId: bool, targetIsId: bool): (hi: U32) {
    var word := innerId / TWO_16 % TWO_32;
    var top := word / TWO_30;
    word % TWO_30 + (if sourceIsId || top >= 2 then TWO_31 else 0) + (if targetIsId || top % 2 == 1 then TWO_30 else 0)
  }

  lemma HighWordSplits(innerId: U64, sourceIsId: bool, targetIsId: bool)
    requires innerId < TWO_46
    ensures var hi := HighWord(innerId, sourceIsId, targetIsId);
      hi % TWO_30 == innerId / TWO_16 && (hi >= TWO_31 <==> sourceIsId) && (hi / TWO_30 % 2 == 1 <==> targetIsId)
  {
  }

  /** For any inner id, given by what stands above bit 47, the bits 47 and 46, and the rest: a flag is also set by its
      bit of the id. */
  lemma HighWordFlags(above: nat, bit47: bool, bit46: bool, rest: nat, sourceIsId: bool, targetIsId: bool)
    requires above < TWO_16 && rest < TWO_46
    ensures var id := 4 * TWO_46 * above + (if bit47 then 2 * TWO_46 else 0) + (if bit46 then TWO_46 else 0) + rest;
      var hi := HighWord(id, sourceIsId, targetIsId);
      (hi >= TWO_31 <==> sourceIsId || bit47) && (hi / TWO_30 % 2 == 1 <==> targetIsId || bit46)
  {
    var id := 4 * TWO_46 * above + (if bit47 then 2 * TWO_46 else 0) + (if bit46 then TWO_46 else 0) + rest;
    var word := (if bit47 then TWO_31 else 0) + (if bit46 then TWO_30 else 0) + rest / TWO_16;
    WordOf(above, word, rest);
    assert id == TWO_16 * (TWO_32 * above + word) + rest % TWO_16;
  }

  lemma WordOf(above: nat, word: nat, rest: nat)
    requires word < TWO_32
    ensures (TWO_16 * (TWO_32 * above + word) + rest % TWO_16) / TWO_16 % TWO_32 == word
  {
    assert (TWO_16 * (TWO_32 * above + word) + rest % TWO_16) / TWO_16 == TWO_32 * above + word;
  }

  function PutParties(t: Transaction): (s: seq<Byte>) {
    LE(t.innerId % TWO_16, 2)
    + (LE(HighWord(t.innerId, t.source.WalletId?, t.target.WalletId?), 4)
    + (PutParty(t.source) + PutParty(t.target)))
  }

  function PutMoney(t: Transaction): (s: seq<Byte>) {
    PutAmount(t.amount) + (LE(t.maxFee, 2) + [t.currency])
  }

  function PutProof(t: Transaction): (s: seq<Byte>) {
    PutFields(t.fields) + (t.signature + LE(t.countedFee, 2))
  }

  function PutTransaction(t: Transaction): (s: seq<Byte>) {
    PutParties(t) + (PutMoney(t) + PutProof(t))
  }

  function GetParties(s: seq<Byte>): (r: Parsed<(U64, Party, Party)>) {
    var (lo, s1) :- Get16(s);
    var (hi, s2) :- Get32(s1);
    var (source, s3) :- GetParty(s2, hi >= TWO_31);
    var (target, s4) :- GetParty(s3, hi / TWO_30 % 2 == 1);
    Ok((hi % TWO_30 * TWO_16 + lo, source, target), s4)
  }

  function GetMoney(s: seq<Byte>): (r: Parsed<(Amount, U16, Byte)>) {
    var (amount, s1) :- GetAmount(s);
    var (maxFee, s2) :- Get16(s1);
    var (currency, s3) :- Get8(s2);
    Ok((amount, maxFee, currency), s3)
  }

  function GetProof(s: seq<Byte>): (r: Parsed<(Fields, Signature, U16)>) {
    var (fields, s1) :- GetFields(s);
    var (signature, s2) :- GetSignature(s1);
    var (countedFee, s3) :- Get16(s2);
    Ok((fields, signature, countedFee), s3)
  }

  function GetTransaction(s: seq<Byte>): (r: Parsed<Transaction>) {
    var (p, s1) :- GetParties(s);
    var (m, s2) :- GetMoney(s1);
    var (e, s3) :- GetProof(s2);
    Ok(Transaction(p.0, p.1, p.2, m.0, m.1, m.2, e.0, e.1, e.2), s3)
  }

  ghost predicate TransactionFits(t: Transaction) {
    t.innerId < TWO_46 && FieldsFit(t.fields)
  }

  lemma PartiesRoundTrip(t: Transaction, rest: seq<Byte>)
    requires t.innerId < TWO_46
    ensures GetParties(PutParties(t) + rest) == Ok((t.innerId, t.source, t.target), rest)
  {
    var lo, hi := t.innerId % TWO_16, HighWord(t.innerId, t.source.WalletId?, t.target.WalletId?);
    var s3 := PutParty(t.target) + rest;
    var s2 := PutParty(t.source) + s3;
    Regroup(PutParty(t.source), PutParty(t.target), rest);
    Regroup(LE(hi, 4), PutParty(t.source) + PutParty(t.target), rest);
    Regroup(LE(lo, 2), LE(hi, 4) + (PutParty(t.source) + PutParty(t.target)), rest);
    RoundTrip16(lo, LE(hi, 4) + s2);
    RoundTrip32(hi, s2);
    HighWordSplits(t.innerId, t.source.WalletId?, t.target.WalletId?);
    PartyRoundTrip(t.source, s3);
    PartyRoundTrip(t.target, rest);
  }

  lemma MoneyRoundTrip(t: Transaction, rest: seq<Byte>)
    ensures GetMoney(PutMoney(t) + rest) == Ok((t.amount, t.maxFee, t.currency), rest)
  {
    Regroup(PutAmount(t.amount), LE(t.maxFee, 2) + [t.currency], rest);
    Regroup(LE(t.maxFee, 2), [t.currency], rest);
    AmountRoundTrip(t.amount, LE(t.maxFee, 2) + ([t.currency] + rest));
    RoundTrip16(t.maxFee, [t.currency] + rest);
    RoundTrip8(t.currency, rest);
  }

  lemma ProofRoundTrip(t: Transaction, rest: seq<Byte>)
    requires FieldsFit(t.fields)
    ensures GetProof(PutProof(t) + rest) == Ok((t.fields, t.signature, t.countedFee), rest)
  {
    Regroup(PutFields(t.fields), t.signature + LE(t.countedFee, 2), rest);
    Regroup(t.signature, LE(t.countedFee, 2), rest);
    FieldsRoundTrip(t.fields, t.signature + (LE(t.countedFee, 2) + rest));
    RawRoundTrip(t.signature, LE(t.countedFee, 2) + rest);
    RoundTrip16(t.countedFee, rest);
  }

  /** Where the parts of a transaction stand: six bytes of inner id and address kinds, the source, the target, twelve
      bytes of amount, two of maximal fee, one of currency; and the counted fee at the end, behind the signature. */
  lemma TransactionLayout(t: Transaction)
    ensures var s, a, b := PutTransaction(t), PutParty(t.source), PutParty(t.target);
      var n := 6 + |a| + |b|;
      && |s| >= n + 15 + 66 && s[..2] == LE(t.innerId % TWO_16, 2)
      && s[6..6 + |a|] == a && s[6 + |a|..n] == b && s[n..n + 12] == PutAmount(t.amount)
      && s[n + 12..n + 14] == LE(t.maxFee, 2) && s[n + 14] == t.currency
      && s[|s| - 2..] == LE(t.countedFee, 2) && s[|s| - 66..|s| - 2] == t.signature
  {
    hide PutParties, PutMoney, PutProof, PutParty, PutAmount, LE;
    PartiesLayout(t);
    MoneyLayout(t);
    ProofLayout(t);
    Slices(PutParties(t), PutMoney(t), PutProof(t));
    var s, x, y, z := PutTransaction(t), PutParties(t), PutMoney(t), PutProof(t);
    var a, b := PutParty(t.source), PutParty(t.target);
    assert s[..2] == x[..2] && s[6..6 + |a|] == x[6..6 + |a|] && s[6 + |a|..|x|] == x[6 + |a|..];
    assert s[|x|..|x| + 12] == y[..12] && s[|x| + 12..|x| + 14] == y[12..14] && s[|x| + 14] == y[14];
    assert s[|s| - 2..] == z[|z| - 2..] && s[|s| - 66..|s| - 2] == z[|z| - 66..|z| - 2];
  }

  lemma Slices(x: seq<Byte>, y: seq<Byte>, z: seq<Byte>)
    ensures var s := x + (y + z); s[..|x|] == x && s[|x|..|x| + |y|] == y && s[|x| + |y|..] == z
  {
  }

  lemma PartiesLayout(t: Transaction)
    ensures var s, a, b := PutParties(t), PutParty(t.source), PutParty(t.target);
      && |s| == 6 + |a| + |b| && s[..2] == LE(t.innerId % TWO_16, 2)
      && s[6..6 + |a|] == a && s[6 + |a|..] == b
  {
  }

  lemma MoneyLayout(t: Transaction)
    ensures var s := PutMoney(t);
      && |s| == 15 && s[..12] == PutAmount(t.amount) && s[12..14] == LE(t.maxFee, 2) && s[14] == t.currency
  {
    assert |PutAmount(t.amount)| == 12;
  }

  lemma ProofLayout(t: Transaction)
    ensures var s := PutProof(t);
      |s| >= 66 && s[|s| - 2..] == LE(t.countedFee, 2) && s[|s| - 66..|s| - 2] == t.signature
  {
    assert |t.signature| == 64;
  }

  lemma TransactionRoundTrip(t: Transaction, rest: seq<Byte>)
    requires TransactionFits(t)
    ensures GetTransaction(PutTransaction(t) + rest) == Ok(t, rest)
  {
    Regroup(PutParties(t), PutMoney(t) + PutProof(t), rest);
    Regroup(PutMoney(t), PutProof(t), rest);
    PartiesRoundTrip(t, PutMoney(t) + (PutProof(t) + rest));
    MoneyRoundTrip(t, PutProof(t) + rest);
    ProofRoundTrip(t, rest);
  }

  lemma PartiesStable(s: seq<Byte>, more: seq<Byte>)
    requires GetParties(s).Ok?
    ensures GetParties(s + more) == GetParties(s).Extended(more) && GetParties(s).value.0 < TWO_46
  {
    var s1 := Get16(s).rest;
    var hi, s2 := Get32(s1).value, Get32(s1).rest;
    Stable16(s, more);
    Stable32(s1, more);
    PartyStable(s2, hi >= TWO_31, more);
    PartyStable(GetParty(s2, hi >= TWO_31).rest, hi / TWO_30 % 2 == 1, more);
  }

  lemma MoneyStable(s: seq<Byte>, more: seq<Byte>)
    requires GetMoney(s).Ok?
    ensures GetMoney(s + more) == GetMoney(s).Extended(more)
  {
    AmountStable(s, more);
    Stable16(GetAmount(s).rest, more);
    Stable8(Get16(GetAmount(s).rest).rest, more);
  }

  lemma ProofStable(s: seq<Byte>, more: seq<Byte>)
    requires GetProof(s).Ok?
    ensures GetProof(s + more) == GetProof(s).Extended(more) && FieldsFit(GetProof(s).value.0)
  {
    var s1 := GetFields(s).rest;
    FieldsStable(s, more);
    RawStable(s1, SIGNATURE_SIZE, more);
    Stable16(GetSignature(s1).rest, more);
  }

  lemma TransactionStable(s: seq<Byte>, more: seq<Byte>)
    requires GetTransaction(s).Ok?
    ensures GetTransaction(s + more) == GetTransaction(s).Extended(more)
    ensures TransactionFits(GetTransaction(s).value)
  {
    var s1 := GetParties(s).rest;
    PartiesStable(s, more);
    MoneyStable(s1, more);
    ProofStable(GetMoney(s1).rest, more);
  }
}
