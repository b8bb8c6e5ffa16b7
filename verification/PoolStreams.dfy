/** The streams as the program uses them, and a pool written to and read from them field by field. */
module PoolStreams {
  import opened Bytes
  import opened Streams
  import opened TransactionCodec
  import opened PoolCodec

  lemma {:induction false} PutManyGrows<T>(put: T -> seq<Byte>, xs: seq<T>, x: T)
    ensures PutMany(put, xs + [x]) == PutMany(put, xs) + put(x)
  {
    if xs == [] {
      assert xs + [x] == [x] && [x][1..] == [];
    } else {
      PutManyGrows(put, xs[1..], x);
      assert (xs + [x])[1..] == xs[1..] + [x];
      Regroup(put(xs[0]), PutMany(put, xs[1..]), put(x));
    }
  }

  lemma Join3(b: seq<Byte>, x: seq<Byte>, y: seq<Byte>, z: seq<Byte>)
    ensures ((b + x) + y) + z == b + (x + (y + z))
  {
    Regroup(b + x, y, z);
    Regroup(b, x, y + z);
  }

  lemma Join4(b: seq<Byte>, x: seq<Byte>, y: seq<Byte>, z: seq<Byte>, u: seq<Byte>)
    ensures (((b + x) + y) + z) + u == b + (x + (y + (z + u)))
  {
    Join3(b + x, y, z, u);
    Regroup(b, x, y + (z + u));
  }

  lemma Join5(b: seq<Byte>, x: seq<Byte>, y: seq<Byte>, z: seq<Byte>, u: seq<Byte>, v: seq<Byte>)
    ensures ((((b + x) + y) + z) + u) + v == b + (x + (y + (z + (u + v))))
  {
    Join4(b + x, y, z, u, v);
    Regroup(b, x, y + (z + (u + v)));
  }

  function Prepended<T>(xs: seq<T>, r: Parsed<seq<T>>): (p: Parsed<seq<T>>) {
    if r.Ok? then Ok(xs + r.value, r.rest) else Fail
  }

  lemma NothingPrepended<T>(r: Parsed<seq<T>>)
    ensures Prepended([], r) == r
  {
    assert r.Ok? ==> [] + r.value == r.value;
  }

  lemma NoneLeft<T>(get: seq<Byte> -> Parsed<T>, s: seq<Byte>)
    ensures GetMany(get, 0, s) == Ok([], s)
  {
  }

  lemma NoEntries()
    ensures EmplaceAll([], []) == []
  {
  }

  lemma OneMore<T>(get: seq<Byte> -> Parsed<T>, n: nat, s: seq<Byte>, xs: seq<T>)
    requires n > 0
    ensures Prepended(xs, GetMany(get, n, s)) ==
      match get(s) { case Fail => Fail case Ok(x, rest) => Prepended(xs + [x], GetMany(get, n - 1, rest)) }
  {
    match get(s)
    case Fail =>
    case Ok(x, rest) =>
      var r := GetMany(get, n - 1, rest);
      assert r.Ok? ==> xs + ([x] + r.value) == (xs + [x]) + r.value;
  }

  lemma {:induction false} EmplaceAllGrows(m: Fields, es: Fields, e: (Int32, UserField))
    ensures EmplaceAll(m, es + [e]) == Emplace(EmplaceAll(m, es), e)
    decreases |es|
  {
    if es == [] {
      assert es + [e] == [e] && [e][1..] == [];
    } else {
      EmplaceAllGrows(Emplace(m, es[0]), es[1..], e);
      assert (es + [e])[1..] == es[1..] + [e];
    }
  }

  class ObStream {
    var buffer: seq<Byte>

    constructor ()
      ensures buffer == []
    {
      buffer := [];
    }

    method Put(bytes: seq<Byte>)
      modifies this
      ensures buffer == old(buffer) + bytes
    {
      buffer := buffer + bytes;
    }

    method PutEach<T>(put: T -> seq<Byte>, xs: seq<T>)
      modifies this
      ensures buffer == old(buffer) + PutMany(put, xs)
    {
      var i := 0;
      assert old(buffer) + PutMany(put, xs[..0]) == old(buffer);
      while i < |xs|
        invariant 0 <= i <= |xs|
        invariant buffer == old(buffer) + PutMany(put, xs[..i])
      {
        PutManyGrows(put, xs[..i], xs[i]);
        assert xs[..i + 1] == xs[..i] + [xs[i]];
        Regroup(old(buffer), PutMany(put, xs[..i]), put(xs[i]));
        Put(put(xs[i]));
        i := i + 1;
      }
      assert xs[..i] == xs;
    }

    method PutFields(m: Fields)
      modifies this
      ensures buffer == old(buffer) + TransactionCodec.PutFields(m)
    {
      Put([|m| % 256]);
      PutEach(PutField, m);
      Regroup(old(buffer), [|m| % 256], PutMany(PutField, m));
    }

    method PutMeta(m: Meta)
      modifies this
      ensures buffer == old(buffer) + PoolCodec.PutMeta(m)
    {
      hide PutHash, LE, TransactionCodec.PutFields, PutAmount;
      Put([m.version]);
      Put(PutHash(m.previous));
      Put(LE(m.sequence, 8));
      PutFields(m.fields);
      Put(PutAmount(m.roundCost));
      Join5(old(buffer), [m.version], PutHash(m.previous), LE(m.sequence, 8), TransactionCodec.PutFields(m.fields),
        PutAmount(m.roundCost));
    }

    method PutConfidants(t: Trust)
      modifies this
      ensures buffer == old(buffer) + PoolCodec.PutConfidants(t)
    {
      hide LE, PutMany;
      Put([t.numberTrusted]);
      Put(LE(t.realTrusted, 8));
      PutEach(PutKey, t.confidants);
      Join3(old(buffer), [t.numberTrusted], LE(t.realTrusted, 8), PutMany(PutKey, t.confidants));
    }

    method PutConfirmations(t: Trust)
      modifies this
      ensures buffer == old(buffer) + PoolCodec.PutConfirmations(t)
    {
      hide LE, PutMany;
      Put([t.numberConfirmations]);
      Put(LE(t.confirmationMask, 8));
      PutEach(PutSignature, t.confirmations);
      Join3(old(buffer), [t.numberConfirmations], LE(t.confirmationMask, 8), PutMany(PutSignature, t.confirmations));
    }

    /** A list behind a four-byte count. */
    method PutCounted<T>(put: T -> seq<Byte>, xs: seq<T>)
      modifies this
      ensures buffer == old(buffer) + (LE(|xs|, 4) + PutMany(put, xs))
    {
      Put(LE(|xs|, 4));
      PutEach(put, xs);
      Regroup(old(buffer), LE(|xs|, 4), PutMany(put, xs));
    }

    method PutHashed(p: Pool)
      modifies this
      ensures buffer == old(buffer) + PoolCodec.PutHashed(p)
    {
      hide LE, PutMany, PoolCodec.PutMeta, PoolCodec.PutConfidants, PoolCodec.PutConfirmations;
      PutMeta(p.meta);
      PutCounted(PutTransaction, p.transactions);
      PutCounted(PutNewWallet, p.newWallets);
      PutConfidants(p.trust);
      PutConfirmations(p.trust);
      Join5(old(buffer), PoolCodec.PutMeta(p.meta), PutTransactions(p.transactions), PutNewWallets(p.newWallets),
        PoolCodec.PutConfidants(p.trust), PoolCodec.PutConfirmations(p.trust));
    }

    /** Only the hashed part when `doHash`; otherwise the length is the size of the buffer so far. */
    method PutPool(p: Pool, doHash: bool) returns (hashingLength: nat)
      modifies this
      ensures doHash ==> buffer == old(buffer) + PoolCodec.PutHashed(p) && hashingLength == p.hashingLength
      ensures !doHash ==> hashingLength == |old(buffer)| + |PoolCodec.PutHashed(p)|
      ensures !doHash ==> buffer == old(buffer) + (PoolCodec.PutHashed(p) + (LE(hashingLength, 8) + PutSignatures(p)))
    {
      hide LE, PutMany, PoolCodec.PutHashed;
      PutHashed(p);
      if doHash {
        return p.hashingLength;
      }
      hashingLength := |buffer|;
      Put(LE(hashingLength, 8));
      PutEach(PutSignature, p.signatures);
      Put([|p.smartSignatures| % 256]);
      PutEach(PutSmart, p.smartSignatures);
      Join5(old(buffer), PoolCodec.PutHashed(p), LE(hashingLength, 8), PutMany(PutSignature, p.signatures),
        [|p.smartSignatures| % 256], PutMany(PutSmart, p.smartSignatures));
    }
  }

  class IbStream {
    var data: seq<Byte>

    constructor (bytes: seq<Byte>)
      ensures data == bytes
    {
      data := bytes;
    }

    method Get<T>(get: seq<Byte> -> Parsed<T>, initial: T) returns (ok: bool, value: T)
      modifies this
      ensures ok == get(old(data)).Ok?
      ensures ok ==> value == get(old(data)).value && data == get(old(data)).rest
    {
      match get(data) {
        case Ok(v, rest) =>
          data := rest;
          return true, v;
        case Fail =>
          return false, initial;
      }
    }

    method GetEach<T>(get: seq<Byte> -> Parsed<T>, n: nat) returns (ok: bool, xs: seq<T>)
      modifies this
      ensures ok == GetMany(get, n, old(data)).Ok?
      ensures ok ==> xs == GetMany(get, n, old(data)).value && data == GetMany(get, n, old(data)).rest
    {
      xs := [];
      NothingPrepended(GetMany(get, n, data));
      var i := 0;
      while i < n
        invariant 0 <= i <= n
        invariant GetMany(get, n, old(data)) == Prepended(xs, GetMany(get, n - i, data))
      {
        OneMore(get, n - i, data, xs);
        match get(data) {
          case Fail =>
            return false, xs;
          case Ok(x, rest) =>
            data := rest;
            xs := xs + [x];
        }
        i := i + 1;
      }
      ok := true;
    }

    /** Reads the map entry by entry; a key already there keeps its entry. */
    method GetFields() returns (ok: bool, m: Fields)
      modifies this
      ensures ok == TransactionCodec.GetFields(old(data)).Ok?
      ensures ok ==>
        m == TransactionCodec.GetFields(old(data)).value && data == TransactionCodec.GetFields(old(data)).rest
    {
      hide GetMany, EmplaceAll, Emplace, GetField;
      m := [];
      var size := 0;
      ok, size := Get(Get8, 0);
      if !ok {
        return;
      }
      ghost var start, es := data, [];
      NothingPrepended(GetMany(GetField, size, data));
      NoEntries();
      var i := 0;
      while i < size
        invariant 0 <= i <= size
        invariant GetMany(GetField, size, start) == Prepended(es, GetMany(GetField, size - i, data))
        invariant m == EmplaceAll([], es)
      {
        OneMore(GetField, size - i, data, es);
        match GetField(data) {
          case Fail =>
            return false, m;
          case Ok(e, rest) =>
            EmplaceAllGrows([], es, e);
            data := rest;
            m := Emplace(m, e);
            es := es + [e];
        }
        i := i + 1;
      }
      NoneLeft(GetField, data);
      assert es + [] == es;
    }

    method GetMeta(initial: Meta) returns (ok: bool, m: Meta)
      modifies this
      ensures ok == PoolCodec.GetMeta(old(data)).Ok?
      ensures ok ==> m == PoolCodec.GetMeta(old(data)).value && data == PoolCodec.GetMeta(old(data)).rest
    {
      m := initial;
      var version, previous, sequence, fields, cost := m.version, m.previous, m.sequence, m.fields, m.roundCost;
      ok, version := Get(Get8, version);
      if !ok {
        return;
      }
      ok, previous := Get(GetHash, previous);
      if !ok {
        return;
      }
      ok, sequence := Get(Get64, sequence);
      if !ok {
        return;
      }
      ok, fields := GetFields();
      if !ok {
        return;
      }
      ok, cost := Get(GetAmount, cost);
      if !ok {
        return;
      }
      m := Meta(version, previous, sequence, fields, cost);
    }

    method GetCounted<T>(get: seq<Byte> -> Parsed<T>) returns (ok: bool, xs: seq<T>)
      modifies this
      ensures ok == (Get32(old(data)).Ok? && GetMany(get, Get32(old(data)).value, Get32(old(data)).rest).Ok?)
      ensures ok ==>
        var r := GetMany(get, Get32(old(data)).value, Get32(old(data)).rest);
        xs == r.value && data == r.rest
    {
      var n := 0;
      xs := [];
      ok, n := Get(Get32, 0);
      if ok {
        ok, xs := GetEach(get, n);
      }
    }

    method GetTrust(initial: Trust) returns (ok: bool, t: Trust)
      modifies this
      ensures ok == PoolCodec.GetTrust(old(data)).Ok?
      ensures ok ==> t == PoolCodec.GetTrust(old(data)).value && data == PoolCodec.GetTrust(old(data)).rest
    {
      t := initial;
      var n, mask, k, bits := t.numberTrusted, t.realTrusted, t.numberConfirmations, t.confirmationMask;
      var keys, sigs := t.confidants, t.confirmations;
      ok, n := Get(Get8, n);
      if !ok {
        return;
      }
      ok, mask := Get(Get64, mask);
      if !ok {
        return;
      }
      ok, keys := GetEach(GetKey, n);
      if !ok {
        return;
      }
      ok, k := Get(Get8, k);
      if !ok {
        return;
      }
      ok, bits := Get(Get64, bits);
      if !ok {
        return;
      }
      ok, sigs := GetEach(GetSignature, Popcount(bits));
      if !ok {
        return;
      }
      t := Trust(n, mask, keys, k, bits, sigs);
    }

    method GetHashed(initial: Hashed) returns (ok: bool, h: Hashed)
      modifies this
      ensures ok == PoolCodec.GetHashed(old(data)).Ok?
      ensures ok ==> h == PoolCodec.GetHashed(old(data)).value && data == PoolCodec.GetHashed(old(data)).rest
    {
      h := initial;
      var meta, transactions, wallets, trust := h.meta, h.transactions, h.newWallets, h.trust;
      ok, meta := GetMeta(meta);
      if !ok {
        return;
      }
      ok, transactions := GetCounted(GetTransaction);
      if !ok {
        return;
      }
      ok, wallets := GetCounted(GetNewWallet);
      if !ok {
        return;
      }
      ok, trust := GetTrust(trust);
      if !ok {
        return;
      }
      h := Hashed(meta, transactions, wallets, trust);
    }

    method GetPool(initial: Pool) returns (ok: bool, p: Pool)
      modifies this
      ensures ok == PoolCodec.GetPool(old(data)).Ok?
      ensures ok ==> p == PoolCodec.GetPool(old(data)).value && data == PoolCodec.GetPool(old(data)).rest
    {
      p := initial;
      var h, length, sigs, n, smarts := HashedPart(p), p.hashingLength, p.signatures, 0, p.smartSignatures;
      ok, h := GetHashed(h);
      if !ok {
        return;
      }
      ok, length := Get(Get64, length);
      if !ok {
        return;
      }
      ok, sigs := GetEach(GetSignature, Popcount(h.trust.realTrusted));
      if !ok {
        return;
      }
      ok, n := Get(Get8, n);
      if !ok {
        return;
      }
      ok, smarts := GetEach(GetSmart, n);
      if !ok {
        return;
      }
      p := Pool(h.meta, h.transactions, h.newWallets, h.trust, length, sigs, smarts);
    }
  }

  /** Fills in the length, keeps the binary form, and hashes its first `hashingLength` bytes: exactly the part
      written before the length, whatever the signatures are. */
  method Compose(p: Pool) returns (c: Pool, binary: seq<Byte>, hashedBytes: seq<Byte>)
    requires |PutHashed(p)| < TWO_64
    ensures c == Composed(p) && binary == PutPool(p) && hashedBytes == PutHashed(p)
    ensures PoolFits(p) ==> GetPool(binary) == Ok(c, [])
  {
    hide PutHashed, PutSignatures, LE, PoolFits, GetPool;
    var os := new ObStream();
    var length := os.PutPool(p, false);
    assert [] + PutPool(p) == PutPool(p);
    c := p.(hashingLength := length);
    binary := os.buffer;
    hashedBytes := binary[..length];
    RoundTripsExactlyWhenItFits(p);
  }
}
