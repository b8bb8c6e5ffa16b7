/** Writing values to a byte buffer and reading them back. `PutX(x)` is what the output stream appends for `x`;
    `GetX(s)` is what the input stream reads from the bytes `s`, together with the bytes it leaves. */
module Streams {
  import opened Bytes

  datatype Parsed<+T> = Fail | Ok(value: T, rest: seq<Byte>) {
    predicate IsFailure() {
      Fail?
    }

    function PropagateFailure<U>(): Parsed<U>
      requires Fail?
    {
      Fail
    }

    function Extract(): (T, seq<Byte>)
      requires Ok?
    {
      (value, rest)
    }

    /** The same result with more bytes left over. */
    function Extended(more: seq<Byte>): Parsed<T> {
      if Ok? then Ok(value, rest + more) else Fail
    }
  }

  // ----- unsigned integers of `n` bytes

  function GetUInt(s: seq<Byte>, n: nat): (r: Parsed<nat>) {
    if |s| < n then Fail else Ok(FromLE(s[..n]), s[n..])
  }

  lemma UIntRoundTrip(v: nat, n: nat, rest: seq<Byte>)
    requires v < Pow2(8 * n)
    ensures GetUInt(LE(v, n) + rest, n) == Ok(v, rest)
  {
    FromLEofLE(v, n);
    assert (LE(v, n) + rest)[..n] == LE(v, n) && (LE(v, n) + rest)[n..] == rest;
  }

  lemma UIntStable(s: seq<Byte>, n: nat, more: seq<Byte>)
    requires GetUInt(s, n).Ok?
    ensures GetUInt(s + more, n) == GetUInt(s, n).Extended(more)
    ensures GetUInt(s, n).value < Pow2(8 * n)
  {
    assert (s + more)[..n] == s[..n] && (s + more)[n..] == s[n..] + more;
    FromLEBound(s[..n]);
  }

  // ----- the widths in use

  type U16 = v: nat | v < TWO_16
  type U32 = v: nat | v < TWO_32
  type U64 = v: nat | v < TWO_64

  function Get8(s: seq<Byte>): (r: Parsed<Byte>) {
    if s == [] then Fail else Ok(s[0], s[1..])
  }

  function Get16(s: seq<Byte>): (r: Parsed<U16>) {
    var (v, s1) :- GetUInt(s, 2);
    Widths(); FromLEBound(s[..2]);
    Ok(v, s1)
  }

  function Get32(s: seq<Byte>): (r: Parsed<U32>) {
    var (v, s1) :- GetUInt(s, 4);
    Widths(); FromLEBound(s[..4]);
    Ok(v, s1)
  }

  function Get64(s: seq<Byte>): (r: Parsed<U64>) {
    var (v, s1) :- GetUInt(s, 8);
    Widths(); FromLEBound(s[..8]);
    Ok(v, s1)
  }

  lemma RoundTrip8(v: Byte, rest: seq<Byte>)
    ensures Get8([v] + rest) == Ok(v, rest)
  {
    assert ([v] + rest)[1..] == rest;
  }

  lemma RoundTrip16(v: U16, rest: seq<Byte>)
    ensures Get16(LE(v, 2) + rest) == Ok(v, rest)
  {
    Widths();
    UIntRoundTrip(v, 2, rest);
  }

  lemma RoundTrip32(v: U32, rest: seq<Byte>)
    ensures Get32(LE(v, 4) + rest) == Ok(v, rest)
  {
    Widths();
    UIntRoundTrip(v, 4, rest);
  }

  lemma RoundTrip64(v: U64, rest: seq<Byte>)
    ensures Get64(LE(v, 8) + rest) == Ok(v, rest)
  {
    Widths();
    UIntRoundTrip(v, 8, rest);
  }

  lemma Stable8(s: seq<Byte>, more: seq<Byte>)
    requires Get8(s).Ok?
    ensures Get8(s + more) == Get8(s).Extended(more)
  {
    assert (s + more)[1..] == s[1..] + more;
  }

  lemma Stable16(s: seq<Byte>, more: seq<Byte>)
    requires Get16(s).Ok?
    ensures Get16(s + more) == Get16(s).Extended(more)
  {
    UIntStable(s, 2, more);
  }

  lemma Stable32(s: seq<Byte>, more: seq<Byte>)
    requires Get32(s).Ok?
    ensures Get32(s + more) == Get32(s).Extended(more)
  {
    UIntStable(s, 4, more);
  }

  lemma Stable64(s: seq<Byte>, more: seq<Byte>)
    requires Get64(s).Ok?
    ensures Get64(s + more) == Get64(s).Extended(more)
  {
    UIntStable(s, 8, more);
  }

  // ----- raw bytes

  function GetRaw(s: seq<Byte>, n: nat): (r: Parsed<seq<Byte>>) {
    if |s| < n then Fail else Ok(s[..n], s[n..])
  }

  lemma RawRoundTrip(b: seq<Byte>, rest: seq<Byte>)
    ensures GetRaw(b + rest, |b|) == Ok(b, rest)
  {
    assert (b + rest)[..|b|] == b && (b + rest)[|b|..] == rest;
  }

  lemma RawStable(s: seq<Byte>, n: nat, more: seq<Byte>)
    requires GetRaw(s, n).Ok?
    ensures GetRaw(s + more, n) == GetRaw(s, n).Extended(more)
  {
    assert (s + more)[..n] == s[..n] && (s + more)[n..] == s[n..] + more;
  }

  // ----- lists of a known length

  function PutMany<T>(put: T -> seq<Byte>, xs: seq<T>): (s: seq<Byte>) {
    if xs == [] then [] else put(xs[0]) + PutMany(put, xs[1..])
  }

  function GetMany<T>(get: seq<Byte> -> Parsed<T>, n: nat, s: seq<Byte>): (r: Parsed<seq<T>>)
    decreases n
  {
    if n == 0 then Ok([], s)
    else
      var (x, s1) :- get(s);
      var (xs, s2) :- GetMany(get, n - 1, s1);
      Ok([x] + xs, s2)
  }

  lemma {:induction false} ManyRoundTrip<T(!new)>(put: T -> seq<Byte>, get: seq<Byte> -> Parsed<T>, xs: seq<T>,
    rest: seq<Byte>)
    requires forall x, r :: x in xs ==> get(put(x) + r) == Ok(x, r)
    ensures GetMany(get, |xs|, PutMany(put, xs) + rest) == Ok(xs, rest)
  {
    if xs == [] {
      assert PutMany(put, xs) + rest == rest;
    } else {
      ManyRoundTrip(put, get, xs[1..], rest);
      assert xs[0] in xs;
      Regroup(put(xs[0]), PutMany(put, xs[1..]), rest);
      assert [xs[0]] + xs[1..] == xs;
    }
  }

  lemma {:induction false} ManyStable<T(!new)>(get: seq<Byte> -> Parsed<T>, ok: T -> bool, n: nat, s: seq<Byte>,
    more: seq<Byte>)
    requires GetMany(get, n, s).Ok?
    requires forall r, m :: get(r).Ok? ==> get(r + m) == get(r).Extended(m) && ok(get(r).value)
    ensures GetMany(get, n, s + more) == GetMany(get, n, s).Extended(more)
    ensures |GetMany(get, n, s).value| == n && forall x :: x in GetMany(get, n, s).value ==> ok(x)
    decreases n
  {
    if n == 0 {
    } else {
      var x := get(s);
      assert get(s + more) == x.Extended(more);
      ManyStable(get, ok, n - 1, x.rest, more);
    }
  }
}
