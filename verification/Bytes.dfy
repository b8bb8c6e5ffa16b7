/** Little-endian bytes and the arithmetic behind shifts and masks. */
module Bytes {

  type Byte = b: int | 0 <= b < 256

  const TWO_16: nat := 0x1_0000
  const TWO_32: nat := 0x1_0000_0000
  const TWO_63: nat := 0x8000_0000_0000_0000
  const TWO_64: nat := 0x1_0000_0000_0000_0000

  lemma Regroup<T>(a: seq<T>, b: seq<T>, c: seq<T>)
    ensures (a + b) + c == a + (b + c)
  {
  }

  function Pow2(n: nat): (r: nat)
    ensures r > 0
  {
    if n == 0 then 1 else 2 * Pow2(n - 1)
  }

  lemma {:induction false} Pow2Adds(m: nat, n: nat)
    ensures Pow2(m + n) == Pow2(m) * Pow2(n)
  {
    if m == 0 {
    } else {
      Pow2Adds(m - 1, n);
      Doubled(Pow2(m - 1), Pow2(n));
      assert m + n - 1 == (m - 1) + n;
    }
  }

  lemma Doubled(a: nat, b: nat)
    ensures 2 * (a * b) == (2 * a) * b
  {
  }

  /** The ones among the bits of `v`. */
  function Popcount(v: nat): (n: nat) {
    if v == 0 then 0 else v % 2 + Popcount(v / 2)
  }

  /** The lowest byte and what is above it. */
  lemma LowByte(b: nat, q: nat)
    ensures (b + 256 * q) % 256 == b % 256 && (b + 256 * q) / 256 == b / 256 + q
  {
  }

  /** The ones among the bits count as they should. */
  lemma PopcountExamples()
    ensures Popcount(0) == 0 && Popcount(5) == 2 && Popcount(8) == 1
  {
  }

  /** One more byte. */
  lemma Pow2Byte(n: nat)
    requires n > 0
    ensures Pow2(8 * n) == 256 * Pow2(8 * (n - 1))
  {
    assert 8 * n == 8 + 8 * (n - 1);
    Pow2Adds(8, 8 * (n - 1));
    Pow2Of8();
  }

  lemma Pow2Of8()
    ensures Pow2(8) == 256
  {
    assert Pow2(4) == 16;
    Pow2Adds(4, 4);
  }

  lemma Widths()
    ensures Pow2(8) == 256 && Pow2(16) == TWO_16 && Pow2(32) == TWO_32 && Pow2(64) == TWO_64
  {
    hide Pow2;
    Pow2Of8();
    Pow2Adds(8, 8);
    assert Pow2(16) == TWO_16;
    Pow2Adds(16, 16);
    assert Pow2(32) == TWO_32;
    Pow2Adds(32, 32);
  }

  /** The low `n` bytes of `v`, lowest first. */
  function LE(v: nat, n: nat): (s: seq<Byte>)
    ensures |s| == n
  {
    if n == 0 then [] else [v % 256] + LE(v / 256, n - 1)
  }

  function FromLE(s: seq<Byte>): (v: nat) {
    if s == [] then 0 else s[0] + 256 * FromLE(s[1..])
  }

  lemma {:induction false} FromLEBound(s: seq<Byte>)
    ensures FromLE(s) < Pow2(8 * |s|)
  {
    if s == [] {
    } else {
      FromLEBound(s[1..]);
      Pow2Byte(|s|);
    }
  }

  /** Reading back what was written. */
  lemma {:induction false} FromLEofLE(v: nat, n: nat)
    requires v < Pow2(8 * n)
    ensures FromLE(LE(v, n)) == v
  {
    if n == 0 {
    } else {
      Pow2Byte(n);
      FromLEofLE(v / 256, n - 1);
      assert LE(v, n)[1..] == LE(v / 256, n - 1);
    }
  }

  /** Writing what was read gives the same bytes. */
  lemma {:induction false} LEofFromLE(s: seq<Byte>)
    ensures LE(FromLE(s), |s|) == s
  {
    if s == [] {
    } else {
      LEofFromLE(s[1..]);
      LowByte(s[0], FromLE(s[1..]));
      assert [s[0]] + s[1..] == s;
    }
  }

  lemma TimesByte(p: nat, high: nat, n: nat)
    requires n > 0 && p == Pow2(8 * (n - 1))
    ensures Pow2(8 * n) * high == 256 * (p * high)
  {
    Pow2Byte(n);
    assert (256 * p) * high == 256 * (p * high);
  }

  /** Only the low `n` bytes are written. */
  lemma {:induction false} LETruncates(v: nat, n: nat, high: nat)
    ensures LE(v + Pow2(8 * n) * high, n) == LE(v, n)
  {
    if n == 0 {
    } else {
      var p := Pow2(8 * (n - 1));
      TimesByte(p, high, n);
      LowByte(v, p * high);
      LETruncates(v / 256, n - 1, high);
    }
  }

  /** The top bit of the last byte is the top bit of the number. */
  lemma {:induction false} LETop(v: nat, n: nat)
    requires n > 0 && v < Pow2(8 * n)
    ensures LE(v, n)[n - 1] >= 128 <==> 2 * v >= Pow2(8 * n)
  {
    hide Pow2, LE;
    Pow2Byte(n);
    LEStep(v, n);
    if n <= 1 {
      NoPower();
    } else {
      Below(v, Pow2(8 * (n - 1)));
      LETop(v / 256, n - 1);
      EvenPower(8 * (n - 1));
      TopHalf(v, Pow2(8 * (n - 1) - 1));
    }
  }

  lemma NoPower()
    ensures Pow2(8 * 0) == 1
  {
  }

  lemma EvenPower(n: nat)
    requires n > 0
    ensures Pow2(n) == 2 * Pow2(n - 1)
  {
  }

  lemma LEStep(v: nat, n: nat)
    requires n > 0
    ensures LE(v, n) == [v % 256] + LE(v / 256, n - 1)
  {
  }

  lemma Below(v: nat, p: nat)
    requires v < 256 * p
    ensures v / 256 < p
  {
  }

  lemma TopHalf(v: nat, p: nat)
    ensures 2 * (v / 256) >= 2 * p <==> 2 * v >= 256 * (2 * p)
  {
  }
}
