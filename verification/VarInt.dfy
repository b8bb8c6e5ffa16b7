/** The variable-length code for 64-bit integers: the number of low one bits in the first byte says how many bytes
    follow, and the rest is the value in two's complement, cut to the width that still holds it. */
module VarInt {
  import opened Bytes
  import opened Options

  /** 2^n, 256^n and 2^(7(n+1)) for the shifts that occur. */
  const POWERS: seq<nat> := [1, 2, 4, 8, 16, 32, 64, 128, 256]
  const BYTES: seq<nat> := [1, 0x100, 0x1_0000, 0x100_0000, 0x1_0000_0000, 0x100_0000_0000, 0x1_0000_0000_0000,
    0x100_0000_0000_0000]
  const PAYLOAD: seq<nat> := [0x80, 0x4000, 0x20_0000, 0x1000_0000, 0x8_0000_0000, 0x400_0000_0000,
    0x2_0000_0000_0000, 0x100_0000_0000_0000]

  /** How often each payload goes into 2^64. */
  const SIGNS: seq<nat> := [0x200_0000_0000_0000, 0x4_0000_0000_0000, 0x800_0000_0000, 0x10_0000_0000, 0x2000_0000,
    0x40_0000, 0x8000, 0x100]

  /** How many binary digits `c` has. */
  function Width(c: nat): (r: nat) {
    if c == 0 then 0 else 1 + Width(c / 2)
  }

  /** Bytes after the first. The width counts a sign bit; zero counts as the shortest. */
  function ExtraBytes(value: nat): (n: nat)
    requires value < TWO_64
    ensures n <= 8
  {
    var copy := if value >= TWO_63 then TWO_64 - 1 - value else value;
    var bits := if Width(copy) + 1 < 7 then 7 else Width(copy) + 1;
    if bits < 57 then (bits - 1) / 7 else 8
  }

  /** `value` shifted left past the marker and cut to a byte, with the marker of `n` ones below it. */
  function First(value: nat, n: nat): (b: Byte)
    requires n <= 7
  {
    var b := (value % POWERS[7 - n]) * POWERS[n + 1] + (POWERS[n] - 1);
    assert b < 256 by {
      assert n == 0 || n == 1 || n == 2 || n == 3 || n == 4 || n == 5 || n == 6 || n == 7;
    }
    b
  }

  function Encode(value: nat): (s: seq<Byte>)
    requires value < TWO_64
  {
    var n := ExtraBytes(value);
    if n == 8 then [255] + LE(value, 8) else [First(value, n)] + LE(value / POWERS[7 - n], n)
  }

  function TrailingOnes(b: nat): (n: nat) {
    if b % 2 == 1 then 1 + TrailingOnes(b / 2) else 0
  }

  /** The value and how many bytes were consumed, or None when the buffer is too short. */
  function Decode(s: seq<Byte>): (r: Option<(nat, nat)>) {
    if s == [] then None
    else
      var n := TrailingOnes(s[0]);
      if n + 1 > |s| then None
      else
        var raw := FromLE(s[1..n + 1]);
        if n >= 8 then Some((raw, n + 1))
        else
          var v := raw * POWERS[7 - n] + s[0] / POWERS[n + 1];
          if s[n] >= 128 then Some((v + (TWO_64 - PAYLOAD[n]), n + 1)) else Some((v, n + 1))
  }

  lemma {:induction false} WidthIsLeast(c: nat, k: nat)
    ensures Width(c) <= k <==> c < Pow2(k)
  {
    if c == 0 || k == 0 {
    } else {
      WidthIsLeast(c / 2, k - 1);
    }
  }

  lemma BytesAreTable(n: nat)
    requires n <= 7
    ensures Pow2(8 * n) == BYTES[n]
  {
    if n > 0 {
      BytesAreTable(n - 1);
      Pow2Byte(n);
    }
  }

  lemma PowersDouble(n: nat)
    requires n <= 7
    ensures POWERS[n + 1] == 2 * POWERS[n] && POWERS[n] == Pow2(n)
  {
    if n > 0 {
      PowersDouble(n - 1);
    }
  }

  /** The marker and the payload bits next to it can be read back. */
  lemma MarkerIsReadable(y: nat, n: nat)
    requires n <= 7
    ensures var b := y * POWERS[n + 1] + (POWERS[n] - 1); TrailingOnes(b) == n && b / POWERS[n + 1] == y
  {
    PowersDouble(n);
    TrailingMarker(y, n, POWERS[n]);
    QuotientIs(y * POWERS[n + 1] + (POWERS[n] - 1), POWERS[n + 1], y, POWERS[n] - 1);
  }

  lemma {:induction false} TrailingMarker(y: nat, n: nat, p: nat)
    requires p == Pow2(n)
    ensures TrailingOnes(y * (2 * p) + (p - 1)) == n
  {
    if n == 0 {
    } else {
      TrailingMarker(y, n - 1, Pow2(n - 1));
      OddStep(y, p, Pow2(n - 1));
    }
  }

  lemma OddStep(y: nat, p: nat, q: nat)
    requires p == 2 * q && q > 0
    ensures TrailingOnes(y * (2 * p) + (p - 1)) == 1 + TrailingOnes(y * p + (q - 1))
  {
    OneMoreOne(y * p + (q - 1));
    assert y * (2 * p) + (p - 1) == 2 * (y * p + (q - 1)) + 1;
  }

  lemma OneMoreOne(z: nat)
    ensures TrailingOnes(2 * z + 1) == 1 + TrailingOnes(z)
  {
  }

  lemma QuotientIs(v: nat, m: nat, q: nat, r: nat)
    requires m > 0 && v == m * q + r && r < m
    ensures v / m == q
  {
    var d := v / m - q;
    var s := v % m;
    assert v == m * (v / m) + s;
    assert m * (v / m) - m * q == m * d;
    assert m * d == r - s;
    assert d >= 1 ==> m * d >= m * 1;
    assert d <= -1 ==> m * d <= m * -1;
  }

  lemma PayloadIsTable(n: nat)
    requires n <= 7
    ensures Pow2(7 * (n + 1)) == PAYLOAD[n] && Pow2(7 * n + 6) * 2 == PAYLOAD[n]
    ensures POWERS[7 - n] * BYTES[n] == PAYLOAD[n]
  {
    assert Pow2(7) == 128 by {
      assert Pow2(3) == 8 && Pow2(4) == 16;
      Pow2Adds(3, 4);
    }
    if n > 0 {
      PayloadIsTable(n - 1);
      Pow2Adds(7, 7 * n);
    }
    assert 7 * (n + 1) == 7 * n + 6 + 1;
  }

  /** `value` in two's complement needs no more than 7(n+1) bits. */
  ghost predicate FitsIn(value: nat, n: nat) {
    n >= 8 || 2 * value < PAYLOAD[n] || 2 * value >= 2 * TWO_64 - PAYLOAD[n]
  }

  /** The encoder picks the least number of bytes that holds the value. */
  lemma ExtraBytesIsLeast(value: nat, n: nat)
    requires value < TWO_64
    ensures ExtraBytes(value) <= n <==> FitsIn(value, n)
  {
    if n <= 7 {
      var copy := if value >= TWO_63 then TWO_64 - 1 - value else value;
      WidthIsLeast(copy, 7 * n + 6);
      PayloadIsTable(n);
    }
  }

  lemma NoMultiple(m: nat, high: nat)
    requires m > 0 && m * high < m
    ensures high == 0
  {
    assert high >= 1 ==> m * high >= m * 1;
  }

  lemma Distributes(m: nat, k: nat, high: nat)
    ensures m * k - m * high == m * (k - high)
  {
  }

  lemma OneMultiple(m: nat, d: int)
    requires m > 0 && 0 < m * d < 2 * m
    ensures d == 1 && m * d == m
  {
    assert d <= 0 ==> m * d <= 0;
    assert d >= 2 ==> m * d >= m * 2;
  }

  /** A value that fits in the payload `m` is its remainder by `m`, less a sign. */
  lemma SignRestores(value: nat, m: nat, k: nat, high: nat, x: nat)
    requires m > 0 && m * k == TWO_64 && value < TWO_64
    requires value == m * high + x && x < m
    requires 2 * value < m || 2 * value >= 2 * TWO_64 - m
    ensures 2 * x >= m <==> 2 * value >= m
    ensures value == x + if 2 * x >= m then TWO_64 - m else 0
  {
    if 2 * value < m {
      NoMultiple(m, high);
    } else {
      var d := k - high;
      Distributes(m, k, high);
      OneMultiple(m, d);
    }
  }

  /** A number cut into its low part, `b` middle values and the rest. */
  lemma CutInThree(value: nat, p: nat, b: nat)
    requires p > 0 && b > 0
    ensures var mid, high := (value / p) % b, (value / p) / b;
            value / p == mid + b * high && value == (p * b) * high + (mid * p + value % p) &&
              mid * p + value % p < p * b
  {
    var q, low := value / p, value % p;
    var mid, high := q % b, q / b;
    assert value == p * q + low;
    assert q == b * high + mid;
    assert p * (b * high + mid) == (p * b) * high + p * mid;
    assert p * mid <= p * (b - 1);
    assert p * (b - 1) == p * b - p;
  }

  /** The top bit of the whole is the top bit of the middle part. */
  lemma TopBit(p: nat, b: nat, mid: nat, low: nat)
    requires low < p && b % 2 == 0
    ensures 2 * (mid * p + low) >= p * b <==> 2 * mid >= b
  {
    if 2 * mid >= b {
      assert p * (2 * mid) >= p * b;
    } else {
      assert 2 * mid <= b - 2;
      assert p * (2 * mid) <= p * (b - 2);
      assert p * (b - 2) == p * b - 2 * p;
    }
    assert p * (2 * mid) == 2 * (mid * p);
  }

  lemma SignsFillUp(n: nat)
    requires n <= 7
    ensures PAYLOAD[n] * SIGNS[n] == TWO_64 && (n > 0 ==> BYTES[n] % 2 == 0)
  {
    assert n == 0 || n == 1 || n == 2 || n == 3 || n == 4 || n == 5 || n == 6 || n == 7;
  }

  /** Low bits, middle bytes and sign give the value back. */
  lemma PayloadRestores(value: nat, n: nat, p: nat, b: nat, m: nat)
    requires value < TWO_64 && n <= 7 && FitsIn(value, n) && p == POWERS[7 - n] && b == BYTES[n] && m == PAYLOAD[n]
    ensures p > 0 && b > 0
    ensures var mid, low := (value / p) % b, value % p;
            && value / p == mid + b * ((value / p) / b)
            && value == mid * p + low + (if 2 * (mid * p + low) >= m then TWO_64 - m else 0)
            && (n > 0 ==> (2 * (mid * p + low) >= m <==> 2 * mid >= b))
            && (n == 0 ==> mid == 0 && m == p == 128)
  {
    PayloadIsTable(n);
    SignsFillUp(n);
    CutInThree(value, p, b);
    var mid, low, high := (value / p) % b, value % p, (value / p) / b;
    SignRestores(value, m, SIGNS[n], high, mid * p + low);
    if n > 0 {
      TopBit(p, b, mid, low);
    }
  }

  lemma LongRoundTrip(value: nat, rest: seq<Byte>)
    requires value < TWO_64
    ensures Decode([255] + LE(value, 8) + rest) == Some((value, 9))
  {
    var s := [255] + LE(value, 8) + rest;
    assert TrailingOnes(255) == 8 by {
      assert TrailingOnes(15) == 4;
    }
    assert s[1..9] == LE(value, 8);
    Widths();
    FromLEofLE(value, 8);
  }

  /** What the decoder makes of a marker, `n` bytes and anything after. */
  lemma ShortDecodes(low: nat, mid: nat, n: nat, first: Byte, s: seq<Byte>)
    requires n <= 7 && low < POWERS[7 - n] && mid < BYTES[n] && first == low * POWERS[n + 1] + (POWERS[n] - 1)
    requires [first] + LE(mid, n) <= s
    ensures Decode(s).Some? && Decode(s).value.1 == n + 1
    ensures var v := mid * POWERS[7 - n] + low;
            Decode(s).value.0 == v + if s[n] >= 128 then TWO_64 - PAYLOAD[n] else 0
    ensures s[n] >= 128 <==> if n == 0 then 2 * low >= 128 else 2 * mid >= BYTES[n]
  {
    MarkerIsReadable(low, n);
    BytesAreTable(n);
    FromLEofLE(mid, n);
    assert s[1..n + 1] == LE(mid, n);
    if n > 0 {
      LETop(mid, n);
      assert s[n] == LE(mid, n)[n - 1];
    }
  }

  lemma TailBytes(v: nat, n: nat, b: nat)
    requires n <= 7 && b == BYTES[n]
    ensures b > 0 && LE(v, n) == LE(v % b, n)
  {
    BytesAreTable(n);
    CutInThree(v, 1, b);
    LETruncates(v % b, n, v / b);
  }

  lemma ShortRoundTrip(value: nat, n: nat, rest: seq<Byte>)
    requires value < TWO_64 && n <= 7 && FitsIn(value, n)
    ensures Decode([First(value, n)] + LE(value / POWERS[7 - n], n) + rest) == Some((value, n + 1))
  {
    hide Decode, LE;
    var p, b, m := POWERS[7 - n], BYTES[n], PAYLOAD[n];
    var s := [First(value, n)] + LE(value / p, n) + rest;
    TailBytes(value / p, n, b);
    var mid, low := (value / p) % b, value % p;
    assert [First(value, n)] + LE(mid, n) <= s;
    ShortDecodes(low, mid, n, First(value, n), s);
    PayloadRestores(value, n, p, b, m);
  }

  /** Decoding undoes encoding for every 64-bit value and consumes exactly the bytes written, whatever follows. */
  lemma RoundTrip(value: nat, rest: seq<Byte>)
    requires value < TWO_64
    ensures Decode(Encode(value) + rest) == Some((value, |Encode(value)|))
  {
    var n := ExtraBytes(value);
    if n == 8 {
      LongRoundTrip(value, rest);
    } else {
      ExtraBytesIsLeast(value, n);
      ShortRoundTrip(value, n, rest);
    }
  }

  /** A buffer that stops short of an encoding is not decoded. */
  lemma PrefixIsRejected(value: nat, s: seq<Byte>)
    requires value < TWO_64 && s < Encode(value)
    ensures Decode(s) == None
  {
    RoundTrip(value, []);
    assert Encode(value) + [] == Encode(value);
    if s != [] {
      assert s[0] == Encode(value)[0];
    }
  }

  /** Whatever is decoded is a 64-bit value, and no encoding of it is longer than what was read: the encoder's
      output is the shortest byte string that decodes to its value. */
  lemma EncodingIsShortest(s: seq<Byte>)
    requires Decode(s).Some?
    ensures var (v, consumed) := Decode(s).value;
            1 <= consumed <= |s| && v < TWO_64 && |Encode(v)| <= consumed
  {
    var n := TrailingOnes(s[0]);
    FromLEBound(s[1..n + 1]);
    TrailingBound(s[0]);
    if n >= 8 {
      assert n == 8;
      Widths();
    } else {
      DecodedFits(s, n);
      ExtraBytesIsLeast(Decode(s).value.0, n);
    }
  }

  lemma TrailingBound(b: Byte)
    ensures TrailingOnes(b) <= 8
  {
    HalvesBound(b, 8);
  }

  lemma {:induction false} HalvesBound(b: nat, k: nat)
    requires b < Pow2(k)
    ensures TrailingOnes(b) <= k
  {
    if b % 2 != 1 {
    } else {
      HalvesBound(b / 2, k - 1);
    }
  }

  lemma LowIsSmall(b: Byte, n: nat)
    requires n <= 7
    ensures b / POWERS[n + 1] < POWERS[7 - n]
  {
    assert n == 0 || n == 1 || n == 2 || n == 3 || n == 4 || n == 5 || n == 6 || n == 7;
  }

  /** The sign bit of `n` bytes is the top bit of the payload they carry. */
  lemma SignIsTop(tail: seq<Byte>, n: nat, p: nat, b: nat, low: nat)
    requires 0 < n == |tail| <= 7 && p == POWERS[7 - n] && b == BYTES[n] && low < p
    ensures FromLE(tail) < b && (tail[n - 1] >= 128 <==> 2 * (FromLE(tail) * p + low) >= p * b)
  {
    BytesAreTable(n);
    FromLEBound(tail);
    LEofFromLE(tail);
    LETop(FromLE(tail), n);
    SignsFillUp(n);
    TopBit(p, b, FromLE(tail), low);
  }

  lemma FromNothing(s: seq<Byte>)
    requires s == []
    ensures FromLE(s) == 0
  {
  }

  lemma DecodedFits(s: seq<Byte>, n: nat)
    requires s != [] && n == TrailingOnes(s[0]) <= 7 && n + 1 <= |s|
    ensures Decode(s).value.0 < TWO_64 && FitsIn(Decode(s).value.0, n)
  {
    hide TrailingOnes, FromLE;
    var tail := s[1..n + 1];
    var low, mid := s[0] / POWERS[n + 1], FromLE(tail);
    var p, b, m := POWERS[7 - n], BYTES[n], PAYLOAD[n];
    LowIsSmall(s[0], n);
    PayloadIsTable(n);
    if n > 0 {
      SignIsTop(tail, n, p, b, low);
      assert s[n] == tail[n - 1];
    } else {
      FromNothing(tail);
    }
    PayloadBound(p, b, mid, low);
  }

  lemma PayloadBound(p: nat, b: nat, mid: nat, low: nat)
    requires low < p && mid < b
    ensures mid * p + low < p * b
  {
    assert mid * p <= (b - 1) * p;
    assert (b - 1) * p == p * b - p;
  }

  // ----- the code as it runs on buffers

  /** encode: returns the buffer and how many bytes were written. */
  method EncodeTo(value: nat) returns (buf: seq<Byte>, written: nat)
    requires value < TWO_64
    ensures buf == Encode(value) && written == |buf|
  {
    hide LE, First, Width;
    var copy := if value >= TWO_63 then TWO_64 - 1 - value else value;
    var bits := Width(copy) + 1;
    if bits < 7 {
      bits := 7;
    }
    var bytes, first, rest := 8, 255, value;
    if 57 > bits {
      bytes := (bits - 1) / 7;
      first := First(value, bytes);
      rest := value / POWERS[7 - bytes];
    }
    buf := [first];
    if 0 < bytes {
      buf := buf + LE(rest, bytes);
    }
    written := bytes + 1;
  }

  method CountMarker(first: Byte) returns (bytes: nat)
    ensures bytes == TrailingOnes(first)
  {
    bytes := 0;
    var mask := first;
    while mask % 2 != 0
      invariant bytes + TrailingOnes(mask) == TrailingOnes(first)
      decreases mask
    {
      bytes, mask := bytes + 1, mask / 2;
    }
  }

  /** decode: counts the marker bits in a loop; consumes nothing when the buffer is too short. */
  method DecodeFrom(buf: seq<Byte>) returns (consumed: nat, value: nat)
    ensures Decode(buf) == None ==> consumed == 0
    ensures Decode(buf).Some? ==> Decode(buf).value == (value, consumed)
  {
    hide FromLE, TrailingOnes;
    if |buf| < 1 {
      return 0, 0;
    }
    var bytes := CountMarker(buf[0]);
    if bytes + 1 > |buf| {
      return 0, 0;
    }
    var val := FromLE(buf[1..bytes + 1]);
    if 8 > bytes {
      val := val * POWERS[7 - bytes] + buf[0] / POWERS[bytes + 1];
      if buf[bytes] >= 128 {
        val := val + (TWO_64 - PAYLOAD[bytes]);
      }
    }
    return bytes + 1, val;
  }

  /** Encodings the format has to produce: small numbers take one byte with the number above a zero bit, negative ones
      are sign-extended, and each one bit at the bottom of the first byte announces another byte. */
  lemma KnownEncodings()
    ensures Encode(0) == [0x00] && Encode(1) == [0x02] && Encode(TWO_64 - 1) == [0xFE]
    ensures Encode(127) == [0xFD, 0x01] && Encode(TWO_64 - 128) == [0x01, 0xFE] && Encode(255) == [0xFD, 0x03]
  {
    KnownShort();
    KnownLong();
  }

  lemma SmallWidths()
    ensures Width(0) == 0 && Width(1) == 1 && Width(127) == 7 && Width(255) == 8
  {
    assert Width(3) == 2 && Width(7) == 3 && Width(15) == 4 && Width(31) == 5 && Width(63) == 6;
  }

  lemma KnownShort()
    ensures Encode(0) == [0x00] && Encode(1) == [0x02] && Encode(TWO_64 - 1) == [0xFE]
  {
    hide Width;
    SmallWidths();
    assert ExtraBytes(0) == ExtraBytes(1) == ExtraBytes(TWO_64 - 1) == 0;
    assert First(0, 0) == 0 && First(1, 0) == 2 && First(TWO_64 - 1, 0) == 0xFE;
  }

  lemma KnownLong()
    ensures Encode(127) == [0xFD, 0x01] && Encode(TWO_64 - 128) == [0x01, 0xFE] && Encode(255) == [0xFD, 0x03]
  {
    hide Width;
    SmallWidths();
    assert ExtraBytes(127) == ExtraBytes(255) == ExtraBytes(TWO_64 - 128) == 1;
    assert First(127, 1) == 0xFD && First(255, 1) == 0xFD && First(TWO_64 - 128, 1) == 0x01;
    assert 127 / POWERS[6] == 1 && 255 / POWERS[6] == 3 && (TWO_64 - 128) / POWERS[6] % 256 == 0xFE;
    OneByte(1);
    OneByte(3);
    OneByte((TWO_64 - 128) / POWERS[6]);
  }

  lemma OneByte(v: nat)
    ensures LE(v, 1) == [v % 256]
  {
    assert LE(v / 256, 0) == [];
  }
}
