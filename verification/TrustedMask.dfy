/** Who took part in a round: a byte per trusted node, packed into the bits of a block and unpacked again. */
module TrustedMask {
  import opened Bytes

  /** The byte of a node that did not take part; any other byte means that it did. */
  const ABSENT: Byte := 255

  /** A 64-bit word has no room for more. */
  const MAX_NODES: nat := 64

  /** More trusted nodes than this are refused wherever a round is received. */
  const MAX_TRUSTED_NODES: nat := 25

  function Bit(b: Byte): (v: nat) {
    if b == ABSENT then 0 else 1
  }

  function Low(mask: seq<Byte>): (m: seq<Byte>)
    ensures |m| <= MAX_NODES && m <= mask
  {
    if |mask| <= MAX_NODES then mask else mask[..MAX_NODES]
  }

  /** A bit per node, the first node lowest. */
  function Bits(mask: seq<Byte>): (v: nat)
    ensures v < Pow2(|mask|)
  {
    if mask == [] then 0 else Bit(mask[0]) + 2 * Bits(mask[1..])
  }

  /** A byte per bit. */
  function Unpacked(n: nat, v: nat): (mask: seq<Byte>)
    ensures |mask| == n
  {
    if n == 0 then [] else [if v % 2 == 1 then 0 else ABSENT] + Unpacked(n - 1, v / 2)
  }

  /** How many took part. */
  function TrustedSize(mask: seq<Byte>): (n: nat)
    ensures n <= |mask|
  {
    if mask == [] then 0 else Bit(mask[0]) + TrustedSize(mask[1..])
  }

  /** The same nodes took part. */
  predicate SameNodes(a: seq<Byte>, b: seq<Byte>) {
    |a| == |b| && forall i :: 0 <= i < |a| ==> (a[i] == ABSENT <==> b[i] == ABSENT)
  }

  /** Nobody took part. */
  predicate Nobody(mask: seq<Byte>) {
    forall i :: 0 <= i < |mask| ==> mask[i] == ABSENT
  }

  // ----- packing

  /** The lowest bit and what is above it. */
  lemma LowBit(b: nat, q: nat)
    requires b < 2
    ensures (b + 2 * q) % 2 == b && (b + 2 * q) / 2 == q
  {
  }

  lemma Unfolded(mask: seq<Byte>)
    requires mask != []
    ensures Bits(mask) == Bit(mask[0]) + 2 * Bits(mask[1..])
  {
  }

  lemma Halves(mask: seq<Byte>)
    requires mask != []
    ensures Bits(mask) % 2 == Bit(mask[0]) && Bits(mask) / 2 == Bits(mask[1..])
  {
    hide Bits, Pow2;
    Unfolded(mask);
    LowBit(Bit(mask[0]), Bits(mask[1..]));
  }

  lemma {:induction false} BitsGrow(mask: seq<Byte>, b: Byte)
    ensures Bits(mask + [b]) == Bits(mask) + Bit(b) * Pow2(|mask|)
  {
    if mask == [] {
      assert [] + [b] == [b] && [b][1..] == [];
    } else {
      assert (mask + [b])[1..] == mask[1..] + [b];
      BitsGrow(mask[1..], b);
    }
  }

  lemma {:induction false} Pow2Grows(m: nat, n: nat)
    requires m <= n
    ensures Pow2(m) <= Pow2(n)
    decreases n - m
  {
    if m >= n {
    } else {
      Pow2Grows(m + 1, n);
    }
  }

  /** The weight of node `i` in a 64-bit word. */
  function Weight(i: nat): (w: nat) {
    if i < MAX_NODES then Pow2(i) else 0
  }

  lemma WeightDoubles(i: nat)
    ensures Weight(i) * 2 % TWO_64 == Weight(i + 1)
  {
    Widths();
    if i + 1 < MAX_NODES {
      Pow2Grows(i + 2, 64);
    }
  }

  /** One more node: its weight is added when it took part and the word has room for it. */
  lemma LowGrows(mask: seq<Byte>, b: Byte)
    ensures Bits(Low(mask + [b])) == Bits(Low(mask)) + Bit(b) * Weight(|mask|) < TWO_64
  {
    Widths();
    Pow2Grows(|Low(mask + [b])|, 64);
    if |mask| < MAX_NODES {
      BitsGrow(mask, b);
    } else {
      assert Low(mask + [b]) == Low(mask);
    }
  }

  method MaskToBits(mask: seq<Byte>) returns (value: nat)
    ensures value == Bits(Low(mask)) < TWO_64
  {
    hide Bits, Low, Weight, Bit, Pow2;
    var addition := 1;
    value := 0;
    Start();
    for i := 0 to |mask|
      invariant value == Bits(Low(mask[..i])) < TWO_64 && addition == Weight(i)
    {
      assert mask[..i + 1] == mask[..i] + [mask[i]];
      LowGrows(mask[..i], mask[i]);
      WeightDoubles(i);
      Unwrapped(value, addition, mask[i], Bits(Low(mask[..i + 1])));
      if mask[i] != ABSENT {
        value := (value + addition) % TWO_64;
      }
      addition := addition * 2 % TWO_64;
    }
    assert mask[..|mask|] == mask;
  }

  lemma Unwrapped(value: nat, weight: nat, b: Byte, sum: nat)
    requires sum == value + Bit(b) * weight < TWO_64
    ensures (if b != ABSENT then (value + weight) % TWO_64 else value) == sum
  {
    if b != ABSENT {
      assert Bit(b) * weight == weight;
    }
  }

  lemma Start()
    ensures Bits(Low([])) == 0 && Weight(0) == 1
  {
  }

  // ----- unpacking

  method BitsToMask(size: Byte, value: nat) returns (mask: seq<Byte>)
    requires value < TWO_64
    ensures mask == Unpacked(size, value)
  {
    mask := [];
    var valCopy := value;
    for i := 0 to size
      invariant mask + Unpacked(size - i, valCopy) == Unpacked(size, value)
    {
      ghost var before, rest := mask, Unpacked(size - i - 1, valCopy / 2);
      mask := mask + [if valCopy % 2 == 1 then 0 else ABSENT];
      Regroup(before, [if valCopy % 2 == 1 then 0 else ABSENT], rest);
      valCopy := valCopy / 2;
    }
  }

  /** The nodes of `mask` and nobody else. */
  predicate Holds(u: seq<Byte>, mask: seq<Byte>) {
    && |mask| <= |u|
    && (forall i :: 0 <= i < |mask| ==> (u[i] == ABSENT <==> mask[i] == ABSENT))
    && (forall i :: |mask| <= i < |u| ==> u[i] == ABSENT)
  }

  lemma HoldsOneMore(b: Byte, u: seq<Byte>, mask: seq<Byte>)
    requires mask != [] && (b == ABSENT <==> mask[0] == ABSENT) && Holds(u, mask[1..])
    ensures Holds([b] + u, mask)
  {
    assert forall i :: 0 < i <= |u| ==> ([b] + u)[i] == u[i - 1];
    assert forall i :: 0 < i < |mask| ==> mask[i] == mask[1..][i - 1];
  }

  /** Room for every bit: the same nodes come back, and nobody else. */
  lemma {:induction false} UnpackedBits(mask: seq<Byte>, n: nat)
    requires |mask| <= n
    ensures Holds(Unpacked(n, Bits(mask)), mask)
  {
    hide Holds, Unpacked, Pow2;
    if mask == [] {
      UnpackedZero(n);
    } else {
      UnpackedBits(mask[1..], n - 1);
      UnpackedStep(mask, n);
      HoldsOneMore(if mask[0] == ABSENT then ABSENT else 0, Unpacked(n - 1, Bits(mask[1..])), mask);
    }
  }

  lemma UnpackedStep(mask: seq<Byte>, n: nat)
    requires mask != [] && n > 0
    ensures Unpacked(n, Bits(mask))
      == [if mask[0] == ABSENT then ABSENT else 0] + Unpacked(n - 1, Bits(mask[1..]))
  {
    hide Bits, Pow2;
    Halves(mask);
  }

  lemma {:induction false} UnpackedZero(n: nat)
    ensures Holds(Unpacked(n, 0), [])
  {
    if n == 0 {
    } else {
      UnpackedZero(n - 1);
    }
  }

  /** A block keeps the length of the mask in one byte and its bits in 64. The nodes that took part can be read back
      from it if and only if the length fits and nobody beyond the sixty-fourth took part. */
  lemma RestoredIff(mask: seq<Byte>)
    ensures SameNodes(Unpacked(|mask| % 256, Bits(Low(mask))), mask)
      <==> |mask| < 256 && (|mask| > MAX_NODES ==> Nobody(mask[MAX_NODES..]))
  {
    hide Unpacked, Bits, Nobody, SameNodes, Holds;
    if |mask| < 256 {
      var low, u := Low(mask), Unpacked(|mask|, Bits(Low(mask)));
      UnpackedBits(low, |mask|);
      Beyond(mask, |low|);
      SplitNodes(u, mask, |low|);
    } else {
      OtherLength(Unpacked(|mask| % 256, Bits(Low(mask))), mask);
    }
  }

  /** In every round the node accepts, the block tells who took part, and as many signatures are expected. */
  lemma TrustedComeBack(mask: seq<Byte>)
    requires |mask| <= MAX_TRUSTED_NODES
    ensures SameNodes(Unpacked(|mask| % 256, Bits(Low(mask))), mask)
    ensures Popcount(Bits(Low(mask))) == TrustedSize(mask)
  {
    hide Unpacked, Bits, Nobody, SameNodes, Popcount, TrustedSize;
    RestoredIff(mask);
    CountedIff(mask);
  }

  /** The packing taken alone: sixty-five nodes take part, and the last one is not in the word. */
  lemma SixtyFifthIsLost(mask: seq<Byte>)
    requires mask == seq(65, _ => 0)
    ensures !SameNodes(Unpacked(65, Bits(Low(mask))), mask)
  {
    hide Unpacked, Bits, SameNodes;
    RestoredIff(mask);
    assert mask[MAX_NODES..][0] == 0;
  }

  lemma Beyond(mask: seq<Byte>, k: nat)
    requires k == |Low(mask)|
    ensures mask[..k] == Low(mask)
    ensures Nobody(mask[k..]) <==> (|mask| > MAX_NODES ==> Nobody(mask[MAX_NODES..]))
  {
  }

  lemma OtherLength(a: seq<Byte>, b: seq<Byte>)
    requires |a| != |b|
    ensures !SameNodes(a, b)
  {
  }

  lemma {:induction false} TrustedSizeAdds(a: seq<Byte>, b: seq<Byte>)
    ensures TrustedSize(a + b) == TrustedSize(a) + TrustedSize(b)
  {
    if a == [] {
      assert a + b == b;
    } else {
      assert (a + b)[1..] == a[1..] + b;
      TrustedSizeAdds(a[1..], b);
    }
  }

  lemma {:induction false} NobodyIff(mask: seq<Byte>)
    ensures TrustedSize(mask) == 0 <==> Nobody(mask)
  {
    if mask == [] {
    } else {
      NobodyIff(mask[1..]);
      assert forall i :: 0 < i < |mask| ==> mask[i] == mask[1..][i - 1];
      assert forall i :: 0 <= i < |mask| - 1 ==> mask[1..][i] == mask[i + 1];
    }
  }

  lemma PopcountHalves(v: nat)
    ensures Popcount(v) == v % 2 + Popcount(v / 2)
  {
  }

  lemma {:induction false} PopcountBits(mask: seq<Byte>)
    ensures Popcount(Bits(mask)) == TrustedSize(mask)
  {
    if mask == [] {
    } else {
      PopcountBits(mask[1..]);
      PopcountStep(mask);
    }
  }

  lemma PopcountStep(mask: seq<Byte>)
    requires mask != []
    ensures Popcount(Bits(mask)) == Bit(mask[0]) + Popcount(Bits(mask[1..]))
  {
    hide Bits, Popcount;
    Halves(mask);
    PopcountHalves(Bits(mask));
  }

  /** A reader of the block expects as many signatures as it has bits. Everybody who took part is counted if and only
      if nobody beyond the sixty-fourth did. */
  lemma CountedIff(mask: seq<Byte>)
    ensures Popcount(Bits(Low(mask))) == TrustedSize(mask) <==> (|mask| > MAX_NODES ==> Nobody(mask[MAX_NODES..]))
  {
    hide Popcount, Bits, TrustedSize, Nobody;
    var low := Low(mask);
    PopcountBits(low);
    assert mask == low + mask[|low|..];
    TrustedSizeAdds(low, mask[|low|..]);
    NobodyIff(mask[|low|..]);
    Beyond(mask, |low|);
  }

  lemma SplitNodes(u: seq<Byte>, mask: seq<Byte>, k: nat)
    requires |u| == |mask| && k <= |u| && Holds(u, mask[..k])
    ensures SameNodes(u, mask) <==> Nobody(mask[k..])
  {
    assert forall i :: 0 <= i < k ==> mask[i] == mask[..k][i];
    assert forall i :: k <= i < |mask| ==> mask[i] == mask[k..][i - k];
    assert forall j :: 0 <= j < |mask| - k ==> mask[k..][j] == mask[k + j];
  }
}
