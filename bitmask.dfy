/**
 * The bit-mask helpers of the `methods` package: `UintPowOfTwo`,
 * `BitsToMask` (a list of bit positions to a uint64 mask) and `MaskToBits`
 * (a mask back to the ascending list of its set positions).
 */
module BitMask {
  import opened GoStrconv
  import Slices

  function Pow2(n: nat): (r: nat)
    ensures r >= 1
  {
    if n == 0 then 1 else 2 * Pow2(n - 1)
  }

  function Min(a: nat, b: nat): nat {
    if a < b then a else b
  }

  /** Bit `i` of `m`, counting from the least significant bit. */
  predicate TestBit(m: nat, i: nat) {
    if i == 0 then m % 2 == 1 else TestBit(m / 2, i - 1)
  }

  /** Go's `mask&(1<<i) > 0` on a uint64: `1<<i` is zero once `i` reaches 64. */
  predicate Bit(mask: Uint64, i: nat) {
    i < 64 && TestBit(mask, i)
  }

  // ---------------------------------------------------------------------------
  // Reference definitions

  /** The sum of `2^i` over the distinct positions `i < n` (and below 64) that occur in `bits`. */
  function MaskOf(bits: seq<int>, n: nat): nat
  {
    if n == 0 then 0
    else MaskOf(bits, n - 1) + (if n - 1 < 64 && n - 1 in bits then Pow2(n - 1) else 0)
  }

  /** The positions `i < n` whose bit is set in `mask`, ascending. */
  function BitsOf(mask: Uint64, n: nat): seq<int>
  {
    if n == 0 then [] else BitsOf(mask, n - 1) + (if Bit(mask, n - 1) then [n - 1] else [])
  }

  /** The positions `i < n` (and below 64) that occur in `bits`, ascending and each once. */
  function Selected(bits: seq<int>, n: nat): seq<int>
  {
    if n == 0 then [] else Selected(bits, n - 1) + (if n - 1 < 64 && n - 1 in bits then [n - 1] else [])
  }

  // ---------------------------------------------------------------------------
  // Arithmetic facts

  lemma {:induction false} Pow2Add(a: nat, b: nat)
    ensures Pow2(a + b) == Pow2(a) * Pow2(b)
  {
    if a > 0 {
      Pow2Add(a - 1, b);
    }
  }

  lemma {:induction false} Pow2Monotone(a: nat, b: nat)
    requires a <= b
    ensures Pow2(a) <= Pow2(b)
  {
    if a < b {
      Pow2Monotone(a, b - 1);
    }
  }

  lemma Pow2At64()
    ensures Pow2(64) == TWO_64
  {
    Pow2Add(4, 4);
    assert Pow2(8) == 0x100;
    Pow2Add(8, 8);
    assert Pow2(16) == 0x1_0000;
    Pow2Add(16, 16);
    assert Pow2(32) == 0x1_0000_0000;
    Pow2Add(32, 32);
  }

  /** Doubling in uint64 commutes with the wrap-around: doubling the wrapped value wraps to the wrapped double. */
  lemma DoubleWraps(x: nat)
    ensures (x % TWO_64 * 2) % TWO_64 == (2 * x) % TWO_64
  {
    var q, r := x / TWO_64, x % TWO_64;
    assert 2 * x == (2 * q) * TWO_64 + 2 * r;
    if 2 * r < TWO_64 {
      assert (2 * x) % TWO_64 == 2 * r;
    } else {
      assert 2 * x == (2 * q + 1) * TWO_64 + (2 * r - TWO_64);
      assert (2 * x) % TWO_64 == 2 * r - TWO_64;
    }
  }

  /** From 64 on, a power of two vanishes modulo 2^64. */
  lemma Pow2WrapsToZero(n: nat)
    requires n >= 64
    ensures Pow2(n) % TWO_64 == 0
  {
    Pow2Add(64, n - 64);
    Pow2At64();
    assert Pow2(n) == TWO_64 * Pow2(n - 64);
  }

  /** A value below `2^i` has bit `i` clear. */
  lemma {:induction false} TestBitAbove(m: nat, i: nat)
    requires m < Pow2(i)
    ensures !TestBit(m, i)
  {
    if i > 0 {
      TestBitAbove(m / 2, i - 1);
    }
  }

  /** Adding `2^k` (when `b`) on top of a value below `2^k` sets bit `k` to `b` and keeps the lower bits. */
  lemma {:induction false} AddHighBit(m: nat, b: bool, k: nat, i: nat)
    requires m < Pow2(k) && i <= k
    ensures TestBit(m + (if b then Pow2(k) else 0), i) == if i == k then b else TestBit(m, i)
  {
    var v := m + (if b then Pow2(k) else 0);
    if i == 0 {
      if k == 0 {
        assert m == 0;
      } else {
        assert Pow2(k) == 2 * Pow2(k - 1);
      }
    } else {
      assert Pow2(k) == 2 * Pow2(k - 1);
      assert v / 2 == m / 2 + (if b then Pow2(k - 1) else 0);
      AddHighBit(m / 2, b, k - 1, i - 1);
    }
  }

  // ---------------------------------------------------------------------------
  // Operations

  /**
   * `UintPowOfTwo`: 1 for `p == 0`, 2 for `p == 1` and, because the doubling
   * loop then never runs, also 2 for every negative `p`; otherwise `2^p`
   * computed by repeated uint64 doubling.
   */
  method UintPowOfTwo(p: int) returns (res: Uint64)
    ensures p == 0 ==> res == 1
    ensures p < 0 ==> res == 2
    ensures p > 0 ==> res == Pow2(p) % TWO_64
  {
    if p == 0 {
      return 1;
    }
    if p == 1 {
      return 2;
    }
    res := 2;
    var i := 1;
    while i < p
      invariant 1 <= i && (p > 1 ==> i <= p) && (p <= 1 ==> i == 1)
      invariant res == Pow2(i) % TWO_64
    {
      DoubleWraps(Pow2(i));
      res := (res * 2) % TWO_64;
      i := i + 1;
    }
  }

  /** `BitsToMask`: adds `UintPowOfTwo(i)` for each `i < bitSize` found in `bits`. */
  method BitsToMask(bits: seq<int>, bitSize: int) returns (mask: Uint64)
    ensures mask == MaskOf(bits, if bitSize < 0 then 0 else bitSize)
  {
    mask := 0;
    var i := 0;
    while i < bitSize
      invariant 0 <= i <= (if bitSize < 0 then 0 else bitSize)
      invariant mask == MaskOf(bits, i)
    {
      MaskStep(bits, i);
      var found := Slices.InArray(i, bits);
      if found {
        var pw := UintPowOfTwo(i);
        mask := (mask + pw) % TWO_64;
      }
      i := i + 1;
    }
  }

  /** `MaskToBits`: appends each `i < bitSize` whose bit is set in `mask`. */
  method MaskToBits(mask: Uint64, bitSize: int) returns (bits: seq<int>)
    ensures bits == BitsOf(mask, if bitSize < 0 then 0 else bitSize)
  {
    bits := [];
    var i := 0;
    while i < bitSize
      invariant 0 <= i <= (if bitSize < 0 then 0 else bitSize)
      invariant bits == BitsOf(mask, i)
    {
      if Bit(mask, i) {
        bits := bits + [i];
      }
      i := i + 1;
    }
  }

  // ---------------------------------------------------------------------------
  // Properties

  /** `UintPowOfTwo` does not wrap below 64. */
  lemma PowOfTwoExact(p: nat)
    requires p < 64
    ensures Pow2(p) < TWO_64 && Pow2(p) % TWO_64 == Pow2(p)
  {
    Pow2Monotone(p + 1, 64);
    Pow2At64();
  }

  /** One step of `BitsToMask`: adding the wrapped power of position `i` to the mask of the positions below `i`. */
  lemma MaskStep(bits: seq<int>, i: nat)
    ensures MaskOf(bits, i) < TWO_64
    ensures (MaskOf(bits, i) + (if i in bits then Pow2(i) % TWO_64 else 0)) % TWO_64 == MaskOf(bits, i + 1)
  {
    MaskOfBound(bits, i);
    MaskOfBound(bits, i + 1);
    Pow2Monotone(Min(i + 1, 64), 64);
    Pow2At64();
    if i < 64 {
      PowOfTwoExact(i);
    } else {
      Pow2WrapsToZero(i);
    }
  }

  /** The mask of the first `n` positions stays below `2^min(n, 64)`, so the uint64 sum never wraps. */
  lemma {:induction false} MaskOfBound(bits: seq<int>, n: nat)
    ensures MaskOf(bits, n) < Pow2(Min(n, 64))
  {
    if n > 0 {
      MaskOfBound(bits, n - 1);
    }
  }

  /** Bit `i` of `MaskOf(bits, n)` is set exactly when `i < n` and `i` occurs in `bits`. */
  lemma {:induction false} MaskOfBit(bits: seq<int>, n: nat, i: nat)
    requires i < 64
    ensures MaskOf(bits, n) < TWO_64
    ensures Bit(MaskOf(bits, n), i) <==> i < n && i in bits
  {
    MaskOfBound(bits, n);
    Pow2Monotone(Min(n, 64), 64);
    Pow2At64();
    if n == 0 {
      TestBitAbove(0, i);
    } else {
      var k := n - 1;
      MaskOfBound(bits, k);
      if k < 64 {
        assert MaskOf(bits, n) == MaskOf(bits, k) + (if k in bits then Pow2(k) else 0);
        if i <= k {
          AddHighBit(MaskOf(bits, k), k in bits, k, i);
          if i < k {
            MaskOfBit(bits, k, i);
          }
        } else {
          Pow2Monotone(n, i);
          TestBitAbove(MaskOf(bits, n), i);
        }
      } else {
        MaskOfBit(bits, k, i);
      }
    }
  }

  /** Reading the bits of a mask built from `bits` gives back `Selected(bits, m)` for every prefix. */
  lemma {:induction false} BitsOfMaskPrefix(bits: seq<int>, n: nat, m: nat)
    requires m <= n
    ensures MaskOf(bits, n) < TWO_64
    ensures BitsOf(MaskOf(bits, n), m) == Selected(bits, m)
  {
    MaskOfBit(bits, n, 0);
    if m > 0 {
      BitsOfMaskPrefix(bits, n, m - 1);
      if m - 1 < 64 {
        MaskOfBit(bits, n, m - 1);
      }
    }
  }

  /** `MaskToBits(BitsToMask(bits, n), n)` is the ascending list of distinct positions of `bits` below `n`. */
  lemma MaskRoundTrip(bits: seq<int>, n: nat)
    ensures MaskOf(bits, n) < TWO_64
    ensures BitsOf(MaskOf(bits, n), n) == Selected(bits, n)
  {
    BitsOfMaskPrefix(bits, n, n);
  }

  /** `Selected(bits, n)` is strictly ascending and holds exactly the positions of `bits` in `[0, min(n, 64))`. */
  lemma {:induction false} SelectedSpec(bits: seq<int>, n: nat)
    ensures forall i, j | 0 <= i < j < |Selected(bits, n)| :: Selected(bits, n)[i] < Selected(bits, n)[j]
    ensures forall x :: x in Selected(bits, n) <==> 0 <= x < n && x < 64 && x in bits
  {
    if n > 0 {
      var prev := Selected(bits, n - 1);
      var r := Selected(bits, n);
      SelectedSpec(bits, n - 1);
      forall i, j | 0 <= i < j < |r| ensures r[i] < r[j] {
        if j == |prev| {
          assert r[i] == prev[i] && prev[i] in prev;
        }
      }
    }
  }
}
