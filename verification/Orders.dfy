/**
 The size arithmetic of rust/src/mem.rs: `find_order` and `next_power_of_two`.
 */
module Orders {
  import opened Bits
  import opened Results

  const USIZE_MAX: nat := 0xFFFF_FFFF

  /** `usize::ilog2`: the position of the highest set bit. */
  function Ilog2(n: nat): nat
    requires n > 0
  {
    if n == 1 then 0 else 1 + Ilog2(n / 2)
  }

  function FindOrder(n: nat): nat
    requires n <= USIZE_MAX
  {
    if n == USIZE_MAX then 32 else Ilog2(n + 1)
  }

  /** `usize::trailing_zeros` */
  function TrailingZeros(n: nat): nat
  {
    if n == 0 then 32 else if n % 2 == 1 then 0 else 1 + TrailingZeros(n / 2)
  }

  ghost predicate IsPowerOfTwo(n: nat)
  {
    exists k :: n == Pow2(k)
  }

  /** `Ilog2` is pinned down by its two bounds. */
  lemma {:induction false} Ilog2Bounds(n: nat)
    requires n > 0
    ensures Pow2(Ilog2(n)) <= n < 2 * Pow2(Ilog2(n))
  {
    if n > 1 { Ilog2Bounds(n / 2); }
  }

  lemma Ilog2Unique(n: nat, k: nat)
    requires Pow2(k) <= n < 2 * Pow2(k)
    ensures Ilog2(n) == k
  {
    Ilog2Bounds(n);
    var j := Ilog2(n);
    if j < k { Pow2Monotone(j, k); }
    if k < j { Pow2Monotone(k, j); }
  }

  /** On a power of two from 2 upwards `find_order` is the exact base-2 logarithm. */
  lemma FindOrderOfPower(k: nat)
    requires 1 <= k <= 31
    ensures Pow2(k) < USIZE_MAX
    ensures FindOrder(Pow2(k)) == k
  {
    var p := Pow2(k);
    assert p <= 0x8000_0000 by {
      Pow2Monotone(k, 31);
      Pow2Constants();
    }
    assert p >= 2;
    Ilog2Unique(p + 1, k);
  }

  lemma Pow2Constants()
    ensures Pow2(10) == 1024 && Pow2(12) == 4096 && Pow2(20) == 0x10_0000
    ensures Pow2(22) == 0x40_0000 && Pow2(31) == 0x8000_0000 && Pow2(32) == WORD
  {
    assert Pow2(5) == 32;
    Pow2Sum(5, 5);
    Pow2Sum(10, 2);
    Pow2Sum(10, 10);
    Pow2Sum(20, 2);
    Pow2Sum(20, 10);
    Pow2Sum(30, 1);
    Pow2Sum(30, 2);
    assert Pow2(1) == 2 && Pow2(2) == 4;
  }

  lemma {:induction false} TrailingZerosOfPower(k: nat)
    ensures TrailingZeros(Pow2(k)) == k
  {
    if k > 0 { TrailingZerosOfPower(k - 1); }
  }

  // ------------------------------------------------------- next_power_of_two

  /** The s bits of x just below position m are all set. */
  ghost predicate TopOnes(x: nat, m: nat, s: nat)
  {
    x < Pow2(m) && forall j :: 0 <= j < m && m - s <= j ==> Bit(x, j) == 1
  }

  /** One `x |= x >> s` doubles the run of ones below the highest set bit. */
  lemma SmearStep(x: nat, m: nat, s: nat)
    requires TopOnes(x, m, s)
    ensures TopOnes(Or(x, Shr(x, s)), m, 2 * s)
  {
    var y := Or(x, Shr(x, s));
    ShrAtMost(x, s);
    OrBound(x, Shr(x, s), m);
    forall j | 0 <= j < m && m - 2 * s <= j
      ensures Bit(y, j) == 1
    {
      OrBit(x, Shr(x, s), j);
      ShrShr(x, s, j);
      if j < m - s {
        assert Bit(x, j + s) == 1;
      }
    }
  }

  /** Number of bits of x. */
  function BitLength(x: nat): nat
  {
    if x == 0 then 0 else 1 + Ilog2(x)
  }

  lemma BitLengthTop(x: nat)
    ensures TopOnes(x, BitLength(x), 1)
    ensures x > 0 ==> Pow2(BitLength(x) - 1) <= x
  {
    if x > 0 {
      Ilog2Bounds(x);
      var k := Ilog2(x);
      ShrIsDiv(x, k);
      DivUnique(x, Pow2(k), 1, x - Pow2(k));
    }
  }

  /**
   The rounding used for every request: the least power of two that is at least n,
   and `None` exactly when that power does not fit in a `usize`.
   */
  method NextPowerOfTwo(n: nat) returns (r: Option<nat>)
    requires n <= USIZE_MAX
    ensures r.None? <==> n > 0x8000_0000
    ensures r.Some? ==> IsPowerOfTwo(r.value) && n <= r.value <= 0x8000_0000
    ensures r.Some? ==> forall k: nat :: n <= Pow2(k) ==> r.value <= Pow2(k)
  {
    if n == 0 {
      assert 1 == Pow2(0);
      return Some(1);
    }
    if n > USIZE_MAX / 2 + 1 {
      return None;
    }
    var x := n - 1;
    ghost var m := BitLength(x);
    BitLengthTop(x);
    SmearStep(x, m, 1);
    x := Or(x, Shr(x, 1));
    SmearStep(x, m, 2);
    x := Or(x, Shr(x, 2));
    SmearStep(x, m, 4);
    x := Or(x, Shr(x, 4));
    SmearStep(x, m, 8);
    x := Or(x, Shr(x, 8));
    SmearStep(x, m, 16);
    x := Or(x, Shr(x, 16));
    assert m <= 31 by {
      Pow2Constants();
      if m > 31 { Pow2Monotone(31, m - 1); }
    }
    AllOnes(x, m);
    Pow2Constants();
    Pow2Monotone(m, 31);
    RoundsUpTo(n, m);
    return Some(x + 1);
  }

  lemma RoundsUpTo(n: nat, m: nat)
    requires n > 0 && m == BitLength(n - 1)
    ensures n <= Pow2(m)
    ensures forall k: nat :: n <= Pow2(k) ==> Pow2(m) <= Pow2(k)
  {
    BitLengthTop(n - 1);
    forall k: nat | n <= Pow2(k)
      ensures Pow2(m) <= Pow2(k)
    {
      if k < m { Pow2Monotone(k, m - 1); }
      Pow2Monotone(m, if k < m then m else k);
    }
  }
}
