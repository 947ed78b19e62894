/**
 Machine words as natural numbers.

 Both kernels run on 32-bit RISC-V, so a register or a `usize` is a natural
 number below `WORD`.  The shift and mask operators are defined bit by bit, and
 the lemmas below turn the particular uses the kernels make of them (page-table
 entries, buddy indexes, rounding up) into ordinary arithmetic.
 */
module Bits {

  const WORD: nat := 0x1_0000_0000

  const PAGE_SIZE: nat := 4096

  /** 2 to the power k, that is `1 << k`. */
  function Pow2(k: nat): (r: nat)
    ensures r >= 1
  {
    if k == 0 then 1 else 2 * Pow2(k - 1)
  }

  /** `x >> k` */
  function Shr(x: nat, k: nat): nat
    decreases k
  {
    if k == 0 then x else Shr(x / 2, k - 1)
  }

  /** `x << k`, in unbounded arithmetic. */
  function Shl(x: nat, k: nat): nat
    decreases k
  {
    if k == 0 then x else 2 * Shl(x, k - 1)
  }

  /** Bit j of x. */
  function Bit(x: nat, j: nat): nat
  {
    Shr(x, j) % 2
  }

  /** `x | y` */
  function Or(x: nat, y: nat): nat
    decreases x + y
  {
    if x == 0 && y == 0 then 0
    else 2 * Or(x / 2, y / 2) + (if x % 2 == 1 || y % 2 == 1 then 1 else 0)
  }

  /** `x & y` */
  function And(x: nat, y: nat): nat
    decreases x
  {
    if x == 0 then 0
    else 2 * And(x / 2, y / 2) + (if x % 2 == 1 && y % 2 == 1 then 1 else 0)
  }

  /** `x ^ y` */
  function Xor(x: nat, y: nat): nat
    decreases x + y
  {
    if x == 0 && y == 0 then 0
    else 2 * Xor(x / 2, y / 2) + (if x % 2 != y % 2 then 1 else 0)
  }

  // ---------------------------------------------------------------- powers

  lemma {:induction false} Pow2Sum(a: nat, b: nat)
    ensures Pow2(a + b) == Pow2(a) * Pow2(b)
  {
    if a == 0 {
    } else {
      Pow2Sum(a - 1, b);
      assert Pow2(a) * Pow2(b) == 2 * (Pow2(a - 1) * Pow2(b));
    }
  }

  lemma Pow2Next(k: nat)
    ensures Pow2(k + 1) == 2 * Pow2(k)
  {
  }

  lemma {:induction false} Pow2Monotone(a: nat, b: nat)
    requires a <= b
    ensures Pow2(a) <= Pow2(b)
    ensures a < b ==> 2 * Pow2(a) <= Pow2(b)
    decreases b
  {
    if a < b { Pow2Monotone(a, b - 1); }
  }

  lemma {:induction false} Pow2Injective(a: nat, b: nat)
    requires Pow2(a) == Pow2(b)
    ensures a == b
  {
    if a < b { Pow2Monotone(a, b); }
    if b < a { Pow2Monotone(b, a); }
  }

  // ---------------------------------------------------------------- shifts

  /** The low k bits of x. */
  function Low(x: nat, k: nat): nat
    decreases k
  {
    if k == 0 then 0 else 2 * Low(x / 2, k - 1) + x % 2
  }

  /** A number is its high part shifted up plus its low bits. */
  lemma {:induction false} ShrAndLow(x: nat, k: nat)
    ensures x == Shl(Shr(x, k), k) + Low(x, k)
    ensures Low(x, k) < Pow2(k)
    decreases k
  {
    if k > 0 { ShrAndLow(x / 2, k - 1); }
  }

  lemma ShrIsDiv(x: nat, k: nat)
    ensures Shr(x, k) == x / Pow2(k)
    ensures Low(x, k) == x % Pow2(k)
  {
    ShrAndLow(x, k);
    var q := Shr(x, k);
    ShlIsMul(q, k);
    DivUnique(x, Pow2(k), q, Low(x, k));
  }

  lemma {:induction false} MulAtLeast(d: nat, n: nat)
    requires n >= 1
    ensures d * n >= d
  {
    if n > 1 {
      MulAtLeast(d, n - 1);
      assert d * n == d * (n - 1) + d;
    }
  }

  /** Division is determined by a quotient and a remainder in range. */
  lemma DivUnique(x: nat, d: nat, q: nat, r: nat)
    requires r < d
    requires x == d * q + r || x == q * d + r
    ensures x / d == q && x % d == r
  {
    var q2 := x / d;
    var r2 := x % d;
    assert x == d * q2 + r2;
    assert d * (q2 - q) == d * q2 - d * q && d * (q - q2) == d * q - d * q2;
    if q < q2 {
      MulAtLeast(d, q2 - q);
    } else if q2 < q {
      MulAtLeast(d, q - q2);
    }
  }

  lemma {:induction false} ShrAtMost(x: nat, k: nat)
    ensures Shr(x, k) <= x
    decreases k
  {
    if k > 0 { ShrAtMost(x / 2, k - 1); }
  }

  lemma {:induction false} ShlIsMul(x: nat, k: nat)
    ensures Shl(x, k) == x * Pow2(k)
    decreases k
  {
    if k > 0 {
      ShlIsMul(x, k - 1);
      var p := Pow2(k - 1);
      assert 2 * (x * p) == x * (2 * p);
    }
  }

  lemma {:induction false} ShlSum(x: nat, y: nat, k: nat)
    ensures Shl(x + y, k) == Shl(x, k) + Shl(y, k)
    decreases k
  {
    if k > 0 { ShlSum(x, y, k - 1); }
  }

  lemma {:induction false} ShlOne(k: nat)
    ensures Shl(1, k) == Pow2(k) && Shl(0, k) == 0
  {
    if k > 0 { ShlOne(k - 1); }
  }

  lemma {:induction false} ShrShr(x: nat, s: nat, j: nat)
    ensures Shr(Shr(x, s), j) == Shr(x, s + j)
    decreases s
  {
    if s > 0 { ShrShr(x / 2, s - 1, j); }
  }

  // ------------------------------------------------------------ single bits

  lemma {:induction false} OrBit(x: nat, y: nat, j: nat)
    ensures Bit(Or(x, y), j) == 1 <==> Bit(x, j) == 1 || Bit(y, j) == 1
    decreases j
  {
    OrUnfold(x, y);
    hide Or;
    if j > 0 { OrBit(x / 2, y / 2, j - 1); }
  }

  lemma {:induction false} OrBound(x: nat, y: nat, m: nat)
    requires x < Pow2(m) && y < Pow2(m)
    ensures Or(x, y) < Pow2(m)
    decreases m
  {
    if m > 0 { OrBound(x / 2, y / 2, m - 1); }
  }

  /** A number below 2^m all of whose low m bits are set is 2^m - 1. */
  lemma {:induction false} AllOnes(x: nat, m: nat)
    requires x < Pow2(m)
    requires forall j :: 0 <= j < m ==> Bit(x, j) == 1
    ensures x == Pow2(m) - 1
    decreases m
  {
    if m > 0 {
      assert Bit(x, 0) == 1;
      forall j | 0 <= j < m - 1
        ensures Bit(x / 2, j) == 1
      {
        assert Bit(x, j + 1) == 1;
      }
      AllOnes(x / 2, m - 1);
    }
  }

  // ------------------------------------------------ the masks the kernels use

  lemma {:induction false} OrZero(x: nat)
    ensures Or(x, 0) == x && Or(0, x) == x
  {
    if x > 0 { OrZero(x / 2); }
  }

  /** The order of two or-ed masks does not matter. */
  lemma {:induction false} OrSwap(x: nat, y: nat, z: nat)
    ensures Or(Or(x, y), z) == Or(Or(x, z), y)
    decreases x + y + z
  {
    if x == 0 && y == 0 && z == 0 {
    } else {
      OrSwap(x / 2, y / 2, z / 2);
      OrUnfold(x, y);
      OrUnfold(x, z);
      OrUnfold(Or(x, y), z);
      OrUnfold(Or(x, z), y);
    }
  }

  lemma OrUnfold(x: nat, y: nat)
    ensures Or(x, y) / 2 == Or(x / 2, y / 2)
    ensures Or(x, y) % 2 == 1 <==> x % 2 == 1 || y % 2 == 1
    ensures Or(x, y) == 2 * Or(x / 2, y / 2) + (if x % 2 == 1 || y % 2 == 1 then 1 else 0)
  {
  }

  /** Or-ing a value below 2^k into a multiple of 2^k is addition. */
  lemma {:induction false} OrDisjoint(a: nat, f: nat, k: nat)
    requires f < Pow2(k)
    ensures Or(a * Pow2(k), f) == a * Pow2(k) + f
    decreases k
  {
    var x := a * Pow2(k);
    if k == 0 {
      assert f == 0 && x == a;
      OrZero(a);
    } else {
      var y := a * Pow2(k - 1);
      assert x == 2 * y;
      OrDisjoint(a, f / 2, k - 1);
      assert x / 2 == y && x % 2 == 0;
    }
  }

  /** Setting bit 0. */
  lemma OrOne(f: nat)
    ensures Or(f, 1) == if f % 2 == 1 then f else f + 1
  {
    OrZero(f / 2);
  }

  /** Masking with 2^k - 1 keeps the low k bits ... */
  lemma {:induction false} AndMask(x: nat, k: nat)
    ensures And(x, Pow2(k) - 1) == Low(x, k)
    decreases k
  {
    if k == 0 {
      AndZero(x);
    } else {
      AndMask(x / 2, k - 1);
    }
  }

  lemma {:induction false} AndZero(x: nat)
    ensures And(x, 0) == 0
  {
    if x > 0 { AndZero(x / 2); }
  }

  /** Testing bit 0. */
  lemma AndOne(x: nat)
    ensures And(x, 1) == x % 2
  {
    AndZero(x / 2);
  }

  /** Flipping bit 0 moves to the other member of the pair {2j, 2j+1}. */
  lemma XorOne(p: nat)
    ensures Xor(p, 1) == if p % 2 == 0 then p + 1 else p - 1
  {
    XorZero(p / 2);
  }

  lemma {:induction false} XorZero(p: nat)
    ensures Xor(p, 0) == p
  {
    if p > 0 { XorZero(p / 2); }
  }
}
