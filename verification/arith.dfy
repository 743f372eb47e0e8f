/** Integer helpers for the size arithmetic of the allocating types:
    powers of two, rounding up to an alignment, and
    `usize::next_power_of_two`. */
module Arith {

  function Pow2(k: nat): (p: nat)
    ensures p >= 1
  {
    if k == 0 then 1 else 2 * Pow2(k - 1)
  }

  /** `usize::ilog2`: the exponent of the highest set bit. */
  function ILog2(x: nat): (k: nat)
    requires x >= 1
    ensures Pow2(k) <= x < 2 * Pow2(k)
  {
    if x == 1 then 0 else 1 + ILog2(x / 2)
  }

  predicate IsPowerOfTwo(x: nat) {
    x >= 1 && Pow2(ILog2(x)) == x
  }

  lemma {:induction false} Pow2IsPowerOfTwo(k: nat)
    ensures ILog2(Pow2(k)) == k
    ensures IsPowerOfTwo(Pow2(k))
  {
    if k > 0 {
      assert Pow2(k) / 2 == Pow2(k - 1);
      Pow2IsPowerOfTwo(k - 1);
    }
  }

  /** A power of two of at least 2 is twice a power of two. */
  lemma HalfOfPowerOfTwo(x: nat)
    requires IsPowerOfTwo(x) && x >= 2
    ensures IsPowerOfTwo(x / 2) && x == 2 * (x / 2)
  {
    var k := ILog2(x);
    assert k >= 1;
    assert Pow2(k) == 2 * Pow2(k - 1);
    assert x / 2 == Pow2(k - 1);
    Pow2IsPowerOfTwo(k - 1);
  }

  /** `x` rounded up to the next multiple of `align` (the
      `if x % align != 0 { x += align - x % align }` idiom). */
  function RoundUp(x: nat, align: nat): (r: nat)
    requires align >= 1
    ensures r % align == 0
    ensures x <= r < x + align
  {
    var q := x / align;
    assert x == q * align + x % align;
    if x % align == 0 then x
    else
      MultipleMod(q + 1, align);
      x + (align - x % align)
  }

  lemma MultipleMod(q: nat, align: nat)
    requires align >= 1
    ensures (q * align) % align == 0
  {
    var y := q * align;
    var t, m := y / align, y % align;
    assert y == t * align + m;
    assert (q - t) * align == m;
    assert (t - q) * align == -m;
    if q - t >= 1 {
      MulAtLeast(q - t, align);
    } else if q - t <= -1 {
      MulAtLeast(t - q, align);
    }
  }

  lemma MulAtLeast(d: int, a: int)
    requires d >= 1 && a >= 1
    ensures d * a >= a
  {
  }

  /** `usize::next_power_of_two`: the least power of two that is at
      least `x` (1 for 0). */
  function NextPowerOfTwo(x: nat): (r: nat)
    ensures IsPowerOfTwo(r) && x <= r
    ensures r == 1 || r / 2 < x
  {
    NextPowerOfTwoFrom(x, 0)
  }

  function NextPowerOfTwoFrom(x: nat, k: nat): (r: nat)
    requires k == 0 || Pow2(k - 1) < x
    ensures IsPowerOfTwo(r) && x <= r
    ensures r == 1 || r / 2 < x
    decreases x - Pow2(k)
  {
    Pow2IsPowerOfTwo(k);
    if Pow2(k) >= x then Pow2(k) else NextPowerOfTwoFrom(x, k + 1)
  }

  lemma {:induction false} Pow2Monotone(i: nat, j: nat)
    requires i < j
    ensures Pow2(i) < Pow2(j)
    decreases j
  {
    if i < j - 1 {
      Pow2Monotone(i, j - 1);
    }
  }

  /** A power of two is its own `next_power_of_two`. */
  lemma NextPowerOfTwoOfPowerOfTwo(k: nat)
    ensures NextPowerOfTwo(Pow2(k)) == Pow2(k)
  {
    NextPowerOfTwoFromPow2(k, 0);
  }

  lemma {:induction false} NextPowerOfTwoFromPow2(k: nat, j: nat)
    requires j <= k
    requires j == 0 || Pow2(j - 1) < Pow2(k)
    ensures NextPowerOfTwoFrom(Pow2(k), j) == Pow2(k)
    decreases k - j
  {
    if j < k {
      Pow2Monotone(j, k);
      NextPowerOfTwoFromPow2(k, j + 1);
    }
  }

  /** The least power of two at or above `x` is below `2 * x`. */
  lemma NextPowerOfTwoBelowDouble(x: nat)
    requires x >= 1
    ensures NextPowerOfTwo(x) < 2 * x
  {
    var r := NextPowerOfTwo(x);
    if r >= 2 {
      HalfOfPowerOfTwo(r);
    }
  }
}
