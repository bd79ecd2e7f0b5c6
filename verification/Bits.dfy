/** Rounding an address up by masking its low bits. */
module Bits {
  import opened Wrappers

  const WORD := 0x1_0000_0000_0000_0000  // 2^64

  function Pow2(k: nat): (p: nat)
    ensures p > 0
  {
    if k == 0 then 1 else 2 * Pow2(k - 1)
  }

  predicate IsPow2(n: nat) {
    exists k: nat :: k < 64 && Pow2(k) == n
  }

  /** Bit by bit, the conjunction of two numbers. */
  function And(x: nat, y: nat): nat {
    if x == 0 || y == 0 then 0 else 2 * And(x / 2, y / 2) + (x % 2) * (y % 2)
  }

  /** All 64 bits flipped. */
  function Not(x: nat): nat
    requires x < WORD
  {
    WORD - 1 - x
  }

  /** `(addr + align - 1) & !(align - 1)`, unless the sum does not fit in 64 bits. */
  function AlignUp(addr: nat, align: nat): Option<nat>
    requires 0 < align < WORD
  {
    if addr + align - 1 >= WORD then None else Some(And(addr + align - 1, Not(align - 1)))
  }

  lemma {:induction false} AtLeastOnce(n: int, d: int)
    requires n >= 1 && d >= 0
    ensures n * d >= d
  {
  }

  lemma {:induction false} DivModUnique(x: nat, d: nat, q: nat, r: nat)
    requires x == q * d + r && r < d
    ensures x / d == q && x % d == r
  {
    var q', r' := x / d, x % d;
    assert x == q' * d + r';
    var n := q - q';
    assert n * d == q * d - q' * d == r' - r;
    if n >= 1 {
      AtLeastOnce(n, d);
    } else if n <= -1 {
      AtLeastOnce(-n, d);
    }
  }

  lemma {:induction false} ModDouble(x: nat, d: nat)
    requires d > 0
    ensures x % (2 * d) == 2 * (x / 2 % d) + x % 2
  {
    var q, r := x / 2 / d, x / 2 % d;
    assert x / 2 == q * d + r;
    assert x == q * (2 * d) + (2 * r + x % 2) by {
      assert q * (2 * d) == 2 * (q * d);
    }
    DivModUnique(x, 2 * d, q, 2 * r + x % 2);
  }

  /** Keeping the bits from `k` up to `n` takes off the remainder by 2^k. */
  lemma {:induction false} HighBits(x: nat, k: nat, n: nat)
    requires k <= n && x < Pow2(n)
    ensures Pow2(k) <= Pow2(n)
    ensures And(x, Pow2(n) - Pow2(k)) == x - x % Pow2(k)
    decreases n
  {
    if n > 0 {
      var mask := Pow2(n) - Pow2(k);
      if k == 0 {
        HighBits(x / 2, 0, n - 1);
        assert mask / 2 == Pow2(n - 1) - 1 && mask % 2 == 1;
        assert And(x / 2, mask / 2) == x / 2;
      } else {
        HighBits(x / 2, k - 1, n - 1);
        assert mask == 2 * (Pow2(n - 1) - Pow2(k - 1));
        ModDouble(x, Pow2(k - 1));
        assert And(x / 2, mask / 2) == x / 2 - x / 2 % Pow2(k - 1);
      }
    }
  }

  lemma {:induction false} Pow2Sum(a: nat, b: nat)
    ensures Pow2(a + b) == Pow2(a) * Pow2(b)
    decreases a
  {
    if a > 0 {
      Pow2Sum(a - 1, b);
      assert Pow2(a) * Pow2(b) == 2 * (Pow2(a - 1) * Pow2(b));
    }
  }

  lemma {:induction false} PowersOfTwo()
    ensures Pow2(3) == 8 && Pow2(64) == WORD
  {
    assert Pow2(4) == 16;
    Pow2Sum(4, 4);
    Pow2Sum(8, 8);
    Pow2Sum(16, 16);
    Pow2Sum(32, 32);
  }

  lemma {:induction false} MultipleBelow(x: nat, d: nat)
    requires d > 0
    ensures x % d < d && (x - x % d) % d == 0
  {
    DivModUnique(x - x % d, d, x / d, 0);
  }

  /** Rounding up gives the least multiple of a power of two that is not below the address. */
  lemma {:induction false} AlignUpIsLeast(addr: nat, align: nat)
    requires IsPow2(align) && align < WORD && addr + align - 1 < WORD
    ensures var a := AlignUp(addr, align).value;
            a % align == 0 && addr <= a < addr + align
  {
    hide And, Pow2;
    var k :| k < 64 && Pow2(k) == align;
    PowersOfTwo();
    var x := addr + align - 1;
    HighBits(x, k, 64);
    MultipleBelow(x, align);
    assert Not(align - 1) == Pow2(64) - Pow2(k);
    assert AlignUp(addr, align) == Some(x - x % align);
  }

  /** The least multiple of `d` that is not below `x`, by division. */
  function Ceiling(x: nat, d: nat): (c: nat)
    requires d > 0
  {
    (x + d - 1) / d * d
  }

  lemma {:induction false} AlignUpIsCeiling(addr: nat, align: nat)
    requires IsPow2(align) && align < WORD && addr + align - 1 < WORD
    ensures AlignUp(addr, align) == Some(Ceiling(addr, align))
  {
    hide And, Pow2;
    AlignUpIsLeast(addr, align);
    var a := AlignUp(addr, align).value;
    assert a == a / align * align;
    DivModUnique(addr + align - 1, align, a / align, addr + align - 1 - a);
  }

  lemma {:induction false} CeilingOfMultiple(x: nat, d: nat)
    requires d > 0 && x % d == 0
    ensures Ceiling(x, d) == x
  {
    assert x == x / d * d;
    DivModUnique(x + d - 1, d, x / d, d - 1);
  }
}
