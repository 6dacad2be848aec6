/**
 Bitwise operations on 64-bit words, as arithmetic on the binary digits.
 */
module Bits {
  import opened Words

  function Pow2(k: nat): (p: nat)
    ensures p >= 1
  {
    if k == 0 then 1 else 2 * Pow2(k - 1)
  }

  /** Bitwise and: digit by digit, lowest first. */
  function And(x: nat, y: nat): nat {
    if x == 0 || y == 0 then 0
    else 2 * And(x / 2, y / 2) + (if x % 2 == 1 && y % 2 == 1 then 1 else 0)
  }

  /** Bitwise complement of a 64-bit word. */
  function Not(y: U64): U64 {
    TWO_64 - 1 - y
  }

  lemma Pow2At64()
    ensures Pow2(64) == TWO_64
  {
    assert Pow2(4) == 16;
    Pow2Add(4, 4);
    Pow2Add(8, 8);
    Pow2Add(16, 16);
    Pow2Add(32, 32);
  }

  lemma {:induction false} Pow2Add(a: nat, b: nat)
    ensures Pow2(a + b) == Pow2(a) * Pow2(b)
  {
    if a > 0 {
      Pow2Add(a - 1, b);
      assert Pow2(a + b) == 2 * Pow2(a - 1 + b);
    }
  }

  lemma {:induction false} Pow2Mono(a: nat, b: nat)
    requires a <= b
    ensures Pow2(a) <= Pow2(b)
  {
    if a < b { Pow2Mono(a, b - 1); }
  }

  lemma MulGap(a: int, d: nat)
    ensures a >= 1 ==> a * d >= d
    ensures a <= -1 ==> a * d <= 0 - d
  {
  }

  lemma ModUnique(x: nat, d: nat, q: nat, r: nat)
    requires d > 0 && r < d && x == q * d + r
    ensures x % d == r
  {
    var q', r' := x / d, x % d;
    assert (q' - q) * d == r - r';
    MulGap(q' - q, d);
  }

  /** Dropping the lowest digit halves both the number and the modulus. */
  lemma ModDouble(x: nat, m: nat)
    requires m > 0
    ensures x % (2 * m) == 2 * ((x / 2) % m) + x % 2
  {
    var h := x / 2;
    var q, r := h / m, h % m;
    assert h == q * m + r;
    assert x == 2 * (q * m + r) + x % 2;
    assert 2 * (q * m) == q * (2 * m);
    ModUnique(x, 2 * m, q, 2 * r + x % 2);
  }

  lemma RoundDouble(x: nat, m: nat)
    requires m > 0
    ensures x - x % (2 * m) == 2 * (x / 2 - (x / 2) % m)
  {
    ModDouble(x, m);
  }

  lemma {:induction false} AndOnes(x: nat, w: nat)
    requires x < Pow2(w)
    ensures And(x, Pow2(w) - 1) == x
  {
    if x != 0 {
      assert w > 0;
      assert (Pow2(w) - 1) / 2 == Pow2(w - 1) - 1;
      AndOnes(x / 2, w - 1);
    }
  }

  lemma {:induction false} AndEven(x: nat, y: nat)
    ensures And(x, 2 * y) == 2 * And(x / 2, y)
  {
    assert (2 * y) / 2 == y && (2 * y) % 2 == 0;
  }

  /** `x` with its k lowest digits cleared. */
  function Clear(x: nat, k: nat): nat {
    if k == 0 then x else 2 * Clear(x / 2, k - 1)
  }

  lemma {:induction false} AndClears(x: nat, w: nat, k: nat)
    requires x < Pow2(w) && k <= w
    ensures Pow2(w) >= Pow2(k) && And(x, Pow2(w) - Pow2(k)) == Clear(x, k)
  {
    Pow2Mono(k, w);
    if k == 0 {
      AndOnes(x, w);
    } else {
      AndClears(x / 2, w - 1, k - 1);
      AndEven(x, Pow2(w - 1) - Pow2(k - 1));
      assert Pow2(w) - Pow2(k) == 2 * (Pow2(w - 1) - Pow2(k - 1));
    }
  }

  lemma {:induction false} ClearRounds(x: nat, k: nat)
    ensures Clear(x, k) == x - x % Pow2(k)
  {
    if k > 0 {
      ClearRounds(x / 2, k - 1);
      RoundDouble(x, Pow2(k - 1));
    }
  }

  /** Masking off the k lowest digits of a w-digit number rounds it down to a multiple of 2^k. */
  lemma {:induction false} AndHighMask(x: nat, w: nat, k: nat)
    requires x < Pow2(w) && k <= w
    ensures Pow2(w) >= Pow2(k)
    ensures And(x, Pow2(w) - Pow2(k)) == x - x % Pow2(k)
  {
    AndClears(x, w, k);
    ClearRounds(x, k);
  }

  /** `r` is the least multiple of `align` at or above `x`. */
  predicate LeastMultiple(r: int, x: int, align: int)
    requires align > 0
  {
    r % align == 0 && x <= r < x + align
  }

  /** There is only one least multiple. */
  lemma LeastMultipleUnique(x: nat, align: nat)
    requires align > 0
    ensures forall a, b :: LeastMultiple(a, x, align) && LeastMultiple(b, x, align) ==> a == b
  {
    forall a: int, b: int | LeastMultiple(a, x, align) && LeastMultiple(b, x, align)
      ensures a == b
    {
      var p, q := a / align, b / align;
      assert a == p * align && b == q * align;
      assert (p - q) * align == a - b;
      MulGap(p - q, align);
    }
  }

  /** The mask expression `(x + (align - 1)) & !(align - 1)` on 64-bit words, with `align == 2^k`. */
  function MaskAlign(x: U64, k: nat): nat
    requires Pow2(k) <= TWO_64
  {
    And((x + (Pow2(k) - 1)) % TWO_64, Not(Pow2(k) - 1))
  }

  lemma RoundUp(x: nat, align: nat, r: int)
    requires align > 0 && r == x + (align - 1) - (x + (align - 1)) % align
    ensures LeastMultiple(r, x, align)
  {
    var y := x + (align - 1);
    var q, m := y / align, y % align;
    assert y == q * align + m;
    ModUnique(r, align, q, 0);
  }

  /** On a sum that fits, the mask rounds down to a multiple of `2^k`. */
  lemma MaskRoundsDown(y: U64, k: nat)
    requires k < 64
    ensures Pow2(k) <= TWO_64 && And(y, Not(Pow2(k) - 1)) == y - y % Pow2(k)
  {
    Pow2At64();
    AndHighMask(y, 64, k);
  }

  lemma Pow2Fits(k: nat)
    requires k <= 64
    ensures Pow2(k) <= TWO_64
  {
    Pow2At64();
    Pow2Mono(k, 64);
  }

  lemma WordMod(y: U64)
    ensures y % TWO_64 == y
  {
  }

  lemma MaskAlignValue(x: U64, k: nat)
    requires k < 64 && x + (Pow2(k) - 1) < TWO_64
    ensures Pow2(k) <= TWO_64
    ensures MaskAlign(x, k) == x + (Pow2(k) - 1) - (x + (Pow2(k) - 1)) % Pow2(k)
  {
    Pow2Fits(k);
    MaskRoundsDown(x + (Pow2(k) - 1), k);
    WordMod(x + (Pow2(k) - 1));
  }

  lemma MaskAlignFits(x: U64, k: nat)
    requires k < 64 && x + (Pow2(k) - 1) < TWO_64
    ensures Pow2(k) <= TWO_64 && LeastMultiple(MaskAlign(x, k), x, Pow2(k))
  {
    MaskAlignValue(x, k);
    RoundUp(x, Pow2(k), MaskAlign(x, k));
  }

  lemma MaskAlignWraps(x: U64, k: nat)
    requires k < 64 && x + (Pow2(k) - 1) >= TWO_64
    ensures Pow2(k) <= TWO_64 && MaskAlign(x, k) == 0
  {
    Pow2Fits(k);
    var y: U64 := x + (Pow2(k) - 1) - TWO_64;
    MaskRoundsDown(y, k);
    ModUnique(y, Pow2(k), 0, y);
    assert (x + (Pow2(k) - 1)) % TWO_64 == y;
  }

  /** The mask expression rounds up correctly if and only if its sum fits in 64
      bits; when the sum wraps, the result is 0. */
  lemma MaskAlignExact(x: U64, k: nat)
    requires k < 64 && x > 0
    ensures Pow2(k) <= TWO_64
    ensures LeastMultiple(MaskAlign(x, k), x, Pow2(k)) <==> x + (Pow2(k) - 1) < TWO_64
    ensures x + (Pow2(k) - 1) >= TWO_64 ==> MaskAlign(x, k) == 0
  {
    if x + (Pow2(k) - 1) < TWO_64 { MaskAlignFits(x, k); } else { MaskAlignWraps(x, k); }
  }
}
