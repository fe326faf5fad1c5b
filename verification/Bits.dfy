/** Unsigned machine words: the bitwise operators of C on natural numbers, and what the
    masks of the page-table code select. */
module Bits {

  const TWO_64: nat := 0x1_0000_0000_0000_0000

  type u64 = x: nat | x < TWO_64

  function Pow2(n: nat): (r: nat)
    ensures r > 0
  {
    if n == 0 then 1 else 2 * Pow2(n - 1)
  }

  /** Bitwise and of two unsigned words. */
  function And(x: nat, y: nat): nat {
    if x == 0 || y == 0 then 0
    else (if x % 2 == 1 && y % 2 == 1 then 1 else 0) + 2 * And(x / 2, y / 2)
  }

  /** Bitwise or of two unsigned words. */
  function Or(x: nat, y: nat): nat {
    if x == 0 then y
    else if y == 0 then x
    else (if x % 2 == 1 || y % 2 == 1 then 1 else 0) + 2 * Or(x / 2, y / 2)
  }

  /** 64-bit unsigned addition and subtraction, which wrap around. */
  function Add64(x: u64, y: u64): u64 {
    (x + y) % TWO_64
  }

  function Sub64(x: u64, y: u64): u64 {
    (x - y) % TWO_64
  }

  lemma {:induction false} Pow2Adds(a: nat, b: nat)
    ensures Pow2(a + b) == Pow2(a) * Pow2(b)
  {
    if a == 0 {
    } else {
      Pow2Adds(a - 1, b);
    }
  }

  /** Masking with n consecutive ones at the bottom keeps the remainder modulo 2^n. */
  lemma {:induction false} AndLow(x: nat, n: nat)
    ensures And(x, Pow2(n) - 1) == x % Pow2(n)
  {
    if n == 0 {
    } else if x == 0 {
    } else {
      AndLow(x / 2, n - 1);
      var p := Pow2(n - 1);
      assert Pow2(n) - 1 == 2 * (p - 1) + 1;
      assert (Pow2(n) - 1) / 2 == p - 1;
      ModHalves(x, p);
    }
  }

  lemma ModHalves(x: nat, p: nat)
    requires p > 0
    ensures x % (2 * p) == 2 * ((x / 2) % p) + x % 2
  {
    var q, r := (x / 2) / p, (x / 2) % p;
    assert x / 2 == q * p + r;
    assert x == 2 * (q * p + r) + x % 2;
    assert x == q * (2 * p) + (2 * r + x % 2);
    RemainderIs(x, 2 * p, q, 2 * r + x % 2);
  }

  lemma RemainderIs(x: nat, d: nat, q: nat, r: nat)
    requires d > 0 && x == q * d + r && r < d
    ensures x % d == r && x / d == q
  {
    QuotientUnique(x / d, x % d, q, r, d);
  }

  lemma IntRemainderIs(x: int, d: nat, q: int, r: nat)
    requires d > 0 && x == q * d + r && r < d
    ensures x % d == r
  {
    QuotientUnique(x / d, x % d, q, r, d);
  }

  lemma QuotientUnique(q1: int, r1: nat, q2: int, r2: nat, d: nat)
    requires r1 < d && r2 < d && q1 * d + r1 == q2 * d + r2
    ensures q1 == q2 && r1 == r2
  {
    assert (q1 - q2) * d == r2 - r1 && (q2 - q1) * d == r1 - r2;
    if q1 > q2 {
      MulAtLeast(q1 - q2, d);
    } else if q1 < q2 {
      MulAtLeast(q2 - q1, d);
    }
  }

  lemma MulAtLeast(k: int, d: nat)
    requires k >= 1
    ensures k * d >= d
  {
    assert k * d == (k - 1) * d + d;
  }

  /** The mask of n consecutive ones starting at bit lo. */
  function Mask(lo: nat, n: nat): nat {
    if lo == 0 then Pow2(n) - 1 else 2 * Mask(lo - 1, n)
  }

  lemma {:induction false} MaskIs(lo: nat, n: nat)
    ensures Mask(lo, n) == (Pow2(n) - 1) * Pow2(lo)
  {
    if lo == 0 {
    } else {
      MaskIs(lo - 1, n);
      DoubleFactor(Pow2(n) - 1, Pow2(lo - 1));
    }
  }

  /** Masking with consecutive ones keeps that bit field, in place. */
  lemma {:induction false} AndField(x: nat, lo: nat, n: nat)
    ensures And(x, Mask(lo, n)) == x / Pow2(lo) % Pow2(n) * Pow2(lo)
  {
    if lo == 0 {
      AndLow(x, n);
    } else {
      AndField(x / 2, lo - 1, n);
      AndDoubled(x, Mask(lo - 1, n));
      DivHalves(x, Pow2(lo - 1));
      DoubleFactor(x / Pow2(lo) % Pow2(n), Pow2(lo - 1));
    }
  }

  lemma DoubleFactor(k: int, half: int)
    ensures k * (2 * half) == 2 * (k * half)
  {
  }

  lemma AndDoubled(x: nat, y: nat)
    ensures And(x, 2 * y) == 2 * And(x / 2, y)
  {
  }

  lemma DivHalves(x: nat, p: nat)
    requires p > 0
    ensures x / (2 * p) == (x / 2) / p
  {
    var q, r := (x / 2) / p, (x / 2) % p;
    assert x / 2 == q * p + r;
    assert x == q * (2 * p) + (2 * r + x % 2);
    RemainderIs(x, 2 * p, q, 2 * r + x % 2);
  }

  /** Or of a word whose low k bits are clear with a word below 2^k is their sum. */
  lemma {:induction false} OrDisjoint(x: nat, y: nat, k: nat)
    requires x % Pow2(k) == 0 && y < Pow2(k)
    ensures Or(x, y) == x + y && Or(y, x) == x + y
  {
    if k == 0 || x == 0 || y == 0 {
    } else {
      var p := Pow2(k - 1);
      ModHalves(x, p);
      assert x % 2 == 0 && (x / 2) % p == 0;
      OrDisjoint(x / 2, y / 2, k - 1);
    }
  }

  /** The C operators >> and << on an unsigned word (the second without the truncation to 64 bits). */
  function ShiftRight(x: nat, n: nat): nat {
    if n == 0 then x else ShiftRight(x / 2, n - 1)
  }

  function ShiftLeft(x: nat, n: nat): nat {
    if n == 0 then x else 2 * ShiftLeft(x, n - 1)
  }

  lemma {:induction false} ShiftRightDivides(x: nat, n: nat)
    ensures ShiftRight(x, n) == x / Pow2(n)
  {
    if n == 0 {
    } else {
      ShiftRightDivides(x / 2, n - 1);
      DivHalves(x, Pow2(n - 1));
    }
  }

  lemma {:induction false} ShiftLeftMultiplies(x: nat, n: nat)
    ensures ShiftLeft(x, n) == x * Pow2(n)
  {
    if n == 0 {
    } else {
      ShiftLeftMultiplies(x, n - 1);
      DoubleFactor(x, Pow2(n - 1));
    }
  }

  /** Mask then shift extracts a bit field. */
  lemma FieldExtracted(x: nat, lo: nat, n: nat)
    ensures ShiftRight(And(x, Mask(lo, n)), lo) == x / Pow2(lo) % Pow2(n)
  {
    AndField(x, lo, n);
    var f, p := x / Pow2(lo) % Pow2(n), Pow2(lo);
    ShiftRightDivides(f * p, lo);
    RemainderIs(f * p, p, f, 0);
  }
}
