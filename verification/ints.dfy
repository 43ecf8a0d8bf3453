/**
  Machine integer widths used by the memory-management unit, powers of two,
  and the few facts about Euclidean division that the address arithmetic
  needs.
 */
module Ints {

  type uint8 = x: int | 0 <= x < 0x100
  type uint16 = x: int | 0 <= x < 0x1_0000
  type uint64 = x: int | 0 <= x < 0x1_0000_0000_0000_0000

  const UINT16_LIMIT: int := 0x1_0000
  const UINT64_LIMIT: int := 0x1_0000_0000_0000_0000

  function Min(a: int, b: int): int
  {
    if a <= b then a else b
  }

  /** 2^n. */
  function Pow2(n: nat): (p: nat)
    ensures p >= 1
  {
    if n == 0 then 1 else 2 * Pow2(n - 1)
  }

  lemma {:induction false} Pow2Add(a: nat, b: nat)
    ensures Pow2(a + b) == Pow2(a) * Pow2(b)
    decreases a
  {
    if a > 0 {
      Pow2Add(a - 1, b);
      assert Pow2(a + b) == 2 * Pow2(a - 1 + b);
    }
  }

  lemma Pow2Monotone(a: nat, b: nat)
    requires a <= b
    ensures Pow2(a) <= Pow2(b)
  {
    Pow2Add(a, b - a);
    MulAtLeast(Pow2(a), Pow2(b - a));
  }

  /** Doubling an exponent squares the power. */
  lemma Pow2Double(a: nat, x: nat)
    requires Pow2(a) == x
    ensures Pow2(a + a) == x * x
  {
    Pow2Add(a, a);
  }

  lemma Pow2Constants()
    ensures Pow2(16) == UINT16_LIMIT
    ensures Pow2(64) == UINT64_LIMIT
  {
    assert Pow2(2) == 4;
    Pow2Double(2, 4);
    Pow2Double(4, 0x10);
    Pow2Double(8, 0x100);
    Pow2Double(16, 0x1_0000);
    Pow2Double(32, 0x1_0000_0000);
  }

  /** A 64-bit word splits into a high field of a bits and a low field of 64 - a bits. */
  lemma Pow2Split64(a: nat)
    requires a <= 64
    ensures Pow2(a) * Pow2(64 - a) == UINT64_LIMIT
  {
    Pow2Add(a, 64 - a);
    Pow2Constants();
  }

  /** A field of at most 16 bits fits a 16-bit integer. */
  lemma Pow2AtMost16(a: nat)
    requires a <= 16
    ensures Pow2(a) <= UINT16_LIMIT
  {
    Pow2Monotone(a, 16);
    Pow2Constants();
  }

  /**
    For x in a word of size p * k: the quotient by k is the high field, below p,
    and x lies between that field times k and the next multiple of k.
   */
  lemma HighField(x: nat, p: nat, k: nat)
    requires p >= 1 && k >= 1 && x < p * k
    ensures x / k < p && (x / k) % p == x / k
    ensures x / k * k <= x < x / k * k + k
  {
    DivBelow(x, p, k);
    DivModUnique(x / k, p, 0, x / k);
    DivModParts(x, k);
  }

  /**
    Shifting n left by the width of k within a word of size p * k keeps n mod p
    in the high field; adding a low field below k then splits back exactly.
   */
  lemma ShiftedFields(n: nat, low: nat, p: nat, k: nat)
    requires p >= 1 && k >= 1 && low < k
    ensures var w := (n * k) % (p * k) + low;
            w < p * k && w / k == n % p && w % k == low
  {
    var a, b := n / p, n % p;
    assert n == a * p + b by { DivModParts(n, p); }
    assert n * k == a * (p * k) + b * k by {
      assert (a * p + b) * k == a * (p * k) + b * k;
    }
    MulStrict(b, p, k);
    DivModUnique(n * k, p * k, a, b * k);
    DivModUnique(b * k + low, k, b, low);
  }

  lemma MulAtLeast(x: nat, y: nat)
    requires y >= 1
    ensures x * y >= x
  {
  }

  /** A product is below b * c as soon as its first factor is below b. */
  lemma MulStrict(a: nat, b: nat, c: nat)
    requires a < b && c >= 1
    ensures a * c + c <= b * c
  {
    assert (b - a) * c >= c by { MulAtLeast(c, b - a); }
  }

  /** Quotient and remainder are determined by any decomposition x == q * d + r with 0 <= r < d. */
  lemma DivModUnique(x: int, d: int, q: int, r: int)
    requires d > 0 && 0 <= r < d && x == q * d + r
    ensures x / d == q && x % d == r
  {
    var q', r' := x / d, x % d;
    assert (q - q') * d == r' - r;
    if q > q' {
      assert (q - q') * d >= d by { MulAtLeast(d, q - q'); }
    } else if q < q' {
      assert (q' - q) * d >= d by { MulAtLeast(d, q' - q); }
    }
  }

  /** An x below b * c has a quotient by c below b. */
  lemma DivBelow(x: nat, b: nat, c: nat)
    requires c >= 1 && x < b * c
    ensures x / c < b
  {
    if x / c >= b {
      assert x / c * c >= b * c by { MulMono(b, x / c, c); }
    }
  }

  /** The quotient rounds x down to a multiple of d; the remainder is the rest. */
  lemma DivModParts(x: nat, d: nat)
    requires d >= 1
    ensures x == x / d * d + x % d
    ensures x / d * d <= x < x / d * d + d
  {
  }

  lemma MulMono(a: nat, b: nat, c: nat)
    requires a <= b
    ensures a * c <= b * c
  {
  }
}
