/** Bitwise operations of 64-bit words, as functions on naturals.

    The kernel builds translation table descriptors with `&` and `|` and constant masks. The two
    operators are defined bit by bit here, and related to division, remainder and addition. */
module Bits {

  /** `base` to the `n`. */
  function Power(base: nat, n: nat): (r: nat)
    ensures base > 0 ==> r > 0
  {
    if n == 0 then 1 else base * Power(base, n - 1)
  }

  /** The quotient rounded up. */
  function Ceiling(n: nat, d: nat): nat
    requires d > 0
  {
    n / d + if n % d == 0 then 0 else 1
  }

  /** The conversion to int: the remainder modulo 2^32, in two's complement. */
  function Int32(x: int): int {
    var r := x % 0x1_0000_0000;
    if r < 0x8000_0000 then r else r - 0x1_0000_0000
  }

  lemma Int32Exact(x: nat)
    ensures x < 0x8000_0000 <==> Int32(x) == x
  {
  }

  /** Counting on from a converted number. */
  lemma CountOn(x: int, y: int)
    ensures Int32(Int32(x) + y) == Int32(x + y)
  {
    assert Int32(x) == x - x / 0x1_0000_0000 * 0x1_0000_0000 || Int32(x) == x - (x / 0x1_0000_0000 + 1) * 0x1_0000_0000;
  }

  /** The C operator `&`. */
  function And(x: nat, y: nat): nat
    decreases x
  {
    if x == 0 || y == 0 then 0 else (x % 2) * (y % 2) + 2 * And(x / 2, y / 2)
  }

  /** The C operator `|`. */
  function Or(x: nat, y: nat): nat
    decreases x
  {
    if x == 0 then y
    else if y == 0 then x
    else (if x % 2 == 1 || y % 2 == 1 then 1 else 0) + 2 * Or(x / 2, y / 2)
  }

  /** Halving commutes with a division by any positive number. */
  lemma HalfOfQuotient(x: nat, p: nat)
    requires p > 0
    ensures x / (2 * p) == (x / 2) / p
    ensures x % (2 * p) == 2 * ((x / 2) % p) + x % 2
  {
    var q, r := (x / 2) / p, (x / 2) % p;
    assert x / 2 == q * p + r;
    assert x == q * (2 * p) + (2 * r + x % 2);
    QuotientUnique(x, 2 * p, q, 2 * r + x % 2);
  }

  lemma QuotientUnique(x: nat, d: nat, q: nat, r: nat)
    requires d > 0 && x == q * d + r && r < d
    ensures x / d == q && x % d == r
  {
    Distribute(q, x / d, d);
    MultipleBelow(q - x / d, d);
  }

  lemma Distribute(a: int, b: int, d: int)
    ensures (a - b) * d == a * d - b * d
  {
  }

  lemma MultipleBelow(k: int, d: nat)
    ensures k >= 1 ==> k * d >= d
    ensures k <= -1 ==> k * d + d <= 0
  {
    if k >= 1 {
      assert k * d == (k - 1) * d + d;
    } else if k <= -1 {
      assert k * d + d == -((-k - 1) * d);
    }
  }

  lemma ProductGrows(a: nat, b: nat, x: nat, y: nat)
    requires a <= b && x <= y
    ensures a * x <= b * y
  {
    assert b * y == a * x + a * (y - x) + (b - a) * y;
  }

  /** Rounding up gives the least multiple that is large enough. */
  lemma CeilingBounds(n: nat, d: nat)
    requires d > 0
    ensures n <= Ceiling(n, d) * d < n + d
  {
    var q, r := n / d, n % d;
    assert n == q * d + r;
    Distribute(q + 1, q, d);
  }

  /** A mask of `len` ones keeps the remainder modulo 2^len. */
  lemma {:induction false} AndLowMask(x: nat, len: nat)
    ensures And(x, Power(2, len) - 1) == x % Power(2, len)
    decreases len
  {
    if len > 0 {
      var half := Power(2, len - 1);
      AndOdd(x, half - 1);
      AndLowMask(x / 2, len - 1);
      HalfOfQuotient(x, half);
    }
  }

  lemma AndOdd(x: nat, y: nat)
    ensures And(x, 2 * y + 1) == x % 2 + 2 * And(x / 2, y)
  {
    if x != 0 {
      assert (2 * y + 1) % 2 == 1 && (2 * y + 1) / 2 == y;
    }
  }

  /** A mask of `len` ones shifted left by `lo`. */
  function Mask(lo: nat, len: nat): nat {
    if lo == 0 then Power(2, len) - 1 else 2 * Mask(lo - 1, len)
  }

  lemma {:induction false} MaskIsProduct(lo: nat, len: nat)
    ensures Mask(lo, len) == (Power(2, len) - 1) * Power(2, lo)
  {
    if lo > 0 {
      MaskIsProduct(lo - 1, len);
      MulTwice(Power(2, len) - 1, Power(2, lo - 1));
    }
  }

  /** Bits `lo` to `lo` + `len` - 1 of a word, shifted down. */
  function Field(x: nat, lo: nat, len: nat): nat {
    if lo == 0 then x % Power(2, len) else Field(x / 2, lo - 1, len)
  }

  /** x << lo */
  function Shifted(x: nat, lo: nat): nat {
    if lo == 0 then x else 2 * Shifted(x, lo - 1)
  }

  /** Masking keeps exactly that field of the word, in place. */
  lemma {:induction false} AndMaskIsField(x: nat, lo: nat, len: nat)
    ensures And(x, Mask(lo, len)) == Shifted(Field(x, lo, len), lo)
    decreases lo
  {
    if lo == 0 {
      AndLowMask(x, len);
    } else {
      AndEven(x, Mask(lo - 1, len));
      AndMaskIsField(x / 2, lo - 1, len);
    }
  }

  lemma {:induction false} FieldIsQuotient(x: nat, lo: nat, len: nat)
    ensures Field(x, lo, len) == x / Power(2, lo) % Power(2, len)
    decreases lo
  {
    if lo > 0 {
      FieldIsQuotient(x / 2, lo - 1, len);
      HalfOfQuotient(x, Power(2, lo - 1));
    }
  }

  lemma {:induction false} ShiftedIsProduct(x: nat, lo: nat)
    ensures Shifted(x, lo) == x * Power(2, lo)
    decreases lo
  {
    if lo > 0 {
      ShiftedIsProduct(x, lo - 1);
      MulTwice(x, Power(2, lo - 1));
    }
  }

  lemma AndMask(x: nat, lo: nat, len: nat)
    ensures And(x, Mask(lo, len)) == x / Power(2, lo) % Power(2, len) * Power(2, lo)
  {
    AndMaskIsField(x, lo, len);
    FieldIsQuotient(x, lo, len);
    ShiftedIsProduct(Field(x, lo, len), lo);
  }

  lemma MulTwice(a: nat, p: nat)
    ensures a * (2 * p) == 2 * (a * p)
  {
  }

  lemma AndEven(x: nat, y: nat)
    ensures And(x, 2 * y) == 2 * And(x / 2, y)
  {
    if x != 0 && y != 0 {
      assert (2 * y) % 2 == 0 && (2 * y) / 2 == y;
    }
  }

  /** Disjoint bit patterns: `|` is addition. */
  lemma {:induction false} OrDisjoint(x: nat, y: nat)
    requires And(x, y) == 0
    ensures Or(x, y) == x + y
    decreases x
  {
    if x != 0 && y != 0 {
      assert x % 2 == 0 || y % 2 == 0;
      OrDisjoint(x / 2, y / 2);
    }
  }

  lemma {:induction false} SingleBitMask(k: nat)
    ensures Mask(k, 1) == Power(2, k)
  {
    if k > 0 {
      SingleBitMask(k - 1);
    }
  }

  /** Setting a clear bit adds its weight. */
  lemma OrBit(x: nat, k: nat)
    requires x / Power(2, k) % 2 == 0
    ensures Or(x, Power(2, k)) == x + Power(2, k)
  {
    SingleBitMask(k);
    AndMask(x, k, 1);
    OrDisjoint(x, Power(2, k));
  }

  /** A field below bit `k` and a multiple of 2^k share no bit. */
  lemma {:induction false} AndBelow(x: nat, y: nat, k: nat)
    requires x < Power(2, k) && y % Power(2, k) == 0
    ensures And(x, y) == 0
    decreases k
  {
    if k > 0 {
      HalfOfQuotient(y, Power(2, k - 1));
      AndBelow(x / 2, y / 2, k - 1);
    }
  }

  lemma OrBelow(x: nat, y: nat, k: nat)
    requires x < Power(2, k) && y % Power(2, k) == 0
    ensures Or(x, y) == x + y
  {
    AndBelow(x, y, k);
    OrDisjoint(x, y);
  }
}
