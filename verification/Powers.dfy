/** Powers of two, and the quotients and remainders that variable shifts and masks amount to. */
module Powers {

  function Pow2(n: nat): (p: int)
    ensures p >= 1
  {
    if n == 0 then 1 else 2 * Pow2(n - 1)
  }

  lemma {:induction false} Pow2Add(m: nat, n: nat)
    ensures Pow2(m + n) == Pow2(m) * Pow2(n)
  {
    if m > 0 {
      Pow2Add(m - 1, n);
      assert 2 * (Pow2(m - 1) * Pow2(n)) == (2 * Pow2(m - 1)) * Pow2(n);
    }
  }

  lemma Pow2Is32()
    ensures Pow2(32) == 0x1_0000_0000
  {
    assert Pow2(8) == 0x100;
    Pow2Add(8, 8);
    Pow2Add(16, 16);
  }

  lemma PowZero()
    ensures Pow2(0) == 1
  {
  }

  lemma Positive(a: int, b: int)
    requires a >= 0 && b >= 0
    ensures a * b >= 0
  {
  }

  lemma MulMono(a: int, p: int, q: int)
    requires a >= 0 && p <= q
    ensures a * p <= a * q
  {
    assert a * q - a * p == a * (q - p);
    Positive(a, q - p);
  }

  lemma Twice(x: int, p: int)
    ensures x * (2 * p) == 2 * (x * p)
  {
  }

  lemma MulAtLeast(d: int, k: int)
    requires d > 0 && k >= 1
    ensures d * k >= d
  {
  }

  /** Quotient and remainder are the only pair that recomposes the number. */
  lemma DivUnique(x: int, d: int, q: int, r: int)
    requires 0 <= r < d && x == d * q + r
    ensures x / d == q && x % d == r
  {
    var q', r' := x / d, x % d;
    assert d * q' + r' == d * q + r;
    assert d * (q - q') == d * q - d * q' == -(d * (q' - q));
    if q > q' {
      MulAtLeast(d, q - q');
    } else if q < q' {
      MulAtLeast(d, q' - q);
    }
  }

  /** Dividing by a product, and by its factors in turn. */
  lemma DivDiv(x: int, a: int, b: int)
    requires 0 <= x && a > 0 && b > 0
    ensures a * b > 0
    ensures x / a / b == x / (a * b)
    ensures x % (a * b) == a * (x / a % b) + x % a
  {
    MulAtLeast(a, b);
    var y := x / a;
    var q, r := y / b, y % b;
    assert x == a * y + x % a;
    assert a * (b * q + r) == (a * b) * q + a * r;
    MulLess(a, r, b);
    DivUnique(x, a * b, q, a * r + x % a);
  }

  lemma MulLess(a: int, r: int, b: int)
    requires a > 0 && 0 <= r < b
    ensures 0 <= a * r <= a * b - a
  {
    assert a * b - a * r == a * (b - r);
    MulAtLeast(a, b - r);
  }

  /** The remainder by a product, taken apart by one factor. */
  lemma ModParts(x: int, a: int, b: int)
    requires 0 <= x && a > 0 && b > 0
    ensures a * b > 0
    ensures x % (a * b) / a == x / a % b
    ensures x % (a * b) % a == x % a
  {
    DivDiv(x, a, b);
    DivUnique(x % (a * b), a, x / a % b, x % a);
  }

  /** Scaling number and divisor alike scales the remainder and keeps the quotient. */
  lemma ScaleMod(x: int, a: int, b: int)
    requires 0 <= x && a > 0 && b > 0
    ensures a * b > 0
    ensures (x * a) % (a * b) == x % b * a
  {
    MulAtLeast(a, b);
    var q, r := x / b, x % b;
    assert x * a == (a * b) * q + r * a by {
      assert x == b * q + r;
      assert (b * q + r) * a == (a * b) * q + r * a;
    }
    MulLess(a, r, b);
    assert r * a == a * r;
    DivUnique(x * a, a * b, q, r * a);
  }

  lemma ScaleDiv(x: int, a: int, b: int)
    requires 0 <= x && a > 0 && b > 0
    ensures a * b > 0
    ensures (x * a) / (a * b) == x / b
  {
    MulAtLeast(a, b);
    DivDiv(x * a, a, b);
    DivUnique(x * a, a, x, 0);
  }
}

/** C shifts of 32-bit words by a variable count. */
module Shifts {
  import opened Words
  import opened Powers

  function Shl(x: u32, s: nat): u32 {
    Wrap(x * Pow2(s))
  }

  function Shr(x: u32, s: nat): (r: u32)
    ensures r <= x
  {
    ShrSmaller(x, Pow2(s));
    x / Pow2(s)
  }

  lemma ShrSmaller(x: int, d: int)
    requires 0 <= x && d >= 1
    ensures 0 <= x / d <= x
  {
    var q := x / d;
    if q >= 1 {
      MulAtLeast(q, d);
    }
  }

  /** Shifting left, then right at least as far, takes a field of the number. */
  lemma FieldOf(x: u32, s: nat, r: nat)
    requires s <= r <= 32
    ensures Shr(Shl(x, s), r) == x / Pow2(r - s) % Pow2(32 - r)
  {
    Pow2Is32();
    Pow2Add(s, r - s);
    Pow2Add(s, 32 - s);
    Pow2Add(r - s, 32 - r);
    FieldCore(x, Pow2(s), Pow2(r - s), Pow2(32 - r));
  }

  lemma FieldCore(x: int, a: int, b: int, c: int)
    requires 0 <= x && a > 0 && b > 0 && c > 0
    ensures a * b > 0 && a * (b * c) > 0
    ensures (x * a) % (a * (b * c)) / (a * b) == x / b % c
  {
    MulAtLeast(b, c);
    ScaleMod(x, a, b * c);
    ScaleDiv(x % (b * c), a, b);
    ModParts(x, b, c);
  }

  /** A field above bit k depends on the bits from k up only. */
  lemma FieldOfPage(x: u32, k: nat, s: nat, r: nat)
    requires k + s <= r <= 32
    ensures Shr(Shl(x, s), r) == x / Pow2(k) / Pow2(r - s - k) % Pow2(32 - r)
  {
    FieldOf(x, s, r);
    Pow2Add(k, r - s - k);
    DivDiv(x, Pow2(k), Pow2(r - s - k));
  }

  /** `x & (~0 << k)`. */
  function ClearLow(x: u32, k: nat): int {
    x / Pow2(k) * Pow2(k)
  }

  /** The address in a block of pages: an aligned base plus the bits of `x` left after `s` positions. */
  function BlockAddress(base: u32, x: u32, s: nat, k: nat): u32 {
    Wrap(ClearLow(base, k) + Shr(Shl(x, s), s))
  }

  /** Its page number depends on the page number of `x` only, and its offset is that of `x`. */
  lemma BlockAddressParts(base: u32, x: u32, s: nat, k: nat)
    requires k + s <= 32
    ensures BlockAddress(base, x, s, k) / Pow2(k)
            == (base / Pow2(k) + x / Pow2(k) % Pow2(32 - s - k)) % Pow2(32 - k)
    ensures BlockAddress(base, x, s, k) % Pow2(k) == x % Pow2(k)
  {
    hide Pow2, BlockAddress;
    BlockAddressIs(base, x, s, k);
    BlockCore(base, x, Pow2(k), Pow2(32 - s - k), Pow2(32 - k));
  }

  lemma BlockAddressIs(base: u32, x: u32, s: nat, k: nat)
    requires k + s <= 32
    ensures var p, q, n := Pow2(k), Pow2(32 - s - k), Pow2(32 - k);
            p * q > 0 && p * n > 0 && BlockAddress(base, x, s, k) == (base / p * p + x % (p * q)) % (p * n)
  {
    hide Pow2, Shl, Shr;
    Pow2Is32();
    Pow2Add(k, 32 - s - k);
    Pow2Add(k, 32 - k);
    FieldOf(x, s, s);
    PowZero();
  }

  lemma BlockSum(base: int, x: int, p: int, q: int)
    requires 0 <= base && 0 <= x && p > 0 && q > 0
    ensures p * q > 0
    ensures var sum := base / p * p + x % (p * q);
            0 <= sum && sum / p == base / p + x / p % q && sum % p == x % p
  {
    DivDiv(x, p, q);
    ShrSmaller(base, p);
    SumParts(base / p, x / p % q, x % p, p);
  }

  lemma SumParts(t: int, f: int, l: int, p: int)
    requires 0 <= t && 0 <= f && 0 <= l < p
    ensures var sum := t * p + (p * f + l);
            0 <= sum && sum / p == t + f && sum % p == l
  {
    assert t * p == p * t;
    assert p * (t + f) == p * t + p * f;
    MulLess(p, t + f, t + f + 1);
    DivUnique(t * p + (p * f + l), p, t + f, l);
  }

  lemma BlockRest(sum: int, a: int, l: int, p: int, n: int)
    requires sum >= 0 && p > 0 && n > 0 && sum / p == a && sum % p == l
    ensures p * n > 0 && sum % (p * n) / p == a % n && sum % (p * n) % p == l
  {
    ModParts(sum, p, n);
  }

  lemma BlockCore(base: int, x: int, p: int, q: int, n: int)
    requires 0 <= base && 0 <= x && p > 0 && q > 0 && n > 0
    ensures p * q > 0 && p * n > 0
    ensures (base / p * p + x % (p * q)) % (p * n) / p == (base / p + x / p % q) % n
    ensures (base / p * p + x % (p * q)) % (p * n) % p == x % p
  {
    BlockSum(base, x, p, q);
    BlockRest(base / p * p + x % (p * q), base / p + x / p % q, x % p, p, n);
  }
}
