/** The 128-bit right shift that remembers what it shifts out. */
module Jamming {
  import opened Powers
  import opened Bitwise
  import Shifts

  const U64: int := 0x1_0000_0000_0000_0000

  type u64 = w: int | 0 <= w < 0x1_0000_0000_0000_0000

  /** C shifts of 64-bit words, for counts below 64. */
  function Shl64(a: u64, n: nat): u64 {
    a * Pow2(n) % U64
  }

  function Shr64(a: u64, n: nat): int {
    a / Pow2(n)
  }

  /** `t`, 64 bits after the point, stands for the fraction `f` / `unit`: it is zero, less than a half, a half or
      more just when the fraction is. */
  predicate Jammed(t: u64, f: int, unit: int) {
    && (t == 0 <==> f == 0)
    && (t < U64 / 2 <==> 2 * f < unit)
    && (t == U64 / 2 <==> 2 * f == unit)
  }

  /** A word whose last bit is set if anything below it is not zero. */
  function Sticky(g: u64, rest: bool): int {
    if rest then Or(g, 1) else g
  }

  lemma StickyIs(g: u64, rest: bool)
    ensures Sticky(g, rest) == if rest && g % 2 == 0 then g + 1 else g
  {
    AndUnfold(g, 1, g / 2, g % 2, 0, 1);
    AndZero(g / 2);
  }

  lemma Pow64(k: nat)
    requires k <= 64
    ensures Pow2(k) * Pow2(64 - k) == U64 && Pow2(64) == U64
    ensures k > 0 ==> Pow2(k) == 2 * Pow2(k - 1) && Pow2(k - 1) * Pow2(64 - k) == U64 / 2
  {
    Pow2Add(k, 64 - k);
    Pow2Is32();
    Pow2Add(32, 32);
    if k > 0 {
      HalfProduct(Pow2(k - 1), Pow2(64 - k));
    }
  }

  lemma HalfProduct(h: int, q: int)
    ensures (2 * h) * q == 2 * (h * q)
  {
  }

  /** Comparing multiples. */
  lemma Multiples(a: int, b: int, q: int)
    requires q > 0
    ensures a < b <==> a * q < b * q
    ensures a == b <==> a * q == b * q
  {
    if a < b {
      assert b * q - a * q == (b - a) * q;
      MulAtLeast(q, b - a);
      assert q * (b - a) == (b - a) * q;
    } else if b < a {
      assert a * q - b * q == (a - b) * q;
      MulAtLeast(q, a - b);
      assert q * (a - b) == (a - b) * q;
    }
  }

  /** The top `k` bits of what is shifted out, moved to the top of a word, with the rest made sticky. */
  lemma JamIs(k: nat, hi: int, low: int, w: int)
    requires 1 <= k <= 64 && 0 <= hi < Pow2(k) && 0 <= low < w
    ensures 0 <= hi * Pow2(64 - k) < U64
    ensures var z := Sticky(hi * Pow2(64 - k), low != 0);
            0 <= z < U64 && Jammed(z, hi * w + low, Pow2(k) * w)
  {
    hide Sticky, Pow2;
    Pow64(k);
    var q, h := Pow2(64 - k), Pow2(k - 1);
    Multiples(hi, Pow2(k), q);
    Multiples(-1, hi, q);
    Multiples(0, hi, q);
    Multiples(hi, h, q);
    Multiples(hi, h, 2 * w);
    Multiples(hi + 1, h, 2 * w);
    Multiples(0, hi, w);
    StickyIs(hi * q, low != 0);
    Distribute(hi, h, w);
  }

  lemma Distribute(hi: int, h: int, w: int)
    ensures hi * (2 * w) == 2 * (hi * w) && h * (2 * w) == (2 * h) * w && (hi + 1) * (2 * w) == 2 * (hi * w) + 2 * w
  {
  }

  /** Quotient and remainder of the whole number, from those of its upper part. */
  lemma Whole(s: int, a2: u64, p: int)
    requires 0 <= s && p > 0
    ensures U64 * p > 0
    ensures (s * U64 + a2) / (U64 * p) == s / p && (s * U64 + a2) % (U64 * p) == s % p * U64 + a2
  {
    MulAtLeast(U64, p);
    var q, r := s / p, s % p;
    assert s * U64 == (U64 * p) * q + r * U64 by {
      assert (p * q + r) * U64 == (U64 * p) * q + r * U64;
    }
    MulLess(U64, r, p);
    DivUnique(s * U64 + a2, U64 * p, q, r * U64 + a2);
  }

  /** A two-word number shifted by less than a word. */
  lemma ShortShift(a0: u64, a1: u64, c: nat)
    requires 0 < c < 64
    ensures var s, p, q := a0 * U64 + a1, Pow2(c), Pow2(64 - c);
            && 0 <= a0 / p < U64 && a0 * q % U64 == a0 % p * q && 0 <= a1 / p < q
            && s / p == a0 / p * U64 + (a0 % p * q + a1 / p) && s % p == a1 % p
            && 0 <= a0 % p * q + a1 / p < U64 && a1 * q % U64 == a1 % p * q
  {
    hide Pow2;
    Pow64(c);
    var p, q := Pow2(c), Pow2(64 - c);
    ShortCore(a0, a1, p, q);
  }

  lemma ShortCore(a0: u64, a1: u64, p: int, q: int)
    requires p > 0 && q > 0 && p * q == U64
    ensures 0 <= a0 / p < U64 && a0 * q % U64 == a0 % p * q && 0 <= a1 / p < q
    ensures (a0 * U64 + a1) / p == a0 / p * U64 + (a0 % p * q + a1 / p) && (a0 * U64 + a1) % p == a1 % p
    ensures 0 <= a0 % p * q + a1 / p < U64 && a1 * q % U64 == a1 % p * q
  {
    Below(a0, p, q);
    Below(a1, p, q);
    LeftPart(a0, p, q);
    LeftPart(a1, p, q);
    var q0, r0, q1, r1 := a0 / p, a0 % p, a1 / p, a1 % p;
    Remainders(a0, a1, p);
    TopPart(q0, r0, q1, r1, p, q);
    DivUnique(q0 * p * U64 + r0 * U64 + q1 * p + r1, p, q0 * U64 + (r0 * q + q1), r1);
  }

  lemma Remainders(a0: u64, a1: u64, p: int)
    requires p > 0
    ensures 0 <= a0 % p < p && 0 <= a1 % p < p
    ensures a0 * U64 + a1 == a0 / p * p * U64 + a0 % p * U64 + a1 / p * p + a1 % p
  {
    assert a0 == a0 / p * p + a0 % p;
    assert a1 == a1 / p * p + a1 % p;
  }

  lemma TopPart(q0: int, r0: int, q1: int, r1: int, p: int, q: int)
    requires p > 0 && q > 0 && p * q == U64 && 0 <= r0 < p && 0 <= q1 < q
    ensures q0 * p * U64 + r0 * U64 + q1 * p + r1 == p * (q0 * U64 + (r0 * q + q1)) + r1
    ensures 0 <= r0 * q + q1 < U64 && q <= U64
  {
    assert q0 * p * U64 == p * (q0 * U64);
    assert r0 * (p * q) == p * (r0 * q);
    assert p * (q0 * U64 + (r0 * q + q1)) == p * (q0 * U64) + p * (r0 * q) + p * q1;
    MulLess(q, r0, p);
    assert q * r0 == r0 * q && q * p == p * q;
    MulAtLeast(q, p);
  }

  lemma Below(a: u64, p: int, q: int)
    requires p > 0 && q > 0 && p * q == U64
    ensures 0 <= a / p < q
  {
    var d := a / p;
    assert a == p * d + a % p;
    if d >= q {
      assert p * d == p * q + p * (d - q);
      Positive(p, d - q);
    }
  }

  lemma LeftPart(a: u64, p: int, q: int)
    requires p > 0 && q > 0 && p * q == U64
    ensures a * q % U64 == a % p * q
  {
    var d, r := a / p, a % p;
    assert a * q == (p * d + r) * q == U64 * d + r * q by {
      assert (p * d) * q == (p * q) * d;
    }
    MulLess(q, r, p);
    assert q * r == r * q && q * p == p * q;
    DivUnique(a * q, U64, d, r * q);
  }

  /** Disjoint parts or-ed together. */
  lemma {:induction false} OrParts(x: nat, y: nat, k: nat)
    requires y < Pow2(k)
    ensures x * Pow2(k) >= 0 && Or(x * Pow2(k), y) == x * Pow2(k) + y
  {
    AndParts(x, y, k);
  }

  lemma {:induction false} AndParts(x: nat, y: nat, k: nat)
    requires y < Pow2(k)
    ensures x * Pow2(k) >= 0 && And(x * Pow2(k), y) == 0
    decreases k
  {
    hide And;
    Positive(x, Pow2(k));
    if k == 0 {
      AndZero(x * Pow2(k));
    } else {
      AndParts(x, y / 2, k - 1);
      Twice(x, Pow2(k - 1));
      AndUnfold(x * Pow2(k), y, x * Pow2(k - 1), 0, y / 2, y % 2);
    }
  }

  /** A shift by more than one word and at most two. */
  lemma LongShift(a0: u64, a1: u64, k: nat)
    requires 1 <= k <= 64
    ensures var s, p, w := a0 * U64 + a1, U64 * Pow2(k), U64 * U64;
            && p > 0 && s / p == a0 / Pow2(k) && s % p * U64 == a0 % Pow2(k) * w + a1 * U64
  {
    hide Pow2;
    Whole(a0, a1, Pow2(k));
    var r := a0 % Pow2(k);
    assert (r * U64 + a1) * U64 == r * (U64 * U64) + a1 * U64;
  }

  /** Integer part and jammed fraction of the three words shifted right by `count`. */
  method ShiftJam(a0: u64, a1: u64, a2: u64, count: nat) returns (z0: u64, z1: u64, z2: u64)
    ensures U64 * Pow2(count) > 0
    ensures var n, unit := (a0 * U64 + a1) * U64 + a2, U64 * Pow2(count);
            z0 * U64 + z1 == n / unit && Jammed(z2, n % unit, unit)
  {
    hide Or, Jammed, Pow2, Sticky;
    ghost var s := a0 * U64 + a1;
    Whole(s, a2, Pow2(count));
    if count == 0 {
      NoShift(a0, a1, a2);
      return a0, a1, a2;
    }
    if count < 64 {
      ShortShift(a0, a1, count);
      Pow64(count);
      OrParts(a0 % Pow2(count), a1 / Pow2(count), 64 - count);
      JamIs(count, a1 % Pow2(count), a2, U64);
      z2 := Sticky(Shl64(a1, 64 - count), a2 != 0);
      z1 := Or(Shl64(a0, 64 - count), Shr64(a1, count));
      z0 := Shr64(a0, count);
      return;
    }
    z0 := 0;
    if count == 64 {
      Pow64(64);
      JamIs(64, a1, a2, U64);
      OneWord(a0, a1);
      z2 := Sticky(a1, a2 != 0);
      z1 := a0;
      return;
    }
    var rest := a2 != 0 || a1 != 0;
    if count < 128 {
      TwoWords(a0, a1, a2, count);
      z2 := Sticky(Shl64(a0, 128 - count), rest);
      z1 := Shr64(a0, count - 64);
    } else if count == 128 {
      TwoWords(a0, a1, a2, 128);
      z2 := Sticky(a0, rest);
      z1 := 0;
    } else {
      FarShift(a0, a1, a2, count);
      z2 := Sticky(if a0 != 0 then 1 else 0, rest);
      z1 := 0;
    }
  }

  lemma NoShift(a0: u64, a1: u64, a2: u64)
    ensures Pow2(0) == 1
    ensures var n := (a0 * U64 + a1) * U64 + a2; n / U64 == a0 * U64 + a1 && Jammed(a2, n % U64, U64)
  {
    DivUnique((a0 * U64 + a1) * U64 + a2, U64, a0 * U64 + a1, a2);
  }

  lemma OneWord(a0: u64, a1: u64)
    ensures (a0 * U64 + a1) / U64 == a0 && (a0 * U64 + a1) % U64 == a1
  {
    DivUnique(a0 * U64 + a1, U64, a0, a1);
  }

  lemma TwoWords(a0: u64, a1: u64, a2: u64, count: nat)
    requires 64 < count <= 128
    ensures var k, n, unit := count - 64, (a0 * U64 + a1) * U64 + a2, U64 * Pow2(count);
            var z := Sticky(if count < 128 then Shl64(a0, 64 - k) else a0, a2 != 0 || a1 != 0);
            && unit > 0 && 0 <= z < U64 && Jammed(z, n % unit, unit)
            && n / unit == (if count < 128 then Shr64(a0, k) else 0) && 0 <= n / unit < U64
  {
    hide Jammed, Pow2, Sticky, Or;
    var k: nat, s := count - 64, a0 * U64 + a1;
    Pow2Add(64, k);
    Pow64(k);
    Pow64(64);
    var p := Pow2(k);
    LongShift(a0, a1, k);
    Whole(s, a2, U64 * p);
    var low := a1 * U64 + a2;
    assert low < U64 * U64;
    QuotientLess(a0, p);
    JamIs(k, a0 % p, low, U64 * U64);
    assert p * (U64 * U64) == U64 * (U64 * p);
    if k < 64 {
      ShortShift(a0, a1, k);
    } else {
      Small(a0, U64);
      PowZero();
    }
  }

  lemma Small(a: int, p: int)
    requires 0 <= a < p
    ensures a / p == 0 && a % p == a
  {
    DivUnique(a, p, 0, a);
  }

  lemma QuotientLess(a: u64, p: int)
    requires p > 0
    ensures 0 <= a % p < p && 0 <= a / p < U64
  {
    Shifts.ShrSmaller(a, p);
  }

  lemma FarShift(a0: u64, a1: u64, a2: u64, count: nat)
    requires count > 128
    ensures var n, unit := (a0 * U64 + a1) * U64 + a2, U64 * Pow2(count);
            var z := Sticky(if a0 != 0 then 1 else 0, a2 != 0 || a1 != 0);
            unit > 0 && 0 <= z < U64 && n / unit == 0 && Jammed(z, n % unit, unit)
  {
    hide Pow2, Sticky;
    var n, unit := (a0 * U64 + a1) * U64 + a2, U64 * Pow2(count);
    Pow64(64);
    Pow2Add(64, 64);
    Pow2Add(128, count - 128);
    TwoAtLeast(count - 128);
    MulAtLeast(U64 * U64 * U64, Pow2(count - 128));
    assert unit == U64 * U64 * U64 * Pow2(count - 128);
    MulMono(U64 * U64 * U64, 2, Pow2(count - 128));
    Small(n, unit);
    StickyIs(if a0 != 0 then 1 else 0, a2 != 0 || a1 != 0);
  }

  lemma TwoAtLeast(k: nat)
    requires k > 0
    ensures Pow2(k) >= 2
  {
  }
}
