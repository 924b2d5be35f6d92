/** Rounding and packing a quadruple-precision result, against the value IEEE Std 754-1985 prescribes. */
module Float128 {
  import opened Powers
  import opened Jamming
  import Shifts

  /** 2^112, the integer bit of a significand. */
  const HIDDEN: int := 0x1_0000_0000_0000_0000_0000_0000_0000

  datatype Quad = Quad(high: u64, low: u64)

  datatype Mode = NearestEven | ToZero | Down | Up

  datatype Flag = Overflow | Inexact | Underflow

  // ---- the format ----------------------------------------------------------------------------

  /** What a bit pattern stands for.  Magnitudes count units of the smallest subnormal number. */
  datatype Value = Finite(negative: bool, magnitude: nat) | Infinite(negative: bool) | NaN

  function Negative(z: Quad): bool {
    z.high / 0x8000_0000_0000_0000 == 1
  }

  function Exponent(z: Quad): nat {
    z.high / 0x1_0000_0000_0000 % 0x8000
  }

  function Fraction(z: Quad): int {
    z.high % 0x1_0000_0000_0000 * U64 + z.low
  }

  function Decode(z: Quad): Value {
    FractionRange(z);
    if Exponent(z) == 0x7FFF then (if Fraction(z) == 0 then Infinite(Negative(z)) else NaN)
    else if Exponent(z) == 0 then Finite(Negative(z), Fraction(z))
    else
      Positive(HIDDEN + Fraction(z), Pow2(Exponent(z) - 1));
      Finite(Negative(z), (HIDDEN + Fraction(z)) * Pow2(Exponent(z) - 1))
  }

  lemma FractionRange(z: Quad)
    ensures 0 <= Fraction(z) < HIDDEN
  {
  }

  // ---- what the standard prescribes ----------------------------------------------------------

  const MAX_EXPONENT: nat := 0x7FFD

  /** The largest finite magnitude. */
  ghost function MaxFinite(): int {
    (2 * HIDDEN - 1) * Pow2(MAX_EXPONENT)
  }

  /** The finite value `m` is the largest whose magnitude does not exceed `x` / `unit`. */
  ghost predicate LargestBelow(m: int, x: int, unit: int) {
    m * unit <= x && forall w: Quad :: Decode(w).Finite? && Decode(w).magnitude * unit <= x ==> Decode(w).magnitude <= m
  }

  /** The finite value `m` is the smallest whose magnitude is not below `x` / `unit`. */
  ghost predicate SmallestAbove(m: int, x: int, unit: int) {
    m * unit >= x && forall w: Quad :: Decode(w).Finite? && Decode(w).magnitude * unit >= x ==> Decode(w).magnitude >= m
  }

  ghost predicate NoneAbove(x: int, unit: int) {
    forall w: Quad :: Decode(w).Finite? ==> Decode(w).magnitude * unit < x
  }

  function Distance(a: int, b: int): nat {
    if a <= b then b - a else a - b
  }

  /** No finite value is nearer to `x` / `unit` than `z`, and one as near makes `z` the even one. */
  ghost predicate Nearest(z: Quad, x: int, unit: int)
    requires Decode(z).Finite?
  {
    var m := Decode(z).magnitude;
    forall w: Quad :: Decode(w).Finite? ==>
      && Distance(m * unit, x) <= Distance(Decode(w).magnitude * unit, x)
      && (Decode(w).magnitude != m && Distance(m * unit, x) == Distance(Decode(w).magnitude * unit, x) ==>
            z.low % 2 == 0)
  }

  /** Half a unit in the last place above the largest finite magnitude. */
  ghost function Midpoint(unit: int): int {
    (2 * HIDDEN - 1) * unit * Pow2(MAX_EXPONENT) + unit / 2 * Pow2(MAX_EXPONENT)
  }

  /** `z` is the exact value with magnitude `x` / `unit` rounded as sections 4.1 (nearest, ties to even,
      infinity from the midpoint on) and 4.2 (directed) prescribe, infinities included. */
  ghost predicate Rounds(mode: Mode, negative: bool, x: int, unit: int, z: Quad) {
    var v := Decode(z);
    if mode.NearestEven? then
      if x >= Midpoint(unit) then v == Infinite(negative)
      else v.Finite? && v.negative == negative && Nearest(z, x, unit)
    else if mode.ToZero? || mode == (if negative then Up else Down) then
      v.Finite? && v.negative == negative && LargestBelow(v.magnitude, x, unit)
    else
      || (v == Infinite(negative) && NoneAbove(x, unit))
      || (v.Finite? && v.negative == negative && SmallestAbove(v.magnitude, x, unit))
  }

  /** Section 7.3: the result rounded with unbounded exponent range exceeds the largest finite value. */
  ghost predicate Overflows(mode: Mode, negative: bool, x: int, unit: int) {
    if mode.NearestEven? then x >= Midpoint(unit)
    else if mode.ToZero? || mode == (if negative then Up else Down) then x >= 2 * HIDDEN * unit * Pow2(MAX_EXPONENT)
    else x > (2 * HIDDEN - 1) * unit * Pow2(MAX_EXPONENT)
  }

  /** The result is the exact value. */
  ghost predicate Exact(x: int, unit: int, z: Quad) {
    Decode(z).Finite? && Decode(z).magnitude * unit == x
  }

  /** Section 7.4: the value lies below the smallest normal magnitude, before rounding, or after rounding with
      unbounded exponent range; with 113 bits the value below that magnitude is half a unit away. */
  predicate Tiny(before: bool, mode: Mode, negative: bool, x: int, unit: int) {
    if before || TowardZero(mode, negative) then x < HIDDEN * unit
    else if mode.NearestEven? then 4 * x < (4 * HIDDEN - 1) * unit
    else 2 * x <= (2 * HIDDEN - 1) * unit
  }

  /** The rounding that moves the magnitude down. */
  predicate TowardZero(mode: Mode, negative: bool) {
    mode.ToZero? || mode == (if negative then Up else Down)
  }

  // ---- the code ------------------------------------------------------------------------------

  function Pack(negative: bool, exp: int, sig0: u64, sig1: u64): Quad {
    Quad(((if negative then 0x8000_0000_0000_0000 else 0) + exp * 0x1_0000_0000_0000 + sig0) % U64, sig1)
  }

  /** The exact value of the input is `Input` / `Unit`. */
  function Input(exp: int, sig0: u64, sig1: u64, sig2: u64): int {
    ((sig0 * U64 + sig1) * U64 + sig2) * if exp >= 0 then Pow2(exp) else 1
  }

  function Unit(exp: int): int {
    U64 * if exp >= 0 then 1 else Pow2(-exp)
  }

  /** Whether the code rounds the significand up. */
  function Increment(mode: Mode, negative: bool, sig2: u64): bool {
    match mode
    case NearestEven => sig2 >= 0x8000_0000_0000_0000
    case ToZero => false
    case Down => negative && sig2 != 0
    case Up => !negative && sig2 != 0
  }

  /** The significand after rounding. */
  function RoundedSig(mode: Mode, negative: bool, s: int, sig2: u64): int {
    if !Increment(mode, negative, sig2) then s
    else if mode.NearestEven? && (sig2 + sig2) % U64 == 0 then s + 1 - (s + 1) % 2
    else s + 1
  }

  // ---- packing -------------------------------------------------------------------------------

  /** Packing adds the integer bit into the exponent, and so absorbs a carry out of the significand. */
  lemma Packed(negative: bool, exp: int, sig0: u64, sig1: u64)
    requires 0 <= exp <= MAX_EXPONENT
    requires (sig0 < 0x2_0000_0000_0000 && (sig0 >= 0x1_0000_0000_0000 || exp == 0))
          || (sig0 == 0x2_0000_0000_0000 && sig1 == 0 && exp < MAX_EXPONENT)
    ensures var z := Pack(negative, exp, sig0, sig1);
            Decode(z).Finite? && Decode(z).negative == negative
            && Decode(z).magnitude == (sig0 * U64 + sig1) * Pow2(exp)
  {
    hide Negative, Exponent, Fraction, Decode, Pack, Pow2;
    var z, m := Pack(negative, exp, sig0, sig1), sig0 * U64 + sig1;
    if sig0 < 0x1_0000_0000_0000 {
      PackedFields(negative, 0, sig0, sig1);
      DecodeSubnormal(z);
    } else if sig0 < 0x2_0000_0000_0000 {
      SamePack(negative, exp, 1, sig0, sig1);
      PackedFields(negative, exp + 1, sig0 - 0x1_0000_0000_0000, sig1);
      DecodeNormal(z, exp, m);
    } else {
      SamePack(negative, exp, 2, sig0, sig1);
      PackedFields(negative, exp + 2, 0, 0);
      DecodeNormal(z, exp + 1, HIDDEN);
      NextPow2(exp);
      Doubled(HIDDEN, Pow2(exp));
    }
  }

  lemma DecodeNormal(z: Quad, exp: nat, m: int)
    requires Exponent(z) == exp + 1 && exp < 0x7FFE && HIDDEN + Fraction(z) == m
    ensures Decode(z).Finite? && Decode(z).negative == Negative(z) && Decode(z).magnitude == m * Pow2(exp)
  {
    hide Exponent, Fraction, Negative, Pow2;
  }

  lemma DecodeSubnormal(z: Quad)
    requires Exponent(z) == 0
    ensures Decode(z) == Finite(Negative(z), Fraction(z) * Pow2(0))
  {
    hide Exponent, Fraction, Negative;
  }

  lemma NextPow2(n: nat)
    ensures Pow2(n + 1) == 2 * Pow2(n)
  {
  }

  lemma SamePack(negative: bool, exp: int, carry: int, sig0: u64, sig1: u64)
    requires 0 <= carry && carry * 0x1_0000_0000_0000 <= sig0
    ensures Pack(negative, exp, sig0, sig1) == Pack(negative, exp + carry, sig0 - carry * 0x1_0000_0000_0000, sig1)
  {
  }

  lemma Doubled(a: int, p: int)
    ensures a * (2 * p) == (2 * a) * p
  {
  }

  lemma PackedFields(negative: bool, exp: int, frac: int, sig1: u64)
    requires 0 <= exp < 0x8000 && 0 <= frac < 0x1_0000_0000_0000
    ensures var z := Pack(negative, exp, frac, sig1);
            Negative(z) == negative && Exponent(z) == exp && Fraction(z) == frac * U64 + sig1
  {
    var z := Pack(negative, exp, frac, sig1);
    var n := if negative then 1 else 0;
    assert z.high == 0x8000_0000_0000_0000 * n + exp * 0x1_0000_0000_0000 + frac;
    DivUnique(z.high, 0x8000_0000_0000_0000, n, exp * 0x1_0000_0000_0000 + frac);
    DivUnique(z.high, 0x1_0000_0000_0000, n * 0x8000 + exp, frac);
  }

  // ---- where the format's values lie ---------------------------------------------------------

  lemma Cancel(a: int, b: int, p: int)
    requires p > 0
    ensures a * p <= b * p <==> a <= b
    ensures a * p < b * p <==> a < b
  {
  }

  lemma Pow2Split(m: nat, n: nat)
    requires m <= n
    ensures Pow2(n) == Pow2(n - m) * Pow2(m) && Pow2(m) <= Pow2(n)
  {
    Pow2Add(n - m, m);
    Cancel(1, Pow2(n - m), Pow2(m));
  }

  /** The significands the code takes: normalized, or smaller with exponent 0. */
  predicate InRange(s: int, exp: nat) {
    s >= HIDDEN || (s >= 0 && exp == 0)
  }

  /** A finite value is below the binade of exponent `exp`, or a whole number of its last places. */
  lemma Grid(w: Quad, exp: nat) returns (k: int)
    requires Decode(w).Finite?
    ensures Decode(w).magnitude == k * Pow2(exp) || (exp > 0 && Decode(w).magnitude <= HIDDEN * Pow2(exp))
  {
    hide Fraction, Exponent;
    FractionRange(w);
    var f, p := Fraction(w), Pow2(exp);
    k := 0;
    if exp == 0 {
      k := Decode(w).magnitude;
    } else if Exponent(w) == 0 {
      Cancel(1, p, HIDDEN);
    } else if Exponent(w) - 1 >= exp {
      var n := Exponent(w) - 1;
      Pow2Split(exp, n);
      k := (HIDDEN + f) * Pow2(n - exp);
      Associate(HIDDEN + f, Pow2(n - exp), p);
    } else {
      BelowBinade(f, Exponent(w) - 1, exp);
    }
  }

  lemma Associate(a: int, b: int, c: int)
    ensures a * (b * c) == (a * b) * c
  {
  }

  lemma BelowBinade(f: int, n: nat, exp: nat)
    requires 0 <= f < HIDDEN && n < exp
    ensures (HIDDEN + f) * Pow2(n) <= HIDDEN * Pow2(exp)
  {
    var q := Pow2(n);
    Pow2Split(n, exp - 1);
    assert (HIDDEN + f) * q <= (2 * HIDDEN) * q by { Cancel(HIDDEN + f, 2 * HIDDEN, q); }
    assert (2 * HIDDEN) * q == HIDDEN * (2 * q);
    assert 2 * q <= Pow2(exp);
    assert HIDDEN * (2 * q) <= HIDDEN * Pow2(exp);
  }

  /** Between two neighbouring multiples of the last place there is no finite value. */
  lemma NoValueBetween(w: Quad, exp: nat, s: int, t: int)
    requires Decode(w).Finite? && InRange(s, exp) && 0 <= t < U64
    ensures var m, p := Decode(w).magnitude, Pow2(exp);
            m <= s * p || m >= (s + 1) * p
  {
    hide Decode;
    var k := Grid(w, exp);
    var m, p := Decode(w).magnitude, Pow2(exp);
    Cancel(HIDDEN, s, p);
    Cancel(k, s, p);
    Cancel(s + 1, k, p);
  }

  /** The two neighbours of the exact value, in units of 2^-64. */
  lemma Neighbours(s: int, t: int, p: int, m: int)
    requires 0 <= t < U64 && p > 0 && (m <= s * p || m >= (s + 1) * p)
    ensures var x := (s * U64 + t) * p;
            && s * p * U64 == x - t * p && (s + 1) * p * U64 == x + (U64 - t) * p
            && (m <= s * p ==> m * U64 <= x - t * p)
            && (m >= (s + 1) * p ==> m * U64 >= x + (U64 - t) * p)
            && 0 <= t * p && 0 < (U64 - t) * p && (t > 0 ==> 0 < t * p)
  {
    var x := (s * U64 + t) * p;
    assert x == s * U64 * p + t * p;
    assert s * U64 * p == s * p * U64;
    assert (s + 1) * p * U64 == s * p * U64 + U64 * p;
    assert (U64 - t) * p == U64 * p - t * p;
    Cancel(0, t, p);
    Cancel(0, U64 - t, p);
  }

  // ---- the rounded value is the prescribed one -----------------------------------------------

  lemma BelowIsLargest(exp: nat, s: int, t: int)
    requires InRange(s, exp) && 0 <= t < U64
    ensures LargestBelow(s * Pow2(exp), (s * U64 + t) * Pow2(exp), U64)
  {
    hide Decode;
    var p := Pow2(exp);
    var x := (s * U64 + t) * p;
    Neighbours(s, t, p, s * p);
    forall w: Quad | Decode(w).Finite? && Decode(w).magnitude * U64 <= x ensures Decode(w).magnitude <= s * p {
      NoValueBetween(w, exp, s, t);
      Neighbours(s, t, p, Decode(w).magnitude);
    }
  }

  lemma AboveIsSmallest(exp: nat, s: int, t: int)
    requires InRange(s, exp) && 0 <= t < U64
    ensures var r := if t == 0 then s else s + 1;
            SmallestAbove(r * Pow2(exp), (s * U64 + t) * Pow2(exp), U64)
  {
    hide Decode;
    var p := Pow2(exp);
    var x, r := (s * U64 + t) * p, if t == 0 then s else s + 1;
    Neighbours(s, t, p, s * p);
    Cancel(s, s + 1, p);
    forall w: Quad | Decode(w).Finite? && Decode(w).magnitude * U64 >= x ensures Decode(w).magnitude >= r * p {
      NoValueBetween(w, exp, s, t);
      Neighbours(s, t, p, Decode(w).magnitude);
    }
  }

  /** The nearer of two neighbours `below` and `above` of `x` beats everything that is not between them. */
  lemma Nearer(x: int, below: int, above: int, chosen: int, other: int)
    requires below <= x < above && (other <= below || above <= other)
    requires chosen == below || chosen == above
    requires Distance(chosen, x) == x - below || Distance(chosen, x) == above - x
    requires Distance(chosen, x) <= x - below && Distance(chosen, x) <= above - x
    ensures Distance(chosen, x) <= Distance(other, x)
    ensures Distance(chosen, x) == Distance(other, x) && other != chosen ==> x - below == above - x
  {
  }

  /** Which neighbour the code picks. */
  lemma Picked(negative: bool, s: int, t: u64, p: int)
    requires p > 0
    ensures var r := RoundedSig(NearestEven, negative, s, t);
            && r == (if t < U64 / 2 || (t == U64 / 2 && s % 2 == 0) then s else s + 1)
            && (r == s ==> t * p <= (U64 - t) * p) && (r == s + 1 ==> (U64 - t) * p <= t * p)
            && (t * p == (U64 - t) * p ==> r % 2 == 0)
  {
    Cancel(t, U64 - t, p);
    Cancel(U64 - t, t, p);
  }

  lemma NearestNeighbour(z: Quad, exp: nat, s: int, t: u64, negative: bool)
    requires InRange(s, exp) && 0 <= t < U64
    requires var r := RoundedSig(NearestEven, negative, s, t);
             Decode(z) == Finite(negative, r * Pow2(exp)) && z.low % 2 == r % 2
    ensures Nearest(z, (s * U64 + t) * Pow2(exp), U64)
  {
    hide Decode, RoundedSig;
    var p := Pow2(exp);
    var x, r, m := (s * U64 + t) * p, RoundedSig(NearestEven, negative, s, t), Decode(z).magnitude;
    Neighbours(s, t, p, s * p);
    Picked(negative, s, t, p);
    forall w: Quad | Decode(w).Finite?
      ensures Distance(m * U64, x) <= Distance(Decode(w).magnitude * U64, x)
      ensures Decode(w).magnitude != m && Distance(m * U64, x) == Distance(Decode(w).magnitude * U64, x) ==>
                z.low % 2 == 0
    {
      NoValueBetween(w, exp, s, t);
      Neighbours(s, t, p, Decode(w).magnitude);
      Nearer(x, x - t * p, x + (U64 - t) * p, m * U64, Decode(w).magnitude * U64);
    }
  }

  lemma MidpointIs()
    ensures Midpoint(U64) == ((2 * HIDDEN - 1) * U64 + U64 / 2) * Pow2(MAX_EXPONENT)
  {
    hide Pow2;
  }

  lemma BelowMidpoint(exp: nat, s: int, t: int)
    requires exp <= MAX_EXPONENT && 0 <= s < 2 * HIDDEN && 0 <= t < U64
    requires exp == MAX_EXPONENT && s == 2 * HIDDEN - 1 ==> t < U64 / 2
    ensures (s * U64 + t) * Pow2(exp) < Midpoint(U64)
  {
    hide Pow2, Midpoint;
    MidpointIs();
    var n, mid := s * U64 + t, (2 * HIDDEN - 1) * U64 + U64 / 2;
    if exp == MAX_EXPONENT {
      Cancel(n, mid, Pow2(exp));
    } else {
      Pow2Split(exp, MAX_EXPONENT - 1);
      NextPow2(MAX_EXPONENT - 1);
      BelowByHalf(n, HIDDEN * U64, mid, Pow2(exp), Pow2(MAX_EXPONENT - 1));
    }
  }

  lemma BelowByHalf(n: int, a: int, mid: int, p: int, q: int)
    requires 0 <= n < 2 * a && a < mid && 1 <= p <= q
    ensures n * p < mid * (2 * q)
  {
    Cancel(n, 2 * a, p);
    MulMono(2 * a, p, q);
    Doubled(a, q);
    Cancel(a, mid, 2 * q);
  }

  lemma RoundedIsRight(mode: Mode, negative: bool, exp: nat, s: int, t: u64, z: Quad)
    requires exp <= MAX_EXPONENT && InRange(s, exp) && s < 2 * HIDDEN
    requires !(exp == MAX_EXPONENT && s == 2 * HIDDEN - 1 && Increment(mode, negative, t))
    requires var r := RoundedSig(mode, negative, s, t);
             Decode(z) == Finite(negative, r * Pow2(exp)) && z.low % 2 == r % 2
    ensures Rounds(mode, negative, (s * U64 + t) * Pow2(exp), U64, z)
  {
    hide Decode, LargestBelow, SmallestAbove, Nearest, Midpoint;
    match mode
    case NearestEven =>
      BelowMidpoint(exp, s, t);
      NearestNeighbour(z, exp, s, t, negative);
    case _ =>
      BelowIsLargest(exp, s, t);
      AboveIsSmallest(exp, s, t);
  }

  // ---- overflow ------------------------------------------------------------------------------

  /** The code's overflow condition. */
  predicate TooLarge(mode: Mode, negative: bool, exp: nat, s: int, t: u64) {
    exp > MAX_EXPONENT || (exp == MAX_EXPONENT && s == 2 * HIDDEN - 1 && Increment(mode, negative, t))
  }

  lemma FiniteMax(w: Quad)
    requires Decode(w).Finite?
    ensures Decode(w).magnitude <= MaxFinite()
  {
    hide Fraction, Exponent;
    FractionRange(w);
    var f, top := Fraction(w), Pow2(MAX_EXPONENT);
    Cancel(1, top, 2 * HIDDEN - 1);
    if Exponent(w) != 0 {
      var n: nat := Exponent(w) - 1;
      ExponentRange(w);
      Pow2Split(n, MAX_EXPONENT);
      Cancel(HIDDEN + f, 2 * HIDDEN - 1, Pow2(n));
      MulMono(2 * HIDDEN - 1, Pow2(n), top);
    }
  }

  lemma ExponentRange(w: Quad)
    ensures Exponent(w) < 0x8000
  {
  }

  /** Exact values from exponent 0x7FFE on. */
  lemma LargeInput(exp: nat, s: int, t: int)
    requires exp > MAX_EXPONENT && s >= HIDDEN && t >= 0
    ensures (s * U64 + t) * Pow2(exp) >= 2 * HIDDEN * U64 * Pow2(MAX_EXPONENT)
  {
    hide Pow2;
    Pow2Split(MAX_EXPONENT + 1, exp);
    NextPow2(MAX_EXPONENT);
    var a, b, p := HIDDEN * U64, s * U64 + t, Pow2(MAX_EXPONENT);
    MulBoth(a, b, p, Pow2(exp));
    assert 2 * HIDDEN * U64 * p == 2 * a * p;
  }

  lemma MulBoth(a: int, b: int, p: int, q: int)
    requires 0 <= a <= b && 0 <= 2 * p <= q
    ensures b * q >= 2 * a * p
  {
    assert b * q >= a * q by { MulMono(q, a, b); }
    assert a * q >= a * (2 * p) by { MulMono(a, 2 * p, q); }
  }

  /** Exact values up to exponent 0x7FFD. */
  lemma SmallInput(exp: nat, s: int, t: int)
    requires exp <= MAX_EXPONENT && 0 <= s < 2 * HIDDEN && 0 <= t < U64
    ensures (s * U64 + t) * Pow2(exp) < 2 * HIDDEN * U64 * Pow2(MAX_EXPONENT)
    ensures exp < MAX_EXPONENT || s < 2 * HIDDEN - 1 || t == 0
      ==> (s * U64 + t) * Pow2(exp) <= (2 * HIDDEN - 1) * U64 * Pow2(MAX_EXPONENT)
  {
    var n, top := s * U64 + t, Pow2(MAX_EXPONENT);
    if exp < MAX_EXPONENT {
      Pow2Split(exp + 1, MAX_EXPONENT);
      NextPow2(exp);
      hide Pow2;
      HalfMul(n, HIDDEN * U64, Pow2(exp), top);
      Cancel(HIDDEN * U64, (2 * HIDDEN - 1) * U64, top);
      Cancel((2 * HIDDEN - 1) * U64, 2 * HIDDEN * U64, top);
    } else {
      hide Pow2;
      Cancel(n, 2 * HIDDEN * U64, top);
      Cancel(n, (2 * HIDDEN - 1) * U64, top);
    }
  }

  lemma HalfMul(n: int, a: int, p: int, q: int)
    requires 0 <= n < 2 * a && 0 <= 2 * p <= q
    ensures n * p <= a * q
  {
    assert n * p <= (2 * a) * p by { MulMono(p, n, 2 * a); }
    assert (2 * a) * p == a * (2 * p);
    MulMono(a, 2 * p, q);
  }

  /** The flag conditions of section 7.3. */
  lemma OverflowIsRight(mode: Mode, negative: bool, exp: nat, s: int, t: u64)
    requires InRange(s, exp) && s < 2 * HIDDEN
    ensures TooLarge(mode, negative, exp, s, t) <==> Overflows(mode, negative, (s * U64 + t) * Pow2(exp), U64)
  {
    hide Pow2, Midpoint;
    var n, top := s * U64 + t, Pow2(MAX_EXPONENT);
    MidpointIs();
    Cancel((2 * HIDDEN - 1) * U64 + U64 / 2, 2 * HIDDEN * U64, top);
    Cancel((2 * HIDDEN - 1) * U64, 2 * HIDDEN * U64, top);
    if exp > MAX_EXPONENT {
      LargeInput(exp, s, t);
    } else {
      SmallInput(exp, s, t);
      if exp == MAX_EXPONENT {
        Cancel((2 * HIDDEN - 1) * U64 + U64 / 2, n, top);
        Cancel((2 * HIDDEN - 1) * U64, n, top);
      }
      if !TooLarge(mode, negative, exp, s, t) && mode.NearestEven? {
        BelowMidpoint(exp, s, t);
      }
    }
  }

  /** The largest finite magnitude in units of 2^-64, and the first one past it. */
  lemma MaxTimes64()
    ensures MaxFinite() * U64 == (2 * HIDDEN - 1) * U64 * Pow2(MAX_EXPONENT) < 2 * HIDDEN * U64 * Pow2(MAX_EXPONENT)
    ensures MaxFinite() * U64 < Midpoint(U64)
  {
    var top := Pow2(MAX_EXPONENT);
    Regroup(2 * HIDDEN - 1, U64, top);
    Cancel((2 * HIDDEN - 1) * U64, 2 * HIDDEN * U64, top);
    Cancel(0, U64 / 2, top);
  }

  lemma Regroup(a: int, b: int, c: int)
    ensures a * c * b == a * b * c
  {
  }

  /** The largest finite value, for roundings that move the magnitude down. */
  lemma MaxIsRight(mode: Mode, negative: bool, x: int, z: Quad)
    requires TowardZero(mode, negative) && Decode(z) == Finite(negative, MaxFinite())
    requires x >= 2 * HIDDEN * U64 * Pow2(MAX_EXPONENT)
    ensures Rounds(mode, negative, x, U64, z) && !Exact(x, U64, z)
  {
    hide Decode, MaxFinite, Midpoint, Pow2;
    MaxTimes64();
    forall w: Quad | Decode(w).Finite? ensures Decode(w).magnitude <= MaxFinite() {
      FiniteMax(w);
    }
  }

  /** Infinity, for the others. */
  lemma InfinityIsRight(mode: Mode, negative: bool, x: int, z: Quad)
    requires !TowardZero(mode, negative) && Decode(z) == Infinite(negative) && Overflows(mode, negative, x, U64)
    ensures Rounds(mode, negative, x, U64, z) && !Exact(x, U64, z)
  {
    hide Decode, MaxFinite, Midpoint, Pow2;
    MaxTimes64();
    forall w: Quad | Decode(w).Finite? ensures Decode(w).magnitude <= MaxFinite() {
      FiniteMax(w);
    }
  }

  /** A finite result is exact when there is nothing to round off. */
  lemma ExactIf(mode: Mode, negative: bool, exp: nat, s: int, t: u64, z: Quad)
    requires Decode(z).Finite? && Decode(z).magnitude == RoundedSig(mode, negative, s, t) * Pow2(exp)
    ensures Exact((s * U64 + t) * Pow2(exp), U64, z) <==> t == 0
  {
    hide Decode, RoundedSig, Pow2;
    var r, p := RoundedSig(mode, negative, s, t), Pow2(exp);
    RoundedRange(mode, negative, s, t);
    NothingRounded(mode, negative, s);
    Regroup(r, U64, p);
    Cancel(r * U64, s * U64 + t, p);
    Cancel(s * U64 + t, r * U64, p);
  }

  lemma NothingRounded(mode: Mode, negative: bool, s: int)
    ensures RoundedSig(mode, negative, s, 0) == s
  {
  }

  // ---- the code ------------------------------------------------------------------------------

  /** A 128-bit increment. */
  function Next(sig0: u64, sig1: u64): (u64, u64) {
    var n := sig0 * U64 + sig1 + 1;
    (n / U64 % U64, n % U64)
  }

  lemma NextIs(sig0: u64, sig1: u64)
    requires sig0 < 0x2_0000_0000_0000
    ensures var (n0, n1) := Next(sig0, sig1);
            n0 * U64 + n1 == sig0 * U64 + sig1 + 1 && n1 % 2 == (sig0 * U64 + sig1 + 1) % 2
  {
    var n := sig0 * U64 + sig1 + 1;
    if sig1 == U64 - 1 {
      DivUnique(n, U64, sig0 + 1, 0);
    } else {
      DivUnique(n, U64, sig0, sig1 + 1);
    }
    EvenUnit(n / U64, n % U64);
  }

  lemma EvenUnit(high: int, low: int)
    ensures (high * U64 + low) % 2 == low % 2
  {
    assert high * U64 + low == 2 * (high * (U64 / 2) + low / 2) + low % 2;
    DivUnique(high * U64 + low, 2, high * (U64 / 2) + low / 2, low % 2);
  }

  /** Whether to round up, from the mode and the bits below the last place. */
  method DecideIncrement(mode: Mode, zSign: bool, zSig2: u64) returns (increment: bool)
    ensures increment == Increment(mode, zSign, zSig2)
  {
    increment := zSig2 >= 0x8000_0000_0000_0000;
    if mode != NearestEven {
      if mode == ToZero {
        increment := false;
      } else if zSign {
        increment := mode == Down && zSig2 != 0;
      } else {
        increment := mode == Up && zSig2 != 0;
      }
    }
  }

  /** Round the significand; a tie clears its last bit. */
  method RoundSig(mode: Mode, zSign: bool, increment: bool, sig0: u64, sig1: u64, zSig2: u64)
    returns (zSig0: u64, zSig1: u64)
    requires increment == Increment(mode, zSign, zSig2)
    requires sig0 < 0x2_0000_0000_0000
    ensures zSig0 * U64 + zSig1 == RoundedSig(mode, zSign, sig0 * U64 + sig1, zSig2)
  {
    hide Next, Increment;
    NextIs(sig0, sig1);
    zSig0, zSig1 := sig0, sig1;
    if increment {
      var next := Next(zSig0, zSig1);
      zSig0, zSig1 := next.0, next.1;
      if (zSig2 + zSig2) % U64 == 0 && mode == NearestEven {
        zSig1 := zSig1 - zSig1 % 2;
      }
    }
  }

  lemma SigRange(mode: Mode, zSign: bool, sig0: u64, sig1: u64, zSig2: u64, zSig0: u64, zSig1: u64, s: int, r: int)
    requires sig0 < 0x2_0000_0000_0000
    requires s == sig0 * U64 + sig1 && r == RoundedSig(mode, zSign, s, zSig2) && zSig0 * U64 + zSig1 == r
    ensures 0 <= s < 2 * HIDDEN && (sig0 >= 0x1_0000_0000_0000 ==> s >= HIDDEN && zSig0 >= 0x1_0000_0000_0000)
        && zSig1 % 2 == r % 2
    ensures zSig0 < 0x2_0000_0000_0000 || (zSig0 == 0x2_0000_0000_0000 && zSig1 == 0)
    ensures zSig0 == 0x2_0000_0000_0000 ==> s == 2 * HIDDEN - 1 && Increment(mode, zSign, zSig2)
  {
    hide RoundedSig, Increment;
    RoundedRange(mode, zSign, s, zSig2);
    EvenUnit(zSig0, zSig1);
  }

  lemma RoundedRange(mode: Mode, negative: bool, s: int, sig2: u64)
    ensures var r := RoundedSig(mode, negative, s, sig2);
            s <= r <= s + 1 && (r == s + 1 ==> Increment(mode, negative, sig2))
  {
    hide Increment;
  }

  /** What the flags must be: overflow and inexact as sections 7.3 and 7.5 say, and underflow for a result that is
      tiny and inexact.  A significand that is not normalized may only come with exponent 0 and nothing to round;
      the code never raises underflow for one. */
  ghost function Flags(flags: set<Flag>, before: bool, mode: Mode, negative: bool, normalized: bool, x: int,
          unit: int, z: Quad): set<Flag>
  {
    flags
    + (if Overflows(mode, negative, x, unit) then {Overflow} else {})
    + (if Exact(x, unit, z) then {} else {Inexact})
    + (if normalized && Tiny(before, mode, negative, x, unit) && !Exact(x, unit, z) then {Underflow} else {})
  }

  /** The exponent reaches the right shift as a 16-bit number: its magnitude from -32767 on, and another number
      below that. */
  function Count(zExp: int): int {
    (-zExp + 0x8000) % 0x1_0000 - 0x8000
  }

  /** An exponent below -32767 leaves less than half of the smallest magnitude.  Shifting the significand `s`, with
      the bits `t` below it, by another count `k` still rounds it to zero, or away from zero to that magnitude. */
  predicate FarEnough(mode: Mode, negative: bool, k: int, s: int, t: u64) {
    if mode.NearestEven? then k >= 114 || (k == 113 && s == HIDDEN && t == 0)
    else if TowardZero(mode, negative) then k >= 113
    else k >= 113 || (k == 112 && s == HIDDEN && t == 0)
  }

  /** The shift by `k` places drops bits that are not zero. */
  predicate Drops(k: nat, s: int, t: u64) {
    (s * U64 + t) % (U64 * Pow2(k)) != 0
  }

  /** The result is the one the standard prescribes for the exact value, in all four modes, and so are the flags
      it raises; `before` is the tininess detection mode.  Exponents below -32767 are the exception, for which both
      hold just as far as the wrapped count allows.  C leaves shifts by a negative count open. */
  method RoundAndPack(before: bool, mode: Mode, flags: set<Flag>, zSign: bool, zExp: int,
          sig0: u64, sig1: u64, zSig2: u64)
    returns (z: Quad, newFlags: set<Flag>)
    requires sig0 < 0x2_0000_0000_0000 && (sig0 >= 0x1_0000_0000_0000 || zExp == 0)
    requires zExp < 0 ==> Count(zExp) >= 0
    ensures var x, unit, s := Input(zExp, sig0, sig1, zSig2), Unit(zExp), sig0 * U64 + sig1;
            && (Rounds(mode, zSign, x, unit, z)
                <==> zExp >= -0x7FFF || FarEnough(mode, zSign, Count(zExp), s, zSig2))
            && (newFlags == Flags(flags, before, mode, zSign, sig0 >= 0x1_0000_0000_0000, x, unit, z)
                <==> zExp >= -0x7FFF || Drops(Count(zExp), s, zSig2) || {Underflow, Inexact} <= flags)
  {
    hide Rounds, Overflows, Exact, Decode, Pack, MaxFinite, Increment, RoundedSig, Tiny, Pow2;
    ghost var s := sig0 * U64 + sig1;
    var increment := DecideIncrement(mode, zSign, zSig2);
    if zExp < 0 {
      z, newFlags := PackSmall(before, mode, flags, zSign, zExp, sig0, sig1, zSig2, increment);
      return;
    }
    OverflowIsRight(mode, zSign, zExp, s, zSig2);
    if sig0 >= 0x1_0000_0000_0000 {
      NotTiny(before, mode, zSign, zExp, s, zSig2);
    }
    if 0x7FFD < zExp
      || (zExp == 0x7FFD && sig0 == 0x1_FFFF_FFFF_FFFF && sig1 == 0xFFFF_FFFF_FFFF_FFFF && increment)
    {
      z, newFlags := Overflowed(mode, flags, zSign, zExp, sig0, sig1, zSig2);
      return;
    }
    newFlags := if zSig2 != 0 then flags + {Inexact} else flags;
    z := Finish(mode, zSign, zExp, sig0, sig1, zSig2, increment);
    assert !TooLarge(mode, zSign, zExp, s, zSig2);
    RoundedIsRight(mode, zSign, zExp, s, zSig2, z);
    ExactIf(mode, zSign, zExp, s, zSig2, z);
  }

  /** Round the significand and pack; a result of zero gets exponent zero. */
  method Finish(mode: Mode, zSign: bool, zExpIn: nat, sig0: u64, sig1: u64, zSig2: u64, increment: bool)
    returns (z: Quad)
    requires sig0 < 0x2_0000_0000_0000 && (sig0 >= 0x1_0000_0000_0000 || zExpIn == 0) && zExpIn <= MAX_EXPONENT
    requires increment == Increment(mode, zSign, zSig2)
    requires !TooLarge(mode, zSign, zExpIn, sig0 * U64 + sig1, zSig2)
    ensures var r := RoundedSig(mode, zSign, sig0 * U64 + sig1, zSig2);
            Decode(z) == Finite(zSign, r * Pow2(zExpIn)) && z.low % 2 == r % 2
  {
    hide Decode, Pack, Increment, RoundedSig, Pow2;
    var zExp := zExpIn;
    ghost var s := sig0 * U64 + sig1;
    var zSig0, zSig1 := RoundSig(mode, zSign, increment, sig0, sig1, zSig2);
    if !increment && zSig0 == 0 && zSig1 == 0 {
      zExp := 0;
    }
    SigRange(mode, zSign, sig0, sig1, zSig2, zSig0, zSig1, s, RoundedSig(mode, zSign, s, zSig2));
    RoundedRange(mode, zSign, s, zSig2);
    z := Pack(zSign, zExp, zSig0, zSig1);
    Packed(zSign, zExp, zSig0, zSig1);
    PackedLow(zSign, zExp, zSig0, zSig1);
  }

  // ---- subnormal results ---------------------------------------------------------------------

  /** 128-bit less-than. */
  predicate Less128(a0: u64, a1: u64, b0: u64, b1: u64) {
    a0 < b0 || (a0 == b0 && a1 < b1)
  }

  /** Negative exponents: denormalize first. */
  method PackSmall(before: bool, mode: Mode, flags: set<Flag>, zSign: bool, zExp: int,
          sig0: u64, sig1: u64, zSig2: u64, wouldIncrement: bool)
    returns (z: Quad, newFlags: set<Flag>)
    requires 0x1_0000_0000_0000 <= sig0 < 0x2_0000_0000_0000 && zExp < 0 && Count(zExp) >= 0
    requires wouldIncrement == Increment(mode, zSign, zSig2)
    ensures var s := sig0 * U64 + sig1;
            var x, unit := s * U64 + zSig2, U64 * Pow2(-zExp);
            && (Rounds(mode, zSign, x, unit, z)
                <==> zExp >= -0x7FFF || FarEnough(mode, zSign, Count(zExp), s, zSig2))
            && (newFlags == Flags(flags, before, mode, zSign, true, x, unit, z)
                <==> zExp >= -0x7FFF || Drops(Count(zExp), s, zSig2) || {Underflow, Inexact} <= flags)
  {
    hide Rounds, Overflows, Exact, Decode, Pack, Increment, RoundedSig, Tiny, Pow2, Jammed, FarEnough;
    ghost var s, x, unit := sig0 * U64 + sig1, (sig0 * U64 + sig1) * U64 + zSig2, U64 * Pow2(-zExp);
    var isTiny := before || zExp < -1 || !wouldIncrement
        || Less128(sig0, sig1, 0x1_FFFF_FFFF_FFFF, 0xFFFF_FFFF_FFFF_FFFF);
    TinyIsRight(before, mode, zSign, -zExp, s, zSig2);
    var count: nat := Count(zExp);
    var s0, s1, s2 := ShiftJam(sig0, sig1, zSig2, count);
    newFlags := flags;
    if isTiny && s2 != 0 {
      newFlags := newFlags + {Underflow};
    }
    var increment := DecideIncrement(mode, zSign, s2);
    if s2 != 0 {
      newFlags := newFlags + {Inexact};
    }
    Denormalized(s, zSig2, count);
    z := Finish(mode, zSign, 0, s0, s1, s2, increment);
    PowZero();
    SmallIsRight(mode, zSign, zExp, s, zSig2, s2, z);
  }

  /** `z` is a finite value of magnitude `r`. */
  predicate Rounded(z: Quad, negative: bool, r: int) {
    Decode(z).Finite? && Decode(z).negative == negative && Decode(z).magnitude == r
  }

  /** What a negative exponent gives, rounded from the fraction that the shift has jammed into `rest`. */
  lemma SmallIsRight(mode: Mode, negative: bool, zExp: int, s: int, t: u64, rest: u64, z: Quad)
    requires HIDDEN <= s < 2 * HIDDEN && zExp < 0 && Count(zExp) >= 0 && U64 * Pow2(Count(zExp)) > 0
    requires var x, shifted := s * U64 + t, U64 * Pow2(Count(zExp));
             && Jammed(rest, x % shifted, shifted)
             && var r := RoundedSig(mode, negative, x / shifted, rest);
                Rounded(z, negative, r) && z.low % 2 == r % 2
    ensures var x, unit := s * U64 + t, U64 * Pow2(-zExp);
            && (Rounds(mode, negative, x, unit, z)
                <==> zExp >= -0x7FFF || FarEnough(mode, negative, Count(zExp), s, t))
            && !Overflows(mode, negative, x, unit)
            && (Exact(x, unit, z) <==> zExp >= -0x7FFF && rest == 0)
            && (rest != 0 <==> Drops(Count(zExp), s, t))
  {
    hide Decode, RoundedSig, Rounds, Overflows, Exact, FarEnough, Pow2;
    PowZero();
    var x, unit := s * U64 + t, U64 * Pow2(-zExp);
    if zExp >= -0x7FFF {
      Denormalized(s, t, -zExp);
      SubnormalIsRight(mode, negative, x / unit, rest, x % unit, unit, z);
      WholeAndRest(x, unit);
      NoOverflow(mode, negative, x / unit, x % unit, unit);
    } else {
      WrappedIsRight(mode, negative, -zExp, Count(zExp), s, t, rest, z);
    }
  }

  // ---- exponents beyond the 16-bit count -----------------------------------------------------

  /** With `count` for the shift instead of the far larger `exp`, the result is right just when everything is
      shifted far enough; the exact value, not zero, is tiny and never representable. */
  lemma WrappedIsRight(mode: Mode, negative: bool, exp: nat, count: nat, s: int, t: u64, rest: u64, z: Quad)
    requires HIDDEN <= s < 2 * HIDDEN && exp > 0x7FFF && U64 * Pow2(count) > 0
    requires var x, shifted := s * U64 + t, U64 * Pow2(count);
             && Jammed(rest, x % shifted, shifted)
             && Rounded(z, negative, RoundedSig(mode, negative, x / shifted, rest))
    ensures var x, unit := s * U64 + t, U64 * Pow2(exp);
            && (Rounds(mode, negative, x, unit, z) <==> FarEnough(mode, negative, count, s, t))
            && !Overflows(mode, negative, x, unit) && !Exact(x, unit, z)
  {
    hide Decode, Pow2, Jammed, RoundedSig, Rounds, Overflows, FarEnough, Exact;
    var x, unit := s * U64 + t, U64 * Pow2(exp);
    FarUnit(x, exp);
    NoOverflow(mode, negative, 0, x, unit);
    NothingNear(mode, negative, x, unit, z);
    ShiftedFar(mode, negative, count, s, t, rest);
  }

  /** For -65536 nothing is shifted, and the significand itself is packed. */
  lemma WrappedExample()
    ensures Count(-0x1_0000) == 0
    ensures var x, unit := Input(-0x1_0000, 0x1_0000_0000_0000, 0, 0), Unit(-0x1_0000);
            !Rounds(NearestEven, false, x, unit, Pack(false, 0, 0x1_0000_0000_0000, 0))
  {
    hide Decode, Rounds, Pack, Pow2;
    var x, unit := HIDDEN * U64, U64 * Pow2(0x1_0000);
    FarUnit(x, 0x1_0000);
    PowZero();
    Packed(false, 0, 0x1_0000_0000_0000, 0);
    NothingNear(NearestEven, false, x, unit, Pack(false, 0, 0x1_0000_0000_0000, 0));
  }

  lemma FarUnit(x: int, exp: nat)
    requires 0 <= x < 2 * HIDDEN * U64 && exp > 0x7FFF
    ensures 2 * x < U64 * Pow2(exp)
  {
    hide Pow2;
    Pow2Split(128, exp);
    Pow64(64);
    Pow2Add(64, 64);
    MulMono(U64, U64 * U64, Pow2(exp));
  }

  /** What is less than half of the smallest magnitude becomes zero, or that magnitude when rounded away from zero. */
  lemma NothingNear(mode: Mode, negative: bool, x: int, unit: int, z: Quad)
    requires 0 < x && 2 * x < unit && Decode(z).Finite? && Decode(z).negative == negative
    ensures var away := !mode.NearestEven? && !TowardZero(mode, negative);
            Rounds(mode, negative, x, unit, z) <==> Decode(z).magnitude == if away then 1 else 0
    ensures !Exact(x, unit, z)
  {
    hide Decode, Midpoint, Pow2;
    var zero, one, m := Pack(false, 0, 0, 0), Pack(false, 0, 0, 1), Decode(z).magnitude;
    Packed(false, 0, 0, 0);
    Packed(false, 0, 0, 1);
    PowZero();
    NoOverflow(mode, negative, 0, x, unit);
    forall w: Quad | Decode(w).Finite? && Decode(w).magnitude > 0 ensures Decode(w).magnitude * unit >= unit {
      Cancel(1, Decode(w).magnitude, unit);
    }
    Cancel(1, m, unit);
    Cancel(2, m, unit);
    assert Decode(zero).magnitude == 0 && Decode(one).magnitude == 1;
  }

  lemma ShiftedFar(mode: Mode, negative: bool, k: nat, s: int, t: u64, rest: u64)
    requires HIDDEN <= s < 2 * HIDDEN && U64 * Pow2(k) > 0
    requires var x, unit := s * U64 + t, U64 * Pow2(k); Jammed(rest, x % unit, unit)
    ensures var x, unit := s * U64 + t, U64 * Pow2(k);
            var away := !mode.NearestEven? && !TowardZero(mode, negative);
            FarEnough(mode, negative, k, s, t)
            <==> RoundedSig(mode, negative, x / unit, rest) == if away then 1 else 0
  {
    hide Pow2, RoundedSig, FarEnough;
    var p := Pow2(k);
    Whole(s, t, p);
    HiddenIs();
    if k < 112 {
      Pow2Split(k, 111);
      AtLeastTwo(s, p);
    } else if k == 112 {
      DivUnique(s, p, 1, s - p);
    } else {
      Pow2Split(if k == 113 then 113 else 114, k);
      DivUnique(s, p, 0, s);
    }
    RoundedNear(mode, negative, k, s, t, rest, p);
  }

  lemma ByteIs()
    ensures Pow2(8) == 0x100
  {
  }

  lemma HiddenIs()
    ensures Pow2(112) == HIDDEN && Pow2(111) == HIDDEN / 2 && Pow2(113) == 2 * HIDDEN && Pow2(114) == 4 * HIDDEN
  {
    Pow64(64);
    Pow2Is32();
    ByteIs();
    hide Pow2;
    Pow2Add(8, 8);
    Pow2Add(64, 32);
    Pow2Add(96, 16);
    NextPow2(111);
    NextPow2(112);
    NextPow2(113);
  }

  lemma AtLeastTwo(s: int, p: int)
    requires 0 < p && 2 * p <= s
    ensures s / p >= 2
  {
    var q := s / p;
    assert s == p * q + s % p;
    if q < 2 {
      MulMono(p, q, 1);
    }
  }

  lemma RoundedNear(mode: Mode, negative: bool, k: nat, s: int, t: u64, rest: u64, p: int)
    requires HIDDEN <= s < 2 * HIDDEN && p > 0
    requires Jammed(rest, s % p * U64 + t, U64 * p)
    requires k < 112 ==> s / p >= 2
    requires k == 112 ==> p == HIDDEN && s / p == 1 && s % p == s - HIDDEN
    requires k >= 113 ==> s / p == 0 && s % p == s && (if k == 113 then p == 2 * HIDDEN else p >= 4 * HIDDEN)
    ensures var away := !mode.NearestEven? && !TowardZero(mode, negative);
            FarEnough(mode, negative, k, s, t)
            <==> RoundedSig(mode, negative, s / p, rest) == if away then 1 else 0
  {
  }

  lemma WholeAndRest(x: int, unit: int)
    requires unit > 0
    ensures x == x / unit * unit + x % unit && 0 <= x % unit < unit
  {
  }

  /** The integer part after the shift. */
  lemma Denormalized(s: int, t: u64, count: nat)
    requires 0 <= s < 2 * HIDDEN
    ensures var unit := U64 * Pow2(count);
            unit > 0 && 0 <= (s * U64 + t) / unit < 2 * HIDDEN && (count > 0 ==> (s * U64 + t) / unit < HIDDEN)
  {
    if count > 0 {
      TwoAtLeast(count);
    }
    hide Pow2;
    Whole(s, t, Pow2(count));
    Quotients(s, Pow2(count));
  }

  lemma Quotients(s: int, p: int)
    requires 0 <= s < 2 * HIDDEN && p > 0
    ensures 0 <= s / p < 2 * HIDDEN && (p >= 2 ==> s / p < HIDDEN)
  {
    Shifts.ShrSmaller(s, p);
    var q := s / p;
    assert s == p * q + s % p;
    if p >= 2 && q >= HIDDEN {
      MulMono(p, HIDDEN, q);
      MulMono(HIDDEN, 2, p);
    }
  }

  /** What the code decides about tininess from the significand, and what tiny after rounding means: the significand
      rounded to its full width, `count` places further down, is below the smallest normal one. */
  lemma TinyIsRight(before: bool, mode: Mode, negative: bool, count: nat, s: int, t: u64)
    requires HIDDEN <= s < 2 * HIDDEN && count > 0
    ensures before || count > 1 || !Increment(mode, negative, t) || s < 2 * HIDDEN - 1
       <==> Tiny(before, mode, negative, s * U64 + t, U64 * Pow2(count))
    ensures Tiny(false, mode, negative, s * U64 + t, U64 * Pow2(count))
       <==> RoundedSig(mode, negative, s, t) < HIDDEN * Pow2(count)
  {
    RoundedRange(mode, negative, s, t);
    TwoAtLeast(count);
    var p := Pow2(count);
    if count > 1 {
      FourAtLeast(count);
      MulMono(HIDDEN * U64, 4, p);
      MulMono((4 * HIDDEN - 1) * U64, 4, p);
      MulMono((2 * HIDDEN - 1) * U64, 4, p);
    } else {
      assert p == 2;
    }
  }

  lemma FourAtLeast(k: nat)
    requires k > 1
    ensures Pow2(k) >= 4
  {
    TwoAtLeast(k - 1);
  }

  lemma NotTiny(before: bool, mode: Mode, negative: bool, exp: nat, s: int, t: u64)
    requires s >= HIDDEN
    ensures !Tiny(before, mode, negative, (s * U64 + t) * Pow2(exp), U64)
  {
    var n := s * U64 + t;
    MulMono(n, 1, Pow2(exp));
  }

  lemma NoOverflow(mode: Mode, negative: bool, s: int, f: int, unit: int)
    requires 0 <= s < HIDDEN && 0 <= f < unit
    ensures !Overflows(mode, negative, s * unit + f, unit) && s * unit + f < Midpoint(unit)
  {
    var top := Pow2(MAX_EXPONENT);
    MulMono(unit, s, HIDDEN - 1);
    assert s * unit == unit * s;
    var a := (2 * HIDDEN - 1) * unit;
    MulMono(a, 1, top);
    Positive(unit / 2, top);
    assert 2 * HIDDEN * unit * top == (2 * HIDDEN * unit) * top;
    MulMono(2 * HIDDEN * unit, 1, top);
  }

  /** Finite values near zero are whole numbers of units. */
  lemma SubnormalIsRight(mode: Mode, negative: bool, s: int, t: u64, f: int, unit: int, z: Quad)
    requires 0 <= s < HIDDEN && 0 <= f < unit && Jammed(t, f, unit)
    requires var r := RoundedSig(mode, negative, s, t);
             Decode(z) == Finite(negative, r * Pow2(0)) && z.low % 2 == r % 2
    ensures Rounds(mode, negative, s * unit + f, unit, z)
    ensures Exact(s * unit + f, unit, z) <==> t == 0
  {
    hide Decode, LargestBelow, SmallestAbove, Nearest, Midpoint, Overflows;
    NoOverflow(mode, negative, s, f, unit);
    PowZero();
    Steps(s, f, unit);
    match mode
    case NearestEven => SubnormalNearest(z, s, t, f, unit, negative);
    case _ =>
      SubnormalBelow(s, f, unit);
      SubnormalAbove(s, f, unit);
  }

  lemma Steps(s: int, f: int, unit: int)
    requires 0 <= f < unit
    ensures (s + 1) * unit == s * unit + unit
  {
  }

  lemma SubnormalBelow(s: int, f: int, unit: int)
    requires 0 <= f < unit
    ensures LargestBelow(s, s * unit + f, unit)
  {
    hide Decode;
    forall w: Quad | Decode(w).Finite? && Decode(w).magnitude * unit <= s * unit + f ensures Decode(w).magnitude <= s {
      Cancel(s + 1, Decode(w).magnitude, unit);
      Steps(s, f, unit);
    }
  }

  lemma SubnormalAbove(s: int, f: int, unit: int)
    requires 0 <= f < unit
    ensures SmallestAbove(if f == 0 then s else s + 1, s * unit + f, unit)
  {
    hide Decode;
    Steps(s, f, unit);
    forall w: Quad | Decode(w).Finite? && Decode(w).magnitude * unit >= s * unit + f
      ensures Decode(w).magnitude >= if f == 0 then s else s + 1
    {
      Cancel(Decode(w).magnitude, s, unit);
      Cancel(s, Decode(w).magnitude, unit);
    }
  }

  lemma SubnormalNearest(z: Quad, s: int, t: u64, f: int, unit: int, negative: bool)
    requires 0 <= s && 0 <= f < unit && Jammed(t, f, unit)
    requires var r := RoundedSig(NearestEven, negative, s, t);
             Decode(z) == Finite(negative, r) && z.low % 2 == r % 2
    ensures Nearest(z, s * unit + f, unit)
  {
    hide Decode, RoundedSig;
    var x, r := s * unit + f, RoundedSig(NearestEven, negative, s, t);
    Steps(s, f, unit);
    Picked(negative, s, t, 1);
    forall w: Quad | Decode(w).Finite?
      ensures Distance(r * unit, x) <= Distance(Decode(w).magnitude * unit, x)
      ensures Decode(w).magnitude != r && Distance(r * unit, x) == Distance(Decode(w).magnitude * unit, x)
          ==> z.low % 2 == 0
    {
      var k := Decode(w).magnitude;
      Cancel(k, s, unit);
      Cancel(s + 1, k, unit);
      Cancel(k, r, unit);
      Cancel(r, k, unit);
      Nearer(x, s * unit, (s + 1) * unit, r * unit, k * unit);
    }
  }

  lemma PackedLow(negative: bool, exp: int, sig0: u64, sig1: u64)
    ensures Pack(negative, exp, sig0, sig1).low == sig1
  {
  }

  /** Infinity or the largest finite value, by mode and sign. */
  method Overflowed(mode: Mode, flags: set<Flag>, zSign: bool, zExp: nat, sig0: u64, sig1: u64, zSig2: u64)
    returns (z: Quad, newFlags: set<Flag>)
    requires sig0 < 0x2_0000_0000_0000 && (sig0 >= 0x1_0000_0000_0000 || zExp == 0)
    requires TooLarge(mode, zSign, zExp, sig0 * U64 + sig1, zSig2)
    ensures Rounds(mode, zSign, Input(zExp, sig0, sig1, zSig2), U64, z)
        && !Exact(Input(zExp, sig0, sig1, zSig2), U64, z)
    ensures newFlags == flags + {Overflow} + {Inexact}
  {
    hide Rounds, Overflows, Exact, Decode, Pack, MaxFinite, Pow2;
    ghost var s, x := sig0 * U64 + sig1, Input(zExp, sig0, sig1, zSig2);
    OverflowIsRight(mode, zSign, zExp, s, zSig2);
    newFlags := flags + {Overflow, Inexact};
    if mode == ToZero || (zSign && mode == Up) || (!zSign && mode == Down) {
      z := Pack(zSign, 0x7FFE, 0xFFFF_FFFF_FFFF, 0xFFFF_FFFF_FFFF_FFFF);
      PackedMax(zSign);
      LargeInput(zExp, s, zSig2);
      MaxIsRight(mode, zSign, x, z);
    } else {
      z := Pack(zSign, 0x7FFF, 0, 0);
      PackedInfinity(zSign);
      InfinityIsRight(mode, zSign, x, z);
    }
  }

  lemma PackedMax(negative: bool)
    ensures Decode(Pack(negative, 0x7FFE, 0xFFFF_FFFF_FFFF, 0xFFFF_FFFF_FFFF_FFFF)) == Finite(negative, MaxFinite())
  {
    hide Negative, Exponent, Fraction;
    PackedFields(negative, 0x7FFE, 0xFFFF_FFFF_FFFF, 0xFFFF_FFFF_FFFF_FFFF);
  }

  lemma PackedInfinity(negative: bool)
    ensures Decode(Pack(negative, 0x7FFF, 0, 0)) == Infinite(negative)
  {
    hide Negative, Exponent, Fraction;
    PackedFields(negative, 0x7FFF, 0, 0);
  }
}
