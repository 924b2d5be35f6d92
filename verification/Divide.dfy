/** Long division of 64-bit dividends: the 64-bit division, and the shift-and-subtract version for
    builds without 64-bit integers. */
module Divide {
  import opened Words
  import opened Powers
  import Shifts
  import opened Registers
  import opened Multiply

  // ---- what the instruction means ------------------------------------------------------------

  function Abs(n: int): nat {
    if n < 0 then -n else n
  }

  /** The dividend dh:dl and the divisor as numbers. */
  function Dividend(isSigned: bool, hi: u32, lo: u32): int {
    if isSigned then Signed(hi) * TWO_32 + lo else hi * TWO_32 + lo
  }

  function Divisor(isSigned: bool, divisor: u32): int {
    if isSigned then Signed(divisor) else divisor
  }

  /** The quotient, truncated toward zero. */
  function Quotient(n: int, d: int): int
    requires d != 0
  {
    if (n < 0) != (d < 0) then -(Abs(n) / Abs(d)) else Abs(n) / Abs(d)
  }

  /** The remainder, with the dividend's sign. */
  function Remainder(n: int, d: int): int
    requires d != 0
  {
    if n < 0 then -(Abs(n) % Abs(d)) else Abs(n) % Abs(d)
  }

  /** Quotient and remainder are what division means. */
  lemma DivisionLaw(n: int, d: int)
    requires d != 0
    ensures n == Quotient(n, d) * d + Remainder(n, d)
    ensures Abs(Remainder(n, d)) < Abs(d)
    ensures Remainder(n, d) != 0 ==> (Remainder(n, d) < 0 <==> n < 0)
  {
    var q, r := Abs(n) / Abs(d), Abs(n) % Abs(d);
    DivMod(Abs(n), Abs(d));
    SignedLaw(n, d, q, r);
  }

  lemma DivMod(a: int, b: int)
    requires b > 0
    ensures a == a / b * b + a % b && 0 <= a % b < b
  {
  }

  lemma SignedLaw(n: int, d: int, q: int, r: int)
    requires Abs(n) == q * Abs(d) + r
    ensures n == (if (n < 0) != (d < 0) then -q else q) * d + (if n < 0 then -r else r)
  {
    SignRule(q, d);
  }

  predicate FitsQuotient(isSigned: bool, q: int) {
    if isSigned then -0x8000_0000 <= q < 0x8000_0000 else q < TWO_32
  }

  function Store(d: seq<u32>, ccr: Ccr, dh: nat, dl: nat, quotient: u32, remainder: u32): (seq<u32>, Ccr)
    requires |d| == 8 && dh < 8 && dl < 8
  {
    (d[dh := remainder][dl := quotient], Ccr(ccr.x, quotient >= 0x8000_0000, quotient == 0, false, false))
  }

  /** Registers and codes after DIVS.L or DIVU.L of dh:dl; a quotient that does not fit only sets V. */
  function Divided(d: seq<u32>, ccr: Ccr, isSigned: bool, dh: nat, dl: nat, divisor: u32): (seq<u32>, Ccr)
    requires |d| == 8 && dh < 8 && dl < 8 && divisor != 0
  {
    var n, m := Dividend(isSigned, d[dh], d[dl]), Divisor(isSigned, divisor);
    if FitsQuotient(isSigned, Quotient(n, m))
    then Store(d, ccr, dh, dl, Wrap(Quotient(n, m)), Wrap(Remainder(n, m)))
    else (d, ccr.(v := true))
  }

  /** What the build without 64-bit integers does: it judges the magnitude of a signed quotient, but for the one
      division it knows as 2^31 / -1. */
  function Divided32(d: seq<u32>, ccr: Ccr, isSigned: bool, dh: nat, dl: nat, divisor: u32): (seq<u32>, Ccr)
    requires |d| == 8 && dh < 8 && dl < 8 && divisor != 0
  {
    var n, m := Dividend(isSigned, d[dh], d[dl]), Divisor(isSigned, divisor);
    if n == 0x8000_0000 && m == -1 then Store(d, ccr, dh, dl, 0x8000_0000, 0)
    else if Abs(n) / Abs(m) >= Limit(isSigned) then (d, ccr.(v := true))
    else Store(d, ccr, dh, dl, Wrap(Quotient(n, m)), Wrap(Remainder(n, m)))
  }

  /** Registers `d'` and codes `ccr'` hold the division of dh:dl by `divisor`: the quotient truncated toward zero in
      dl, the rest in dh when that is another register, and the quotient's sign and zero test in the codes. */
  ghost predicate Held(isSigned: bool, dh: nat, dl: nat, divisor: u32, d: seq<u32>, ccr: Ccr, d': seq<u32>, ccr': Ccr)
    requires |d| == |d'| == 8 && dh < 8 && dl < 8
  {
    var n, m := Plain(isSigned, d[dh]) * TWO_32 + d[dl], Plain(isSigned, divisor);
    var rest := n - Plain(isSigned, d'[dl]) * m;
    && -(if m < 0 then -m else m) < rest < (if m < 0 then -m else m)
    && (rest != 0 ==> (rest < 0 <==> n < 0))
    && (dh != dl ==> Plain(isSigned, d'[dh]) == rest)
    && (forall i :: 0 <= i < 8 && i != dh && i != dl ==> d'[i] == d[i])
    && ccr' == Ccr(ccr.x, d'[dl] >= 0x8000_0000, d'[dl] == 0, false, false)
  }

  /** Both builds hold the division or set V and nothing else; V is set when the quotient does not fit, and in the
      build without 64-bit integers also for spurious operands. */
  lemma DividedIs(d: seq<u32>, ccr: Ccr, isSigned: bool, dh: nat, dl: nat, divisor: u32)
    requires |d| == 8 && dh < 8 && dl < 8 && divisor != 0
    ensures var (d', ccr') := Divided(d, ccr, isSigned, dh, dl, divisor);
            && (!ccr'.v ==> Held(isSigned, dh, dl, divisor, d, ccr, d', ccr'))
            && (ccr'.v ==> d' == d && ccr' == ccr.(v := true))
            && (ccr'.v <==> var q := Quotient(Dividend(isSigned, d[dh], d[dl]), Divisor(isSigned, divisor));
                            if isSigned then q < -0x8000_0000 || q > 0x7FFF_FFFF else q > 0xFFFF_FFFF)
    ensures var (d', ccr') := Divided32(d, ccr, isSigned, dh, dl, divisor);
            && (!ccr'.v ==> Held(isSigned, dh, dl, divisor, d, ccr, d', ccr'))
            && (ccr'.v ==> d' == d && ccr' == ccr.(v := true))
            && (ccr'.v <==> Divided(d, ccr, isSigned, dh, dl, divisor).1.v
                            || Spurious(isSigned, Dividend(isSigned, d[dh], d[dl]), Divisor(isSigned, divisor)))
  {
    hide Quotient, Remainder, Dividend, Divisor, Spurious, Held, Divided32;
    var n, m := Dividend(isSigned, d[dh], d[dl]), Divisor(isSigned, divisor);
    OperandRange(isSigned, d[dh], d[dl], divisor);
    BuildsAgree(d, ccr, isSigned, dh, dl, divisor);
    if FitsQuotient(isSigned, Quotient(n, m)) {
      StoreHolds(d, ccr, isSigned, dh, dl, divisor, Quotient(n, m), Remainder(n, m));
    }
  }

  lemma StoreHolds(d: seq<u32>, ccr: Ccr, isSigned: bool, dh: nat, dl: nat, divisor: u32, q: int, r: int)
    requires |d| == 8 && dh < 8 && dl < 8 && divisor != 0
    requires var n, m := Dividend(isSigned, d[dh], d[dl]), Divisor(isSigned, divisor);
             q == Quotient(n, m) && r == Remainder(n, m) && FitsQuotient(isSigned, q)
    ensures var (d', ccr') := Store(d, ccr, dh, dl, Wrap(q), Wrap(r));
            Held(isSigned, dh, dl, divisor, d, ccr, d', ccr')
  {
    hide Quotient, Remainder;
    var n, m := Dividend(isSigned, d[dh], d[dl]), Divisor(isSigned, divisor);
    DivisionLaw(n, m);
    QuotientSign(n, m, Abs(n) / Abs(m));
    RemainderSign(n, m, Abs(n) % Abs(m));
    MagnitudeNotNegative(n, m);
    PlainOf(isSigned, q, r, divisor);
  }

  /** Numbers that fit come back from a register. */
  lemma PlainOf(isSigned: bool, q: int, r: int, divisor: u32)
    requires FitsQuotient(isSigned, q) && (!isSigned ==> q >= 0 && r >= 0)
    requires Abs(r) < Abs(Divisor(isSigned, divisor))
    ensures Plain(isSigned, Wrap(q)) == q && Plain(isSigned, Wrap(r)) == r
  {
  }

  function Limit(isSigned: bool): nat {
    if isSigned then 0x8000_0000 else TWO_32
  }

  /** Operands of different signs whose magnitudes are 2^31 apart by division, 2^31 / -1 excepted. */
  predicate Spurious(isSigned: bool, n: int, m: int) {
    && isSigned && (n < 0) != (m < 0)
    && 0x8000_0000 * Abs(m) <= Abs(n) < 0x8000_0001 * Abs(m)
    && !(n == 0x8000_0000 && m == -1)
  }

  /** The two builds agree on registers and codes exactly when the operands are not spurious ones. */
  lemma BuildsAgree(d: seq<u32>, ccr: Ccr, isSigned: bool, dh: nat, dl: nat, divisor: u32)
    requires |d| == 8 && dh < 8 && dl < 8 && divisor != 0
    ensures Divided32(d, ccr, isSigned, dh, dl, divisor) == Divided(d, ccr, isSigned, dh, dl, divisor)
      <==> !Spurious(isSigned, Dividend(isSigned, d[dh], d[dl]), Divisor(isSigned, divisor))
    ensures Spurious(isSigned, Dividend(isSigned, d[dh], d[dl]), Divisor(isSigned, divisor))
      ==> Divided32(d, ccr, isSigned, dh, dl, divisor) == (d, ccr.(v := true))
  {
    hide Quotient, Remainder, Dividend, Divisor, Spurious, Signed;
    var n, m := Dividend(isSigned, d[dh], d[dl]), Divisor(isSigned, divisor);
    OperandRange(isSigned, d[dh], d[dl], divisor);
    var q := Abs(n) / Abs(m);
    SpuriousQuotient(isSigned, n, m);
    QuotientSign(n, m, q);
    MagnitudeNotNegative(n, m);
    if n == 0x8000_0000 && m == -1 {
      SpecialCase();
      assert Spurious(isSigned, n, m) == false by { SpecialIsNot(isSigned); }
    }
  }

  lemma OperandRange(isSigned: bool, hi: u32, lo: u32, divisor: u32)
    requires divisor != 0
    ensures Divisor(isSigned, divisor) != 0
    ensures !isSigned ==> Dividend(isSigned, hi, lo) >= 0 && Divisor(isSigned, divisor) > 0
  {
  }

  lemma MagnitudeNotNegative(n: int, m: int)
    requires m != 0
    ensures Abs(n) / Abs(m) >= 0
  {
  }

  lemma SpecialIsNot(isSigned: bool)
    ensures !Spurious(isSigned, 0x8000_0000, -1)
  {
  }

  /** Spurious operands are those with the quotient -2^31. */
  lemma SpuriousQuotient(isSigned: bool, n: int, m: int)
    requires m != 0
    ensures Spurious(isSigned, n, m)
       <==> isSigned && Quotient(n, m) == -0x8000_0000 && !(n == 0x8000_0000 && m == -1)
  {
    hide Abs;
    var a, b := Abs(n), Abs(m);
    assert b > 0 by { Nonzero(m); }
    QuotientSign(n, m, a / b);
    DivMod(a, b);
    if 0x8000_0000 * b <= a < 0x8000_0001 * b {
      DivUnique(a, b, 0x8000_0000, a - 0x8000_0000 * b);
    }
  }

  lemma Nonzero(m: int)
    requires m != 0
    ensures Abs(m) > 0
  {
  }

  /** One division on which they differ: -2^31 / 1. */
  lemma BuildsDiffer(d: seq<u32>, ccr: Ccr)
    requires |d| == 8 && d[0] == 0xFFFF_FFFF && d[1] == 0x8000_0000
    ensures Divided(d, ccr, true, 0, 1, 1) == (d[0 := 0][1 := 0x8000_0000], Ccr(ccr.x, true, false, false, false))
    ensures Divided32(d, ccr, true, 0, 1, 1) == (d, ccr.(v := true))
  {
  }

  // ---- shift and subtract --------------------------------------------------------------------

  /** The bits of `w` from bit `i` up. */
  function Top(w: u32, i: nat): int {
    w / Pow2(i)
  }

  lemma TopBits(w: u32, i: nat)
    ensures Top(w, i) == 2 * Top(w, i + 1) + Top(w, i) % 2 && 0 <= Top(w, i) <= w
    ensures Top(w, 32) == 0 && Top(w, 0) == w
  {
    DivDiv(w, Pow2(i), 2);
    assert Pow2(i + 1) == Pow2(i) * 2;
    Shifts.ShrSmaller(w, Pow2(i));
    Pow2Is32();
  }

  /** One round of either loop in 32 bits.  The doubled remainder may grow past bit 31; its lost top bit
      says that the divisor goes into it. */
  lemma Round(remainder: u32, bit: int, divisor: u32)
    requires remainder < divisor && 0 <= bit < 2
    ensures var exact, kept := 2 * remainder + bit, Wrap(Wrap(remainder * 2) + bit);
            if kept >= divisor || remainder >= 0x8000_0000
            then exact >= divisor && Wrap(kept - divisor) == exact - divisor < divisor
            else kept == exact < divisor
  {
  }

  /** The first loop only moves the high word into the remainder. */
  method ShiftHigh(hi: u32, divisor: u32) returns (quotient: u32, remainder: u32)
    requires hi < divisor
    ensures quotient == 0 && remainder == hi
  {
    hide Top;
    quotient, remainder := 0, 0;
    var i := 32;
    TopBits(hi, 0);
    while i > 0
      invariant 0 <= i <= 32 && quotient == 0 && remainder == Top(hi, i)
    {
      i := i - 1;
      TopBits(hi, i);
      quotient := Wrap(quotient * 2);
      remainder := Wrap(Wrap(remainder * 2) + Top(hi, i) % 2);
      if remainder >= divisor {
        remainder := Wrap(remainder - divisor);
        quotient := Wrap(quotient + 1);
      }
    }
  }

  /** The second loop divides hi:lo, one bit of `lo` at a time. */
  method ShiftLow(hi: u32, lo: u32, divisor: u32) returns (quotient: u32, remainder: u32)
    requires hi < divisor
    ensures quotient * divisor + remainder == hi * TWO_32 + lo && remainder < divisor
  {
    hide Top, Pow2, Wrap;
    quotient, remainder := 0, hi;
    var i := 32;
    TopBits(lo, 0);
    PowersTo32(0);
    while i > 0
      invariant 0 <= i <= 32 && remainder < divisor && quotient < Pow2(32 - i)
      invariant quotient * divisor + remainder == hi * Pow2(32 - i) + Top(lo, i)
    {
      i := i - 1;
      TopBits(lo, i);
      PowersTo32(31 - i);
      Round(remainder, Top(lo, i) % 2, divisor);
      Doubled(quotient, divisor, hi, Pow2(31 - i));
      Unwrapped(quotient);
      var overflow := remainder >= 0x8000_0000;
      quotient := Wrap(quotient * 2);
      remainder := Wrap(Wrap(remainder * 2) + Top(lo, i) % 2);
      if remainder >= divisor || overflow {
        remainder := Wrap(remainder - divisor);
        quotient := Wrap(quotient + 1);
      }
    }
  }

  lemma Doubled(q: int, d: int, h: int, p: int)
    ensures (2 * q) * d == 2 * (q * d) && (2 * q + 1) * d == 2 * (q * d) + d
    ensures h * (2 * p) == 2 * (h * p)
  {
  }

  lemma Unwrapped(q: u32)
    ensures q < 0x8000_0000 ==> Wrap(q * 2) == q * 2 && Wrap(q * 2 + 1) == q * 2 + 1
  {
  }

  lemma PowersTo32(k: nat)
    requires k < 32
    ensures Pow2(k) <= 0x8000_0000 && Pow2(k + 1) == 2 * Pow2(k) && Pow2(0) == 1 && Pow2(32) == TWO_32
  {
    Pow2Add(k, 31 - k);
    Pow2Is32();
    MulAtLeast(Pow2(k), Pow2(31 - k));
  }

  /** Both loops, as the handler runs them. */
  method ShiftSubtract(hi: u32, lo: u32, divisor: u32) returns (quotient: u32, remainder: u32)
    requires hi < divisor
    ensures quotient * divisor + remainder == hi * TWO_32 + lo && remainder < divisor
  {
    quotient, remainder := ShiftHigh(hi, divisor);
    quotient, remainder := ShiftLow(remainder, lo, divisor);
  }

  // ---- the two builds ------------------------------------------------------------------------

  /** Builds with 64-bit integers. */
  method Divl64(r: Machine, isSigned: bool, dh: nat, dl: nat, divisor: u32) returns (zeroDivide: bool)
    requires r.Valid() && dh < 8 && dl < 8
    modifies r`ccr, r.d
    ensures zeroDivide <==> divisor == 0
    ensures zeroDivide ==> r.d[..] == old(r.d[..]) && r.ccr == old(r.ccr)
    ensures !zeroDivide ==> (r.d[..], r.ccr) == Divided(old(r.d[..]), old(r.ccr), isSigned, dh, dl, divisor)
    ensures !zeroDivide && r.ccr.v ==> r.d[..] == old(r.d[..]) && r.ccr == old(r.ccr).(v := true)
    ensures !zeroDivide && !r.ccr.v ==> Held(isSigned, dh, dl, divisor, old(r.d[..]), old(r.ccr), r.d[..], r.ccr)
  {
    hide Quotient, Remainder, Held;
    if divisor == 0 {
      return true;
    }
    DividedIs(r.d[..], r.ccr, isSigned, dh, dl, divisor);
    var n, m := Dividend(isSigned, r.d[dh], r.d[dl]), Divisor(isSigned, divisor);
    if isSigned && n == -0x8000_0000_0000_0000 && m == -1 {
      MinimumByMinusOne();
      r.ccr := r.ccr.(v := true);
      return false;
    }
    var quotient, remainder := Quotient(n, m), Remainder(n, m);
    if !FitsQuotient(isSigned, quotient) {
      r.ccr := r.ccr.(v := true);
      return false;
    }
    r.d[dh] := Wrap(remainder);
    r.d[dl] := Wrap(quotient);
    r.ccr := Ccr(r.ccr.x, Wrap(quotient) >= 0x8000_0000, Wrap(quotient) == 0, false, false);
    return false;
  }

  lemma MinimumByMinusOne()
    ensures Quotient(-0x8000_0000_0000_0000, -1) == 0x8000_0000_0000_0000
  {
  }

  // ---- signed operands as magnitudes ---------------------------------------------------------

  /** The dividend's magnitude in two words. */
  lemma DividendMagnitude(hi: u32, lo: u32)
    ensures var n := Dividend(true, hi, lo);
            && (n < 0 <==> hi >= 0x8000_0000)
            && (n < 0 ==> Negate(hi + (if lo != 0 then 1 else 0)) * TWO_32 + Negate(lo) == -n)
            && (n >= 0 ==> hi * TWO_32 + lo == n)
            && (n == 0x8000_0000 ==> hi == 0 && lo == 0x8000_0000)
  {
  }

  lemma DivisorMagnitude(divisor: u32)
    requires divisor != 0
    ensures var m := Divisor(true, divisor);
            && m != 0 && (m < 0 <==> divisor >= 0x8000_0000) && Abs(m) == Magnitude(divisor)
            && (m == -1 ==> divisor == 0xFFFF_FFFF)
  {
  }

  lemma QuotientSign(n: int, m: int, q: int)
    requires m != 0 && q == Abs(n) / Abs(m)
    ensures Quotient(n, m) == (if (n < 0) != (m < 0) then -q else q)
  {
    hide Abs;
  }

  lemma RemainderSign(n: int, m: int, rest: int)
    requires m != 0 && rest == Abs(n) % Abs(m)
    ensures Remainder(n, m) == (if n < 0 then -rest else rest)
  {
    hide Abs;
  }

  lemma NegateTwice(w: u32)
    ensures Wrap(w) == w && Negate(Negate(w)) == w
  {
  }

  /** Giving magnitudes their signs in 32 bits. */
  lemma Resigned(n: int, m: int, q: u32, rest: u32)
    requires m != 0 && q == Abs(n) / Abs(m) && rest == Abs(n) % Abs(m)
    ensures Wrap(Remainder(n, m)) == (if n < 0 then Negate(rest) else rest)
    ensures var s := if n < 0 then Negate(q) else q;
            Wrap(Quotient(n, m)) == if m < 0 then Negate(s) else s
  {
    hide Quotient, Remainder, Abs, Wrap;
    QuotientSign(n, m, q);
    RemainderSign(n, m, rest);
    NegateTwice(q);
    NegateTwice(rest);
  }

  /** Whether the high word of the dividend reaches the divisor says whether the quotient needs 33 bits. */
  lemma HighWord(hi: u32, lo: u32, divisor: u32)
    requires divisor != 0
    ensures hi >= divisor <==> (hi * TWO_32 + lo) / divisor >= TWO_32
  {
    var n := hi * TWO_32 + lo;
    DivMod(n, divisor);
    var q := n / divisor;
    if hi >= divisor && q < TWO_32 {
      MulBound(q, TWO_32 - 1, divisor);
      assert false;
    }
    if hi < divisor && q >= TWO_32 {
      MulBound(TWO_32, q, divisor);
      assert false;
    }
  }

  /** Builds without. */
  method Divl32(r: Machine, isSigned: bool, dh: nat, dl: nat, source: u32) returns (zeroDivide: bool)
    requires r.Valid() && dh < 8 && dl < 8
    modifies r`ccr, r.d
    ensures zeroDivide <==> source == 0
    ensures zeroDivide ==> r.d[..] == old(r.d[..]) && r.ccr == old(r.ccr)
    ensures !zeroDivide ==> (r.d[..], r.ccr) == Divided32(old(r.d[..]), old(r.ccr), isSigned, dh, dl, source)
    ensures !zeroDivide && r.ccr.v ==> r.d[..] == old(r.d[..]) && r.ccr == old(r.ccr).(v := true)
    ensures !zeroDivide && !r.ccr.v ==> Held(isSigned, dh, dl, source, old(r.d[..]), old(r.ccr), r.d[..], r.ccr)
  {
    hide Quotient, Remainder, Signed, Held;
    if source == 0 {
      return true;
    }
    DividedIs(r.d[..], r.ccr, isSigned, dh, dl, source);
    var divisor, dividendHi, dividendLo := source, r.d[dh], r.d[dl];
    var dividendNeg, divisorNeg := false, false;
    ghost var n, m := Dividend(isSigned, dividendHi, dividendLo), Divisor(isSigned, source);
    if isSigned {
      if dividendHi == 0 && dividendLo == 0x8000_0000 && divisor == 0xFFFF_FFFF {
        SpecialCase();
        r.d[dh] := 0;
        r.d[dl] := 0x8000_0000;
        r.ccr := Ccr(r.ccr.x, true, false, false, false);
        return false;
      }
      DividendMagnitude(dividendHi, dividendLo);
      DivisorMagnitude(source);
      if dividendHi >= 0x8000_0000 {
        dividendNeg := true;
        dividendHi := Negate(dividendHi + (if dividendLo != 0 then 1 else 0));
        dividendLo := Negate(dividendLo);
      }
      if divisor >= 0x8000_0000 {
        divisorNeg := true;
        divisor := Negate(divisor);
      }
    }
    assert Abs(n) == dividendHi * TWO_32 + dividendLo && Abs(m) == divisor;
    HighWord(dividendHi, dividendLo, divisor);
    DivNonNegative(Abs(n), divisor);
    if dividendHi >= divisor {
      r.ccr := r.ccr.(v := true);
      return false;
    }
    var quotient, remainder := ShiftSubtract(dividendHi, dividendLo, divisor);
    QuotientIs(Abs(n), divisor, quotient, remainder);
    Resigned(n, m, quotient, remainder);
    if isSigned {
      if quotient > 0x7FFF_FFFF {
        r.ccr := r.ccr.(v := true);
        return false;
      }
      if dividendNeg {
        remainder := Negate(remainder);
        quotient := Negate(quotient);
      }
      if divisorNeg {
        quotient := Negate(quotient);
      }
    }
    r.d[dh] := remainder;
    r.d[dl] := quotient;
    r.ccr := Ccr(r.ccr.x, quotient >= 0x8000_0000, quotient == 0, false, false);
    return false;
  }

  lemma QuotientIs(n: int, d: int, q: int, r: int)
    requires 0 <= r < d && n == q * d + r
    ensures n / d == q && n % d == r
  {
    assert q * d == d * q;
    DivUnique(n, d, q, r);
  }

  lemma DivNonNegative(a: int, b: int)
    requires a >= 0 && b > 0
    ensures a / b >= 0
  {
  }

  lemma SpecialCase()
    ensures Quotient(0x8000_0000, -1) == -0x8000_0000 && Remainder(0x8000_0000, -1) == 0
    ensures Dividend(true, 0, 0x8000_0000) == 0x8000_0000 && Divisor(true, 0xFFFF_FFFF) == -1
  {
  }
}
