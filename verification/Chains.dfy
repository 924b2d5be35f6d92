/** Multi-precision arithmetic: chains of ADDX.L, SUBX.L, ABCD and SBCD over memory operands, carrying
    through X and collecting zero in Z. */
module Chains {
  import opened Words
  import opened Powers
  import opened Registers
  import Ram

  datatype Op = Addx | Subx | Abcd | Sbcd

  /** Bytes per operand. */
  function Size(op: Op): (n: nat)
    ensures n == 1 || n == 4
  {
    if op.Addx? || op.Subx? then 4 else 1
  }

  predicate Decimal(op: Op) {
    op.Abcd? || op.Sbcd?
  }

  predicate Subtracts(op: Op) {
    op.Subx? || op.Sbcd?
  }

  // ---- one digit -----------------------------------------------------------------------------

  function Bit(b: bool): int {
    if b then 1 else 0
  }

  /** Bit 31. */
  predicate Msb(w: u32) {
    w >= 0x8000_0000
  }

  /** The result of one instruction on source and destination operands, and its codes but for Z. */
  datatype Digit = Digit(result: u32, n: bool, v: bool, c: bool)

  function AddxDigit(s: u32, d: u32, x: bool): Digit {
    var r := Wrap(s + d + Bit(x));
    Digit(r, Msb(r), Msb(s) != Msb(r) && Msb(d) != Msb(r), (Msb(s) && Msb(d)) || (!Msb(r) && (Msb(s) || Msb(d))))
  }

  function SubxDigit(s: u32, d: u32, x: bool): Digit {
    var r := Wrap(d - s - Bit(x));
    Digit(r, Msb(r), Msb(s) != Msb(d) && Msb(r) != Msb(d), (Msb(s) && Msb(r)) || (!Msb(d) && (Msb(s) || Msb(r))))
  }

  predicate Bit7(w: int) {
    w / 0x80 % 2 == 1
  }

  function AbcdDigit(s: Ram.u8, d: Ram.u8, x: bool): Digit {
    var low := s % 16 + d % 16 + Bit(x);
    var unadjusted := s / 16 * 16 + d / 16 * 16 + low;
    var res := if low > 9 then unadjusted + 6 else unadjusted;
    var carry := res / 16 % 64 * 16 > 0x90;
    var adjusted := if carry then res + 0x60 else res;
    Digit(adjusted % 0x100, Bit7(adjusted), !Bit7(unadjusted) && Bit7(adjusted), carry)
  }

  function SbcdDigit(s: Ram.u8, d: Ram.u8, x: bool): Digit {
    var low := Wrap(d % 16 - s % 16 - Bit(x));
    var unadjusted := Wrap(Wrap(d / 16 * 16 - s / 16 * 16) + low);
    var bcd := if low / 16 % 16 != 0 then 6 else 0;
    var res := Wrap(unadjusted - bcd);
    var adjusted := if Wrap(d - s - Bit(x)) / 0x100 % 2 == 1 then Wrap(res - 0x60) else res;
    var r := adjusted % 0x100;
    Digit(r, Bit7(r), Bit7(unadjusted) && !Bit7(r), Wrap(d - s - bcd - Bit(x)) / 0x100 % 4 * 0x100 > 0xFF)
  }

  /** The operands an instruction can meet. */
  predicate InWidth(op: Op, w: u32) {
    Size(op) == 1 ==> w < 0x100
  }

  function DigitOf(op: Op, s: u32, d: u32, x: bool): (r: Digit)
    requires InWidth(op, s) && InWidth(op, d)
    ensures InWidth(op, r.result)
  {
    match op
    case Addx => AddxDigit(s, d, x)
    case Subx => SubxDigit(s, d, x)
    case Abcd => AbcdDigit(s, d, x)
    case Sbcd => SbcdDigit(s, d, x)
  }

  // ---- digits as numbers ---------------------------------------------------------------------

  function Base(op: Op): nat {
    if Decimal(op) then 100 else TWO_32
  }

  /** Every longword; of the bytes, packed decimal ones. */
  predicate IsDigit(op: Op, w: u32) {
    Decimal(op) ==> w < 0x100 && w / 16 < 10 && w % 16 < 10
  }

  function DigitValue(op: Op, w: u32): nat {
    if Decimal(op) then w / 16 * 10 + w % 16 else w
  }

  /** +1 for additions, -1 for subtractions. */
  function Sign(op: Op): int {
    if Subtracts(op) then -1 else 1
  }

  // ---- one digit, as arithmetic --------------------------------------------------------------

  lemma Nibbles(h: int, l: int)
    requires 0 <= l < 16
    ensures (16 * h + l) / 16 == h && (16 * h + l) % 16 == l
  {
  }

  /** The decimal carry of a nibble-adjusted sum, and the adjustment of its high nibble. */
  lemma AdjustSum(h: int, l: int)
    requires 0 <= h < 20 && 0 <= l < 10
    ensures var res := 16 * h + l;
            && (res / 16 % 64 * 16 > 0x90 <==> h >= 10)
            && (h >= 10 ==> (res + 0x60) % 0x100 == 16 * (h - 10) + l)
            && (h < 10 ==> res % 0x100 == res)
  {
    Nibbles(h, l);
    assert 16 * h + l + 0x60 == 0x100 + 16 * (h - 10) + l;
  }

  /** Addition of decimal bytes in terms of the nibble sums, the low one adjusted. */
  lemma AbcdParts(s1: nat, s0: nat, d1: nat, d0: nat, x: bool, low: int, res: int)
    requires s1 < 10 && s0 < 10 && d1 < 10 && d0 < 10 && low == s0 + d0 + Bit(x)
    requires res == 16 * (s1 + d1) + low + if low > 9 then 6 else 0
    ensures var r := AbcdDigit(16 * s1 + s0, 16 * d1 + d0, x);
            && (r.c <==> res / 16 % 64 * 16 > 0x90)
            && r.result == (if r.c then res + 0x60 else res) % 0x100
  {
    hide Bit7;
    Nibbles(s1, s0);
    Nibbles(d1, d0);
  }

  /** The result's nibbles, and what they are worth. */
  lemma AbcdRelation(s1: nat, s0: nat, d1: nat, d0: nat, x: bool) returns (h: nat, l: nat)
    requires s1 < 10 && s0 < 10 && d1 < 10 && d0 < 10
    ensures var r := AbcdDigit(16 * s1 + s0, 16 * d1 + d0, x);
            && h < 10 && l < 10 && r.result == 16 * h + l
            && 10 * h + l + 100 * Bit(r.c) == 10 * d1 + d0 + 10 * s1 + s0 + Bit(x)
  {
    hide AbcdDigit;
    var low := s0 + d0 + Bit(x);
    h, l := if low > 9 then s1 + d1 + 1 else s1 + d1, if low > 9 then low - 10 else low;
    AbcdParts(s1, s0, d1, d0, x, low, 16 * h + l);
    AdjustSum(h, l);
    h := if h >= 10 then h - 10 else h;
  }

  /** The sign of a small difference in 32 bits, and its low byte. */
  lemma SmallDifference(k: int)
    requires -0x100 <= k < 0x100
    ensures Wrap(k) / 0x100 % 2 == 1 <==> k < 0
    ensures Wrap(k) / 0x100 % 4 * 0x100 > 0xFF <==> k < 0
    ensures Wrap(k) % 0x100 == if k < 0 then k + 0x100 else k
  {
  }

  /** The low nibble borrowed. */
  lemma SmallBorrow(low: int)
    requires -10 <= low < 10
    ensures Wrap(low) / 16 % 16 != 0 <==> low < 0
  {
  }

  /** Subtraction of decimal bytes in terms of the nibble differences. */
  lemma SbcdParts(s1: nat, s0: nat, d1: nat, d0: nat, x: bool, low: int, bcd: int, difference: int)
    requires s1 < 10 && s0 < 10 && d1 < 10 && d0 < 10 && low == d0 - s0 - Bit(x)
    requires bcd == (if low < 0 then 6 else 0) && difference == 16 * (d1 - s1) + low
    ensures var r := SbcdDigit(16 * s1 + s0, 16 * d1 + d0, x);
            && (r.c <==> Wrap(difference - bcd) / 0x100 % 4 * 0x100 > 0xFF)
            && r.result == (if Wrap(difference) / 0x100 % 2 == 1 then Wrap(difference - bcd - 0x60)
                            else Wrap(difference - bcd)) % 0x100
  {
    hide Bit7, Wrap;
    Nibbles(s1, s0);
    Nibbles(d1, d0);
    SmallBorrow(low);
    Unwrap3(16 * (d1 - s1), low, bcd);
    WrapAgain(difference - bcd, 0x60);
  }

  lemma SbcdRelation(s1: nat, s0: nat, d1: nat, d0: nat, x: bool) returns (h: nat, l: nat)
    requires s1 < 10 && s0 < 10 && d1 < 10 && d0 < 10
    ensures var r := SbcdDigit(16 * s1 + s0, 16 * d1 + d0, x);
            && h < 10 && l < 10 && r.result == 16 * h + l
            && 10 * h + l - 100 * Bit(r.c) == 10 * d1 + d0 - 10 * s1 - s0 - Bit(x)
  {
    hide SbcdDigit, Wrap;
    var low := d0 - s0 - Bit(x);
    var bcd := if low < 0 then 6 else 0;
    var difference := 16 * (d1 - s1) + low;
    SbcdParts(s1, s0, d1, d0, x, low, bcd, difference);
    SmallDifference(difference);
    SmallDifference(difference - bcd);
    SmallDifference(difference - bcd - 0x60);
    l := if low < 0 then low + 10 else low;
    var e := if low < 0 then d1 - s1 - 1 else d1 - s1;
    h := if e < 0 then e + 10 else e;
    assert difference - bcd == 16 * e + l;
  }

  lemma Unwrap3(a: int, b: int, c: int)
    ensures Wrap(Wrap(Wrap(a) + Wrap(b)) - c) == Wrap(a + b - c)
  {
    WrapAgain(a, Wrap(b));
    WrapAgain(b, a);
    WrapAgain(a + b, c);
  }

  lemma DecimalRelation(op: Op, s: u32, d: u32, x: bool)
    requires Decimal(op) && IsDigit(op, s) && IsDigit(op, d)
    ensures var r := DigitOf(op, s, d, x);
            && IsDigit(op, r.result)
            && DigitValue(op, r.result) + Sign(op) * (100 * Bit(r.c))
               == DigitValue(op, d) + Sign(op) * (DigitValue(op, s) + Bit(x))
  {
    hide AbcdDigit, SbcdDigit;
    var h, l;
    if op.Abcd? {
      h, l := AbcdRelation(s / 16, s % 16, d / 16, d % 16, x);
    } else {
      h, l := SbcdRelation(s / 16, s % 16, d / 16, d % 16, x);
    }
    Nibbles(h, l);
  }

  lemma AddxRelation(s: u32, d: u32, x: bool)
    ensures var r := AddxDigit(s, d, x); r.result + TWO_32 * Bit(r.c) == d + s + Bit(x)
  {
  }

  lemma SubxRelation(s: u32, d: u32, x: bool)
    ensures var r := SubxDigit(s, d, x); r.result - TWO_32 * Bit(r.c) == d - s - Bit(x)
  {
  }

  /** One digit is added or subtracted with carry or borrow in and out. */
  lemma DigitRelation(op: Op, s: u32, d: u32, x: bool)
    requires IsDigit(op, s) && IsDigit(op, d)
    ensures InWidth(op, s) && InWidth(op, d)
    ensures var r := DigitOf(op, s, d, x);
            && IsDigit(op, r.result)
            && Exact(Sign(op), Base(op), DigitValue(op, r.result), Bit(r.c),
                     DigitValue(op, d), DigitValue(op, s), Bit(x))
  {
    hide AbcdDigit, SbcdDigit, AddxDigit, SubxDigit;
    if op.Addx? {
      AddxRelation(s, d, x);
    } else if op.Subx? {
      SubxRelation(s, d, x);
    } else {
      hide DigitValue;
      DecimalRelation(op, s, d, x);
    }
  }

  // ---- a chain of digits, least significant first --------------------------------------------

  predicate AllInWidth(op: Op, ds: seq<u32>) {
    forall i :: 0 <= i < |ds| ==> InWidth(op, ds[i])
  }

  predicate AllDigits(op: Op, ds: seq<u32>) {
    forall i :: 0 <= i < |ds| ==> IsDigit(op, ds[i])
  }

  /** Z only ever clears. */
  function CodesAfter(ccr: Ccr, g: Digit): Ccr {
    Ccr(g.c, g.n, ccr.z && g.result == 0, g.v, g.c)
  }

  function Chain(op: Op, s: seq<u32>, d: seq<u32>, ccr: Ccr): (r: (seq<u32>, Ccr))
    requires |s| == |d| && AllInWidth(op, s) && AllInWidth(op, d)
    ensures |r.0| == |s|
  {
    if s == [] then ([], ccr)
    else
      var g := DigitOf(op, s[0], d[0], ccr.x);
      var (rest, last) := Chain(op, s[1..], d[1..], CodesAfter(ccr, g));
      ([g.result] + rest, last)
  }

  /** The number a sequence of digits stands for. */
  function Value(op: Op, ds: seq<u32>): nat {
    if ds == [] then 0 else Horner(DigitValue(op, ds[0]), Base(op), Value(op, ds[1..]))
  }

  function Horner(low: nat, base: nat, high: nat): nat {
    low + base * high
  }

  function Power(b: nat, n: nat): nat {
    if n == 0 then 1 else b * Power(b, n - 1)
  }

  lemma HornerZero(low: nat, base: nat, high: nat)
    requires base > 0
    ensures Horner(low, base, high) == 0 <==> low == 0 && high == 0
  {
  }

  lemma DigitZero(op: Op, w: u32)
    requires IsDigit(op, w)
    ensures DigitValue(op, w) == 0 <==> w == 0
  {
  }

  lemma {:induction false} ValueRange(op: Op, ds: seq<u32>)
    requires AllDigits(op, ds)
    ensures Value(op, ds) < Power(Base(op), |ds|)
  {
    if ds != [] {
      ValueRange(op, ds[1..]);
      assert IsDigit(op, ds[0]);
      RangeStep(DigitValue(op, ds[0]), Base(op), Value(op, ds[1..]), Power(Base(op), |ds| - 1));
    }
  }

  lemma RangeStep(low: nat, base: nat, high: nat, power: nat)
    requires low < base && high < power
    ensures Horner(low, base, high) < base * power
  {
    assert base * (high + 1) <= base * power;
  }

  /** `r` with carry or borrow `c` of weight `weight` is `d` plus or minus `s` and the carry `x` in. */
  predicate Exact(sign: int, weight: nat, r: nat, c: int, d: nat, s: nat, x: int) {
    r + sign * (weight * c) == d + sign * (s + x)
  }

  /** A digit's relation and the rest's make the whole number's. */
  lemma RelationStep(sign: int, base: nat, r0: nat, d0: nat, s0: nat, r: nat, d: nat, s: nat, power: nat, x: int,
          c: int, last: int)
    requires sign == 1 || sign == -1
    requires Exact(sign, base, r0, c, d0, s0, x) && Exact(sign, power, r, last, d, s, c)
    ensures base * power >= 0
    ensures Exact(sign, base * power, Horner(r0, base, r), last, Horner(d0, base, d), Horner(s0, base, s), x)
  {
    assert base * (r + sign * (power * last)) == base * (d + sign * (s + c));
    assert base * (power * last) == (base * power) * last;
    assert base * (s + c) == base * s + base * c;
    if sign == 1 {
      assert base * (r + power * last) == base * r + base * (power * last);
      assert base * (d + (s + c)) == base * d + base * (s + c);
    } else {
      assert base * (r - power * last) == base * r - base * (power * last);
      assert base * (d - (s + c)) == base * d - base * (s + c);
    }
  }

  /** The first step of a chain and the rest of it. */
  lemma ChainUnfold(op: Op, s: seq<u32>, d: seq<u32>, ccr: Ccr)
    requires |s| == |d| > 0 && AllDigits(op, s) && AllDigits(op, d)
    ensures AllInWidth(op, s) && AllInWidth(op, d) && AllDigits(op, s[1..]) && AllDigits(op, d[1..])
    ensures AllInWidth(op, s[1..]) && AllInWidth(op, d[1..])
    ensures var g := DigitOf(op, s[0], d[0], ccr.x);
            var (rest, last) := Chain(op, s[1..], d[1..], CodesAfter(ccr, g));
            Chain(op, s, d, ccr) == ([g.result] + rest, last) && ([g.result] + rest)[1..] == rest
  {
    hide DigitOf, CodesAfter, IsDigit, InWidth;
    Widths(op, s);
    Widths(op, d);
  }

  lemma {:induction false} ChainDigits(op: Op, s: seq<u32>, d: seq<u32>, ccr: Ccr)
    requires |s| == |d| && AllDigits(op, s) && AllDigits(op, d)
    ensures AllInWidth(op, s) && AllInWidth(op, d)
    ensures AllDigits(op, Chain(op, s, d, ccr).0)
    ensures s != [] ==> Chain(op, s, d, ccr).1.c == Chain(op, s, d, ccr).1.x
    decreases |s|
  {
    hide DigitOf, IsDigit, InWidth;
    Widths(op, s);
    Widths(op, d);
    if s != [] {
      ChainUnfold(op, s, d, ccr);
      DigitRelation(op, s[0], d[0], ccr.x);
      ChainDigits(op, s[1..], d[1..], CodesAfter(ccr, DigitOf(op, s[0], d[0], ccr.x)));
    }
  }

  /** Z stays set exactly when the whole result is zero. */
  lemma {:induction false} ChainZero(op: Op, s: seq<u32>, d: seq<u32>, ccr: Ccr)
    requires |s| == |d| && AllDigits(op, s) && AllDigits(op, d)
    ensures AllInWidth(op, s) && AllInWidth(op, d)
    ensures Chain(op, s, d, ccr).1.z <==> ccr.z && Value(op, Chain(op, s, d, ccr).0) == 0
    decreases |s|
  {
    hide DigitOf, DigitValue, Horner, Base, IsDigit, InWidth, Chain;
    Widths(op, s);
    Widths(op, d);
    if s == [] {
      ChainEmpty(op, ccr);
    } else {
      ChainUnfold(op, s, d, ccr);
      var g := DigitOf(op, s[0], d[0], ccr.x);
      DigitRelation(op, s[0], d[0], ccr.x);
      ChainZero(op, s[1..], d[1..], CodesAfter(ccr, g));
      BasePositive(op);
      HornerZero(DigitValue(op, g.result), Base(op), Value(op, Chain(op, s[1..], d[1..], CodesAfter(ccr, g)).0));
      DigitZero(op, g.result);
    }
  }

  lemma ChainEmpty(op: Op, ccr: Ccr)
    ensures Chain(op, [], [], ccr) == ([], ccr)
  {
  }

  /** A chain adds or subtracts the numbers: the result with the final carry or borrow is exact. */
  lemma {:induction false} ChainExact(op: Op, s: seq<u32>, d: seq<u32>, ccr: Ccr)
    requires |s| == |d| && AllDigits(op, s) && AllDigits(op, d)
    ensures AllInWidth(op, s) && AllInWidth(op, d)
    ensures var (r, last) := Chain(op, s, d, ccr);
            Exact(Sign(op), Power(Base(op), |s|), Value(op, r), Bit(last.x), Value(op, d), Value(op, s), Bit(ccr.x))
    decreases |s|
  {
    hide DigitOf, DigitValue, Horner, Base, Sign, IsDigit, InWidth, Chain, Exact, Bit;
    Widths(op, s);
    Widths(op, d);
    SignIs(op);
    if s == [] {
      ChainEmpty(op, ccr);
      ZeroStep(Sign(op), Bit(ccr.x));
    } else {
      ChainUnfold(op, s, d, ccr);
      DigitRelation(op, s[0], d[0], ccr.x);
      var g := DigitOf(op, s[0], d[0], ccr.x);
      ChainExact(op, s[1..], d[1..], CodesAfter(ccr, g));
      var (rest, last) := Chain(op, s[1..], d[1..], CodesAfter(ccr, g));
      RelationStep(Sign(op), Base(op), DigitValue(op, g.result), DigitValue(op, d[0]), DigitValue(op, s[0]),
                   Value(op, rest), Value(op, d[1..]), Value(op, s[1..]), Power(Base(op), |s| - 1),
                   Bit(ccr.x), Bit(g.c), Bit(last.x));
    }
  }

  lemma Widths(op: Op, ds: seq<u32>)
    requires AllDigits(op, ds)
    ensures AllInWidth(op, ds)
  {
  }

  lemma ZeroStep(sign: int, x: int)
    ensures Exact(sign, 1, 0, x, 0, 0, x)
  {
  }

  lemma SignIs(op: Op)
    ensures Sign(op) == 1 || Sign(op) == -1
  {
  }

  lemma BasePositive(op: Op)
    ensures Base(op) > 0
  {
  }

  // ---- what the whole chain computes ---------------------------------------------------------

  lemma ModUnique(total: int, power: int, r: int, q: int)
    requires 0 <= r < power && total == r + power * q
    ensures total % power == r && total / power == q
  {
    DivUnique(total, power, q, r);
  }

  /** From X clear: the exact sum or difference modulo base^n, its carry or borrow in X and C. */
  lemma ChainResult(op: Op, s: seq<u32>, d: seq<u32>, ccr: Ccr)
    requires |s| == |d| && AllDigits(op, s) && AllDigits(op, d) && !ccr.x && ccr.z
    ensures AllInWidth(op, s) && AllInWidth(op, d)
    ensures var (r, last) := Chain(op, s, d, ccr);
            var exact, power := Value(op, d) + Sign(op) * Value(op, s), Power(Base(op), |s|);
            && AllDigits(op, r) && power > 0
            && Value(op, r) == exact % power
            && (last.x <==> !(0 <= exact < power))
            && (last.z <==> exact % power == 0)
            && (s != [] ==> last.c == last.x)
  {
    hide Chain, Value, Power, Base, DigitOf, IsDigit, InWidth;
    ChainExact(op, s, d, ccr);
    ChainDigits(op, s, d, ccr);
    ChainZero(op, s, d, ccr);
    var (r, last) := Chain(op, s, d, ccr);
    ValueRange(op, r);
    Reduced(Sign(op), Power(Base(op), |s|), Value(op, r), Value(op, d), Value(op, s), Bit(last.x));
  }

  lemma Reduced(sign: int, power: int, r: int, d: int, s: int, c: int)
    requires (sign == 1 || sign == -1) && (c == 0 || c == 1) && 0 <= r < power
    requires r + sign * (power * c) == d + sign * s
    ensures r == (d + sign * s) % power && (c == 1 <==> !(0 <= d + sign * s < power))
  {
    ModUnique(d + sign * s, power, r, sign * c);
  }

  /** The last digit decides N and V. */
  lemma {:induction false} LastDigit(op: Op, s: seq<u32>, d: seq<u32>, ccr: Ccr) returns (x: bool)
    requires |s| == |d| > 0 && AllInWidth(op, s) && AllInWidth(op, d)
    ensures var (r, last) := Chain(op, s, d, ccr);
            var g := DigitOf(op, s[|s| - 1], d[|s| - 1], x);
            r[|s| - 1] == g.result && (last.n, last.v, last.x) == (g.n, g.v, g.c)
    decreases |s|
  {
    hide DigitOf, InWidth, CodesAfter;
    var g := DigitOf(op, s[0], d[0], ccr.x);
    var after := CodesAfter(ccr, g);
    if |s| == 1 {
      x := ccr.x;
      ChainOfOne(op, s, d, ccr);
    } else {
      x := LastDigit(op, s[1..], d[1..], after);
      assert s[1..][|s| - 2] == s[|s| - 1] && d[1..][|s| - 2] == d[|s| - 1];
    }
  }

  lemma ChainOfOne(op: Op, s: seq<u32>, d: seq<u32>, ccr: Ccr)
    requires |s| == |d| == 1 && AllInWidth(op, s) && AllInWidth(op, d)
    ensures var g := DigitOf(op, s[0], d[0], ccr.x); Chain(op, s, d, ccr) == ([g.result], CodesAfter(ccr, g))
    ensures var g := DigitOf(op, s[0], d[0], ccr.x); var c := CodesAfter(ccr, g); (c.n, c.v, c.x) == (g.n, g.v, g.c)
  {
    hide DigitOf, InWidth;
    var g := DigitOf(op, s[0], d[0], ccr.x);
    assert s[1..] == [] && d[1..] == [] && [g.result] + [] == [g.result];
  }

  /** A sequence of longwords as one two's complement number. */
  function SignedValue(op: Op, ds: seq<u32>): int
    requires ds != []
  {
    Value(op, ds) - Power(TWO_32, |ds|) * Bit(Msb(ds[|ds| - 1]))
  }

  /** The last step of a binary chain: carry, signs and V. */
  lemma SignRule(op: Op, s: u32, d: u32, x: bool)
    requires !Decimal(op)
    ensures var g := DigitOf(op, s, d, x);
            && g.n == Msb(g.result)
            && (g.v <==> Sign(op) * Bit(g.c) != Bit(Msb(d)) + Sign(op) * Bit(Msb(s)) - Bit(Msb(g.result)))
  {
  }

  /** A longword as a two's complement number. */
  function SignedWord(w: u32): int {
    if Msb(w) then w - TWO_32 else w
  }

  /** The exact result of one longword instruction, with its carry or borrow, its sign and its overflow. */
  predicate LongResult(op: Op, s: u32, d: u32, x: bool, g: Digit) {
    && g.result + Sign(op) * (TWO_32 * Bit(g.c)) == d + Sign(op) * (s + Bit(x))
    && g.n == (SignedWord(g.result) < 0)
    && (g.v <==> SignedWord(g.result) != SignedWord(d) + Sign(op) * (SignedWord(s) + Bit(x)))
  }

  lemma LongIs(op: Op, s: u32, d: u32, x: bool)
    requires !Decimal(op)
    ensures LongResult(op, s, d, x, DigitOf(op, s, d, x))
  {
    hide AddxDigit, SubxDigit;
    SignRule(op, s, d, x);
    if op == Addx {
      AddxRelation(s, d, x);
    } else {
      SubxRelation(s, d, x);
    }
  }

  /** The exact result of one decimal instruction on valid operands: two decimal digits and the carry or borrow. */
  predicate DecimalResult(op: Op, s: u32, d: u32, x: bool, g: Digit) {
    IsDigit(op, s) && IsDigit(op, d) ==>
      && IsDigit(op, g.result)
      && DigitValue(op, g.result) + Sign(op) * (100 * Bit(g.c))
         == DigitValue(op, d) + Sign(op) * (DigitValue(op, s) + Bit(x))
  }

  lemma DecimalIs(op: Op, s: Ram.u8, d: Ram.u8, x: bool)
    requires Decimal(op)
    ensures DecimalResult(op, s, d, x, DigitOf(op, s, d, x))
  {
    hide AbcdDigit, SbcdDigit, IsDigit, DigitValue;
    if IsDigit(op, s) && IsDigit(op, d) {
      DecimalRelation(op, s, d, x);
    }
  }

  /** N is the sign of the whole result, and V says that the exact signed result is not representable. */
  lemma ChainSigns(op: Op, s: seq<u32>, d: seq<u32>, ccr: Ccr)
    requires !Decimal(op) && |s| == |d| > 0 && AllDigits(op, s) && AllDigits(op, d)
    ensures AllInWidth(op, s) && AllInWidth(op, d)
    ensures var (r, last) := Chain(op, s, d, ccr);
            && last.n == Msb(r[|s| - 1])
            && (last.v <==> SignedValue(op, r) != SignedValue(op, d) + Sign(op) * (SignedValue(op, s) + Bit(ccr.x)))
  {
    hide DigitOf, Chain, Value, Msb, Power, SignedValue, IsDigit;
    ChainExact(op, s, d, ccr);
    var x := LastDigit(op, s, d, ccr);
    var (r, last) := Chain(op, s, d, ccr);
    SignRule(op, s[|s| - 1], d[|s| - 1], x);
    SignIs(op);
    PowerPositive(TWO_32, |s|);
    SignedValueIs(op, r);
    SignedValueIs(op, d);
    SignedValueIs(op, s);
    SignedRelation(Sign(op), Power(TWO_32, |s|), Value(op, r), Value(op, d), Value(op, s), Bit(ccr.x), Bit(last.x),
                   Bit(Msb(r[|s| - 1])), Bit(Msb(d[|s| - 1])), Bit(Msb(s[|s| - 1])));
  }

  lemma SignedValueIs(op: Op, ds: seq<u32>)
    requires !Decimal(op) && ds != []
    ensures SignedValue(op, ds) == Value(op, ds) - Power(TWO_32, |ds|) * Bit(Msb(ds[|ds| - 1]))
  {
    hide Value, Power, Msb;
  }

  lemma {:induction false} PowerPositive(b: nat, n: nat)
    requires b > 0
    ensures Power(b, n) > 0
  {
    if n > 0 {
      PowerPositive(b, n - 1);
      HornerZero(0, b, Power(b, n - 1));
    }
  }

  lemma SignedRelation(sign: int, p: int, r: int, d: int, s: int, x: int, c: int, mr: int, md: int, ms: int)
    requires p > 0 && (sign == 1 || sign == -1)
    requires r + sign * (p * c) == d + sign * (s + x)
    ensures r - p * mr == (d - p * md) + sign * ((s - p * ms) + x) <==> sign * c == md + sign * ms - mr
  {
    var gap := sign * c - md - sign * ms + mr;
    assert (d - p * md) + sign * ((s - p * ms) + x) - (r - p * mr) == p * gap;
    if gap != 0 {
      assert p * gap != 0;
    }
  }
}
