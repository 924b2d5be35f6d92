/** Long multiplication: the 64-bit product, and the four-partial-product version for builds without
    64-bit integers. */
module Multiply {
  import opened Words
  import opened Registers

  const TWO_64: int := TWO_32 * TWO_32

  /** A word as a two's complement number. */
  function Signed(w: u32): int {
    if w >= 0x8000_0000 then w - TWO_32 else w
  }

  function Negate(w: int): u32 {
    Wrap(-w)
  }

  // ---- what the instruction means ------------------------------------------------------------

  /** The true product of the operands. */
  function Product(isSigned: bool, a: u32, b: u32): int {
    if isSigned then Signed(a) * Signed(b) else a * b
  }

  /** The product fits the long form's result. */
  predicate FitsLong(isSigned: bool, p: int) {
    if isSigned then -0x8000_0000 <= p < 0x8000_0000 else p < TWO_32
  }

  /** Registers and codes after MULS.L or MULU.L: `quad` keeps all 64 bits of the product in dh:dl, the
      long form keeps 32 bits and says in V whether they are the product. */
  function Multiplied(d: seq<u32>, ccr: Ccr, isSigned: bool, quad: bool, dh: nat, dl: nat, src: u32): (seq<u32>, Ccr)
    requires |d| == 8 && dh < 8 && dl < 8
  {
    var p := Product(isSigned, src, d[dl]);
    var w := p % TWO_64;
    if quad then
      (d[dh := w / TWO_32][dl := w % TWO_32], ccr.(n := w >= TWO_64 / 2, z := w == 0, v := false, c := false))
    else
      (d[dl := w % TWO_32],
       ccr.(n := w % TWO_32 >= 0x8000_0000, z := w % TWO_32 == 0, v := !FitsLong(isSigned, p), c := false))
  }

  /** A register as the instruction reads it. */
  function Plain(isSigned: bool, w: u32): int {
    if isSigned && w >= 0x8000_0000 then w - 0x1_0000_0000 else w
  }

  /** Registers `d'` and codes `ccr'` hold the product of `src` and dl: all of it in dh:dl, high word in dh, or its
      low word in dl with V set when the product is more than that word. */
  ghost predicate Held(isSigned: bool, quad: bool, dh: nat, dl: nat, src: u32, d: seq<u32>, ccr: Ccr, d': seq<u32>,
          ccr': Ccr)
    requires |d| == |d'| == 8 && dh < 8 && dl < 8
  {
    var p := Plain(isSigned, src) * Plain(isSigned, d[dl]);
    && p % 0x1_0000_0000 == d'[dl]
    && (quad && dh != dl ==> Plain(isSigned, d'[dh]) * 0x1_0000_0000 + d'[dl] == p)
    && (forall i :: 0 <= i < 8 && i != dl && !(quad && i == dh) ==> d'[i] == d[i])
    && (ccr'.x, ccr'.c) == (ccr.x, false)
    && (quad ==> ccr'.n == (if isSigned then p < 0 else p >= 0x8000_0000_0000_0000) && ccr'.z == (p == 0) && !ccr'.v)
    && (!quad ==> ccr'.n == (d'[dl] >= 0x8000_0000) && ccr'.z == (d'[dl] == 0)
                  && ccr'.v == (p != Plain(isSigned, d'[dl])))
  }

  lemma MultipliedIs(d: seq<u32>, ccr: Ccr, isSigned: bool, quad: bool, dh: nat, dl: nat, src: u32)
    requires |d| == 8 && dh < 8 && dl < 8
    ensures var (d', ccr') := Multiplied(d, ccr, isSigned, quad, dh, dl, src);
            Held(isSigned, quad, dh, dl, src, d, ccr, d', ccr')
  {
    var p := Product(isSigned, src, d[dl]);
    ProductInRange(isSigned, src, d[dl]);
    SignedIsPlain(src);
    SignedIsPlain(d[dl]);
    hide Product, Signed;
    WordsOf(isSigned, p);
  }

  lemma SignedIsPlain(w: u32)
    ensures Plain(true, w) == Signed(w) && Plain(false, w) == w
  {
  }

  /** The words of a 64-bit product. */
  lemma WordsOf(isSigned: bool, p: int)
    requires if isSigned then -TWO_64 / 4 <= p <= TWO_64 / 4 else 0 <= p < TWO_64
    ensures var w := p % TWO_64;
            && p % TWO_32 == w % TWO_32 && 0 <= w / TWO_32 < TWO_32
            && Plain(isSigned, w / TWO_32) * TWO_32 + w % TWO_32 == p
            && (w >= TWO_64 / 2 <==> if isSigned then p < 0 else p >= TWO_64 / 2) && (w == 0 <==> p == 0)
            && (FitsLong(isSigned, p) <==> p == Plain(isSigned, w % TWO_32))
  {
    var w := if p < 0 then p + TWO_64 else p;
    WordIs(p, w);
    assert w == w / TWO_32 * TWO_32 + w % TWO_32;
  }

  lemma WordIs(p: int, w: int)
    requires 0 <= w < TWO_64 && (w == p || w == p + TWO_64)
    ensures p % TWO_64 == w && p % TWO_32 == w % TWO_32
  {
  }

  // ---- the partial products ------------------------------------------------------------------

  /** Schoolbook multiplication in 16-bit digits. */
  method MultiplyWords(src: u32, dst: u32) returns (hi: u32, lo: u32)
    ensures hi * TWO_32 + lo == src * dst
  {
    var src1, src2 := src % 0x1_0000, src / 0x1_0000;
    var dst1, dst2 := dst % 0x1_0000, dst / 0x1_0000;
    DigitProduct(src1, dst1);
    DigitProduct(src1, dst2);
    DigitProduct(src2, dst1);
    DigitProduct(src2, dst2);
    var r1: u32 := src1 * dst1;
    var r2: u32 := src1 * dst2;
    var r3: u32 := src2 * dst1;
    var r4: u32 := src2 * dst2;
    lo := Wrap(r1 + r2 % 0x1_0000 * 0x1_0000 + r3 % 0x1_0000 * 0x1_0000);
    hi := Wrap(r4 + r2 / 0x1_0000 + r3 / 0x1_0000 + (r1 / 0x1_0000 + r2 % 0x1_0000 + r3 % 0x1_0000) / 0x1_0000);
    Digits(src1, src2, dst1, dst2);
    ProductRange(src, dst);
    Carries(r1, r2, r3, r4);
  }

  lemma DigitProduct(a: int, b: int)
    requires 0 <= a < 0x1_0000 && 0 <= b < 0x1_0000
    ensures 0 <= a * b <= 0xFFFE_0001
  {
    MulBound(a, 0xFFFF, b);
  }

  lemma MulBound(a: int, m: int, b: int)
    requires 0 <= a <= m && 0 <= b
    ensures 0 <= a * b <= m * b
  {
  }

  lemma Digits(s1: int, s2: int, d1: int, d2: int)
    ensures (s2 * 0x1_0000 + s1) * (d2 * 0x1_0000 + d1)
            == s2 * d2 * TWO_32 + (s1 * d2 + s2 * d1) * 0x1_0000 + s1 * d1
  {
  }

  lemma ProductRange(a: u32, b: u32)
    ensures 0 <= a * b < TWO_64
  {
    MulBound(a, TWO_32 - 1, b);
  }

  /** The partial products' sum, with its carry from the low half to the high one. */
  lemma Carries(r1: u32, r2: u32, r3: u32, r4: u32)
    requires r4 * TWO_32 + (r2 + r3) * 0x1_0000 + r1 < TWO_64
    ensures var lo := Wrap(r1 + r2 % 0x1_0000 * 0x1_0000 + r3 % 0x1_0000 * 0x1_0000);
            var hi := Wrap(r4 + r2 / 0x1_0000 + r3 / 0x1_0000
                           + (r1 / 0x1_0000 + r2 % 0x1_0000 + r3 % 0x1_0000) / 0x1_0000);
            hi * TWO_32 + lo == r4 * TWO_32 + (r2 + r3) * 0x1_0000 + r1
  {
    var b, c := r2 % 0x1_0000, r3 % 0x1_0000;
    var middle := r1 / 0x1_0000 + b + c;
    assert r1 + b * 0x1_0000 + c * 0x1_0000 == middle * 0x1_0000 + r1 % 0x1_0000;
    LowHalf(middle, r1 % 0x1_0000);
    HighHalf(r4 + r2 / 0x1_0000 + r3 / 0x1_0000 + middle / 0x1_0000, middle % 0x1_0000 * 0x1_0000 + r1 % 0x1_0000);
  }

  lemma LowHalf(middle: nat, low: nat)
    requires low < 0x1_0000
    ensures Wrap(middle * 0x1_0000 + low) == middle % 0x1_0000 * 0x1_0000 + low
  {
    assert middle * 0x1_0000 + low == middle / 0x1_0000 * TWO_32 + (middle % 0x1_0000 * 0x1_0000 + low);
  }

  lemma HighHalf(hi: nat, lo: nat)
    requires hi * TWO_32 + lo < TWO_64 && lo < TWO_32
    ensures Wrap(hi) == hi
  {
  }

  // ---- signs ---------------------------------------------------------------------------------

  function Magnitude(w: u32): int {
    if w >= 0x8000_0000 then Negate(w) else w
  }

  /** The product of the magnitudes, negated when the signs differ. */
  lemma SignedProduct(a: u32, b: u32)
    ensures Magnitude(a) <= 0x8000_0000 && Magnitude(b) <= 0x8000_0000
    ensures Signed(a) * Signed(b)
            == if (a >= 0x8000_0000) != (b >= 0x8000_0000) then -(Magnitude(a) * Magnitude(b))
                else Magnitude(a) * Magnitude(b)
  {
    assert Signed(a) == if a >= 0x8000_0000 then -Magnitude(a) else Magnitude(a);
    assert Signed(b) == if b >= 0x8000_0000 then -Magnitude(b) else Magnitude(b);
    SignRule(Magnitude(a), Magnitude(b));
  }

  lemma SignRule(a: int, b: int)
    ensures (-a) * b == -(a * b) && a * (-b) == -(a * b) && (-a) * (-b) == a * b
  {
  }

  /** A magnitude product of signed operands is at most 2^62. */
  lemma MagnitudeRange(a: int, b: int)
    requires 0 <= a <= 0x8000_0000 && 0 <= b <= 0x8000_0000
    ensures 0 <= a * b <= TWO_64 / 4
  {
    MulBound(a, 0x8000_0000, b);
  }

  /** Negating a two-word number. */
  lemma NegatePair(hi: int, lo: int, n: int)
    requires 0 <= hi < TWO_32 && 0 <= lo < TWO_32 && n == hi * TWO_32 + lo
    ensures Negate(hi + (if lo != 0 then 1 else 0)) * TWO_32 + Negate(lo) == (-n) % TWO_64
  {
    if lo != 0 {
      assert Negate(lo) == TWO_32 - lo;
      ModPair(-hi - 1, TWO_32 - lo);
    } else {
      ModPair(-hi, 0);
    }
  }

  lemma ModPair(hi: int, lo: int)
    requires 0 <= lo < TWO_32
    ensures (hi * TWO_32 + lo) % TWO_64 == Wrap(hi) * TWO_32 + lo
  {
    var q := hi / TWO_32;
    assert hi == q * TWO_32 + Wrap(hi);
    assert hi * TWO_32 + lo == q * TWO_64 + (Wrap(hi) * TWO_32 + lo);
    ModAdd(q, Wrap(hi) * TWO_32 + lo);
  }

  lemma ModAdd(q: int, r: int)
    requires 0 <= r < TWO_64
    ensures (q * TWO_64 + r) % TWO_64 == r
  {
  }

  /** The halves of a 64-bit word. */
  lemma Halves(w: int, hi: u32, lo: u32)
    requires w == hi * TWO_32 + lo
    ensures w / TWO_32 == hi && w % TWO_32 == lo
    ensures 0 <= w < TWO_64 && (w >= TWO_64 / 2 <==> hi >= 0x8000_0000) && (w == 0 <==> hi == 0 && lo == 0)
  {
  }

  /** The long form's overflow test, on the halves of the product. */
  lemma SignedFits(p: int, hi: u32, lo: u32)
    requires -TWO_64 / 4 <= p <= TWO_64 / 4 && p % TWO_64 == hi * TWO_32 + lo
    ensures FitsLong(true, p) <==> (lo >= 0x8000_0000 && hi == 0xFFFF_FFFF) || (lo < 0x8000_0000 && hi == 0)
  {
  }

  lemma UnsignedFits(p: int, hi: u32, lo: u32)
    requires 0 <= p < TWO_64 && p % TWO_64 == hi * TWO_32 + lo
    ensures FitsLong(false, p) <==> hi == 0
  {
  }

  lemma ProductInRange(isSigned: bool, a: u32, b: u32)
    ensures var p := Product(isSigned, a, b); if isSigned then -TWO_64 / 4 <= p <= TWO_64 / 4 else 0 <= p < TWO_64
  {
    if isSigned {
      SignedProduct(a, b);
      MagnitudeRange(Magnitude(a), Magnitude(b));
    } else {
      ProductRange(a, b);
    }
  }

  /** Registers and codes read off the two words of the product. */
  lemma Stored(d: seq<u32>, ccr: Ccr, isSigned: bool, quad: bool, dh: nat, dl: nat, src: u32, hi: u32, lo: u32)
    requires |d| == 8 && dh < 8 && dl < 8
    requires hi * TWO_32 + lo == Product(isSigned, src, d[dl]) % TWO_64
    ensures var fits := if isSigned then (if lo >= 0x8000_0000 then hi == 0xFFFF_FFFF else hi == 0) else hi == 0;
            Multiplied(d, ccr, isSigned, quad, dh, dl, src)
            == if quad then (d[dh := hi][dl := lo], Ccr(ccr.x, hi >= 0x8000_0000, hi == 0 && lo == 0, false, false))
               else (d[dl := lo], Ccr(ccr.x, lo >= 0x8000_0000, lo == 0, !fits, false))
  {
    hide Product, FitsLong;
    var p := Product(isSigned, src, d[dl]);
    ProductInRange(isSigned, src, d[dl]);
    Halves(p % TWO_64, hi, lo);
    if isSigned {
      SignedFits(p, hi, lo);
    } else {
      UnsignedFits(p, hi, lo);
    }
  }

  // ---- the two builds ------------------------------------------------------------------------

  /** A 64-bit word as a two's complement number. */
  function Signed64(w: int): int {
    if w >= TWO_64 / 2 then w - TWO_64 else w
  }

  /** The 64-bit build compares the product with its own low half, sign extended. */
  lemma SignExtends(w: int, hi: u32, lo: u32)
    requires w == hi * TWO_32 + lo
    ensures Signed64(w) == Signed(lo) <==> (lo >= 0x8000_0000 && hi == 0xFFFF_FFFF) || (lo < 0x8000_0000 && hi == 0)
    ensures w / 0x8000_0000 % 2 == 1 <==> lo >= 0x8000_0000
    ensures w > 0xFFFF_FFFF <==> hi != 0
  {
    assert w / 0x8000_0000 == 2 * hi + lo / 0x8000_0000;
  }

  /** Builds with 64-bit integers. */
  method Mull64(r: Machine, isSigned: bool, quad: bool, dh: nat, dl: nat, src: u32)
    requires r.Valid() && dh < 8 && dl < 8
    modifies r`ccr, r.d
    ensures (r.d[..], r.ccr) == Multiplied(old(r.d[..]), old(r.ccr), isSigned, quad, dh, dl, src)
    ensures Held(isSigned, quad, dh, dl, src, old(r.d[..]), old(r.ccr), r.d[..], r.ccr)
  {
    hide Multiplied, Signed64, Signed, Held;
    MultipliedIs(r.d[..], r.ccr, isSigned, quad, dh, dl, src);
    var dst := r.d[dl];
    var res := Product(isSigned, src, dst) % TWO_64;
    var hi: u32, lo: u32 := res / TWO_32, res % TWO_32;
    Halves(res, hi, lo);
    SignExtends(res, hi, lo);
    ProductInRange(isSigned, src, dst);
    Stored(r.d[..], r.ccr, isSigned, quad, dh, dl, src, hi, lo);
    r.ccr := r.ccr.(c := false);
    if isSigned {
      if !quad {
        r.ccr := r.ccr.(z := lo == 0, n := res / 0x8000_0000 % 2 == 1, v := Signed64(res) != Signed(lo));
        r.d[dl] := lo;
        return;
      }
      r.ccr := r.ccr.(z := lo == 0 && hi == 0, n := res >= TWO_64 / 2, v := false);
      r.d[dh] := hi;
      r.d[dl] := lo;
      return;
    }
    if !quad {
      r.ccr := r.ccr.(z := lo == 0, n := res / 0x8000_0000 % 2 == 1, v := res > 0xFFFF_FFFF);
      r.d[dl] := lo;
      return;
    }
    r.ccr := r.ccr.(z := lo == 0 && hi == 0, n := res >= TWO_64 / 2, v := false);
    r.d[dh] := hi;
    r.d[dl] := lo;
  }

  /** Builds without. */
  method Mull32(r: Machine, isSigned: bool, quad: bool, dh: nat, dl: nat, source: u32)
    requires r.Valid() && dh < 8 && dl < 8
    modifies r`ccr, r.d
    ensures (r.d[..], r.ccr) == Multiplied(old(r.d[..]), old(r.ccr), isSigned, quad, dh, dl, source)
    ensures Held(isSigned, quad, dh, dl, source, old(r.d[..]), old(r.ccr), r.d[..], r.ccr)
  {
    hide Multiplied, Product, Held;
    MultipliedIs(r.d[..], r.ccr, isSigned, quad, dh, dl, source);
    var hi, lo := MultiplyParts(isSigned, source, r.d[dl]);
    Stored(r.d[..], r.ccr, isSigned, quad, dh, dl, source, hi, lo);
    r.ccr := r.ccr.(c := false);
    if quad {
      r.d[dh] := hi;
      r.d[dl] := lo;
      r.ccr := r.ccr.(n := hi >= 0x8000_0000, z := hi == 0 && lo == 0, v := false);
      return;
    }
    r.d[dl] := lo;
    r.ccr := r.ccr.(n := lo >= 0x8000_0000, z := lo == 0);
    if isSigned {
      r.ccr := r.ccr.(v := !((lo >= 0x8000_0000 && hi == 0xFFFF_FFFF) || (lo < 0x8000_0000 && hi == 0)));
    } else {
      r.ccr := r.ccr.(v := hi != 0);
    }
  }

  /** The 64-bit product in two words, from magnitudes and sign. */
  method MultiplyParts(isSigned: bool, source: u32, dest: u32) returns (hi: u32, lo: u32)
    ensures hi * TWO_32 + lo == Product(isSigned, source, dest) % TWO_64
  {
    hide Negate, Signed;
    var src, dst := source, dest;
    var neg := (src >= 0x8000_0000) != (dst >= 0x8000_0000);
    if isSigned {
      if src >= 0x8000_0000 {
        src := Negate(src);
      }
      if dst >= 0x8000_0000 {
        dst := Negate(dst);
      }
    }
    hi, lo := MultiplyWords(src, dst);
    ghost var n := hi * TWO_32 + lo;
    ProductRange(src, dst);
    SignedProduct(source, dest);
    NegatePair(hi, lo, n);
    if isSigned && neg {
      hi := Negate(hi + (if lo != 0 then 1 else 0));
      lo := Negate(lo);
    }
  }
}
