/** What the generator puts into the opcode table: masks and matches from bit patterns, and the number of
    mask bits it sorts by. */
module Generator {
  import opened Powers
  import opened Bitwise
  import opened Shifts
  import T = OpcodeTable

  // ---- counting bits -------------------------------------------------------------------------

  /** Four hexadecimal digits. */
  function Hex(n3: nat, n2: nat, n1: nat, n0: nat): nat {
    16 * (16 * (16 * n3 + n2) + n1) + n0
  }

  lemma AndBits(a: nat, r: nat, b: nat, s: nat)
    requires r < 2 && s < 2
    ensures And(2 * a + r, 2 * b + s) == 2 * And(a, b) + if s == 1 then r else 0
  {
    AndBit(a, r, b);
  }

  /** The upper and lower bit pairs and the alternate bits of a digit. */
  lemma AndDigit(a: nat, n: nat, m: nat)
    requires n < 16
    ensures And(16 * a + n, 16 * m) == 16 * And(a, m)
    ensures And(16 * a + n, 16 * m + 15) == 16 * And(a, m) + n
    ensures And(16 * a + n, 16 * m + 10) == 16 * And(a, m) + n / 8 * 8 + n / 2 % 2 * 2
    ensures And(16 * a + n, 16 * m + 5) == 16 * And(a, m) + n / 4 % 2 * 4 + n % 2
    ensures And(16 * a + n, 16 * m + 12) == 16 * And(a, m) + n / 4 * 4
    ensures And(16 * a + n, 16 * m + 3) == 16 * And(a, m) + n % 4
  {
    hide And;
    AndFour(a, n, m, 0, 0, 0, 0);
    AndFour(a, n, m, 1, 1, 1, 1);
    AndFour(a, n, m, 1, 0, 1, 0);
    AndFour(a, n, m, 0, 1, 0, 1);
    AndFour(a, n, m, 1, 1, 0, 0);
    AndFour(a, n, m, 0, 0, 1, 1);
  }

  lemma AndFour(a: nat, n: nat, m: nat, s3: nat, s2: nat, s1: nat, s0: nat)
    requires n < 16 && s3 < 2 && s2 < 2 && s1 < 2 && s0 < 2
    ensures And(16 * a + n, 16 * m + 8 * s3 + 4 * s2 + 2 * s1 + s0)
            == 16 * And(a, m) + (if s3 == 1 then n / 8 * 8 else 0) + (if s2 == 1 then n / 4 % 2 * 4 else 0)
               + (if s1 == 1 then n / 2 % 2 * 2 else 0) + (if s0 == 1 then n % 2 else 0)
  {
    hide And;
    var r3, r2, r1, r0 := n / 8, n / 4 % 2, n / 2 % 2, n % 2;
    assert n == 8 * r3 + 4 * r2 + 2 * r1 + r0;
    AndBits(a, r3, m, s3);
    AndBits(2 * a + r3, r2, 2 * m + s3, s2);
    AndBits(4 * a + 2 * r3 + r2, r1, 4 * m + 2 * s3 + s2, s1);
    AndBits(8 * a + 4 * r3 + 2 * r2 + r1, r0, 8 * m + 4 * s3 + 2 * s2 + s1, s0);
  }

  /** A digit after the first round, and after the second: how many bits it has. */
  function Pairs(n: nat): nat {
    4 * (n / 8 + n / 4 % 2) + n / 2 % 2 + n % 2
  }

  function Count(n: nat): nat {
    n / 8 + n / 4 % 2 + n / 2 % 2 + n % 2
  }

  /** A digit under a digit of the masks. */
  function DigitAnd(n: nat, k: nat): nat {
    match k
    case 15 => n
    case 10 => n / 8 * 8 + n / 2 % 2 * 2
    case 5 => n / 4 % 2 * 4 + n % 2
    case 12 => n / 4 * 4
    case 3 => n % 4
    case _ => 0
  }

  const MASK_DIGITS: set<nat> := {0, 15, 10, 5, 12, 3}

  lemma AndHex(n3: nat, n2: nat, n1: nat, n0: nat, k3: nat, k2: nat, k1: nat, k0: nat)
    requires n3 < 16 && n2 < 16 && n1 < 16 && n0 < 16
    requires k3 in MASK_DIGITS && k2 in MASK_DIGITS && k1 in MASK_DIGITS && k0 in MASK_DIGITS
    ensures And(Hex(n3, n2, n1, n0), Hex(k3, k2, k1, k0))
            == Hex(DigitAnd(n3, k3), DigitAnd(n2, k2), DigitAnd(n1, k1), DigitAnd(n0, k0))
  {
    hide And, DigitAnd;
    AndZero(0);
    AndOneDigit(0, n3, 0, k3);
    AndOneDigit(n3, n2, k3, k2);
    AndOneDigit(16 * n3 + n2, n1, 16 * k3 + k2, k1);
    AndOneDigit(16 * (16 * n3 + n2) + n1, n0, 16 * (16 * k3 + k2) + k1, k0);
  }

  lemma AndOneDigit(a: nat, n: nat, m: nat, k: nat)
    requires n < 16 && k in MASK_DIGITS
    ensures And(16 * a + n, 16 * m + k) == 16 * And(a, m) + DigitAnd(n, k)
  {
    hide And;
    AndDigit(a, n, m);
  }

  lemma Round1(n3: nat, n2: nat, n1: nat, n0: nat)
    requires n3 < 16 && n2 < 16 && n1 < 16 && n0 < 16
    ensures And(Hex(n3, n2, n1, n0), 0xAAAA) / 2 + And(Hex(n3, n2, n1, n0), 0x5555)
            == Hex(Pairs(n3), Pairs(n2), Pairs(n1), Pairs(n0))
  {
    hide And;
    AndHex(n3, n2, n1, n0, 10, 10, 10, 10);
    AndHex(n3, n2, n1, n0, 5, 5, 5, 5);
  }

  lemma Round2(n3: nat, n2: nat, n1: nat, n0: nat)
    requires n3 < 16 && n2 < 16 && n1 < 16 && n0 < 16
    ensures And(Hex(n3, n2, n1, n0), 0xCCCC) / 4 + And(Hex(n3, n2, n1, n0), 0x3333)
            == Hex(n3 / 4 + n3 % 4, n2 / 4 + n2 % 4, n1 / 4 + n1 % 4, n0 / 4 + n0 % 4)
  {
    hide And;
    AndHex(n3, n2, n1, n0, 12, 12, 12, 12);
    AndHex(n3, n2, n1, n0, 3, 3, 3, 3);
  }

  lemma Round3(n3: nat, n2: nat, n1: nat, n0: nat)
    requires n3 < 8 && n2 < 8 && n1 < 8 && n0 < 8
    ensures And(Hex(n3, n2, n1, n0), 0xF0F0) / 16 + And(Hex(n3, n2, n1, n0), 0x0F0F) == Hex(0, n3 + n2, 0, n1 + n0)
  {
    hide And;
    AndHex(n3, n2, n1, n0, 15, 0, 15, 0);
    AndHex(n3, n2, n1, n0, 0, 15, 0, 15);
  }

  lemma Round4(n2: nat, n0: nat)
    requires n2 < 16 && n0 < 16
    ensures And(Hex(0, n2, 0, n0), 0xFF00) / 256 + And(Hex(0, n2, 0, n0), 0x00FF) == n2 + n0
  {
    hide And;
    AndHex(0, n2, 0, n0, 15, 15, 0, 0);
    AndHex(0, n2, 0, n0, 0, 0, 15, 15);
  }

  lemma NumBitsStep(a: nat, r: nat)
    requires r < 2
    ensures T.NumBits(2 * a + r) == T.NumBits(a) + r
  {
    T.NumBitsHalf(a);
  }

  lemma NumBitsFour(a: nat, r3: nat, r2: nat, r1: nat, r0: nat)
    requires r3 < 2 && r2 < 2 && r1 < 2 && r0 < 2
    ensures T.NumBits(16 * a + 8 * r3 + 4 * r2 + 2 * r1 + r0) == T.NumBits(a) + r3 + r2 + r1 + r0
  {
    hide T.NumBits;
    NumBitsStep(a, r3);
    NumBitsStep(2 * a + r3, r2);
    NumBitsStep(4 * a + 2 * r3 + r2, r1);
    NumBitsStep(8 * a + 4 * r3 + 2 * r2 + r1, r0);
  }

  lemma BitsOfDigit(n: nat)
    requires n < 16
    ensures n == 8 * (n / 8) + 4 * (n / 4 % 2) + 2 * (n / 2 % 2) + n % 2 && n / 8 < 2
  {
  }

  lemma NumBitsDigit(a: nat, n: nat)
    requires n < 16
    ensures T.NumBits(16 * a + n) == T.NumBits(a) + Count(n)
  {
    hide T.NumBits;
    BitsOfDigit(n);
    NumBitsFour(a, n / 8, n / 4 % 2, n / 2 % 2, n % 2);
  }

  lemma NumBitsHex(n3: nat, n2: nat, n1: nat, n0: nat)
    requires n3 < 16 && n2 < 16 && n1 < 16 && n0 < 16
    ensures T.NumBits(Hex(n3, n2, n1, n0)) == Count(n3) + Count(n2) + Count(n1) + Count(n0)
  {
    hide T.NumBits, Count;
    T.NumBitsZero();
    NumBitsDigit(0, n3);
    NumBitsDigit(n3, n2);
    NumBitsDigit(16 * n3 + n2, n1);
    NumBitsDigit(16 * (16 * n3 + n2) + n1, n0);
  }

  lemma Digits(value: T.Opcode) returns (n3: nat, n2: nat, n1: nat, n0: nat)
    ensures n3 < 16 && n2 < 16 && n1 < 16 && n0 < 16 && value == Hex(n3, n2, n1, n0)
  {
    var q2: nat := value / 16;
    var q1: nat := q2 / 16;
    n3, n2, n1, n0 := q1 / 16, q1 % 16, q2 % 16, value % 16;
  }

  lemma PairsOf(n: nat)
    requires n < 16
    ensures Pairs(n) < 16 && Pairs(n) / 4 + Pairs(n) % 4 == Count(n) <= 4
  {
    var high, low := n / 8 + n / 4 % 2, n / 2 % 2 + n % 2;
    DivUnique(Pairs(n), 4, high, low);
  }

  /** Adding neighbouring bits, pairs, digits and bytes counts the set bits of a 16-bit value. */
  method NumBits(value: T.Opcode) returns (count: nat)
    ensures count == T.NumBits(value)
  {
    hide And, T.NumBits, Count, Pairs, Hex;
    ghost var n3, n2, n1, n0 := Digits(value);
    Round1(n3, n2, n1, n0);
    count := And(value, 0xAAAA) / 2 + And(value, 0x5555);
    PairsOf(n3);
    PairsOf(n2);
    PairsOf(n1);
    PairsOf(n0);
    Round2(Pairs(n3), Pairs(n2), Pairs(n1), Pairs(n0));
    count := And(count, 0xCCCC) / 4 + And(count, 0x3333);
    Round3(Count(n3), Count(n2), Count(n1), Count(n0));
    count := And(count, 0xF0F0) / 16 + And(count, 0x0F0F);
    Round4(Count(n3) + Count(n2), Count(n1) + Count(n0));
    count := And(count, 0xFF00) / 256 + And(count, 0x00FF);
    NumBitsHex(n3, n2, n1, n0);
  }

  // ---- masks and matches ---------------------------------------------------------------------

  /** The bits of `o` from `k` up. */
  function From(o: nat, k: nat): nat {
    ShrSmaller(o, Pow2(k));
    o / Pow2(k)
  }

  /** The bit of weight 2^k. */
  function BitOf(o: nat, k: nat): nat {
    From(o, k) % 2
  }

  /** Character `c` of a pattern admits bit `r`. */
  predicate Admits(c: char, r: nat) {
    c != '.' ==> (r == 1 <==> c == '1')
  }

  /** The opcode's first `n` bits fit a pattern of the characters '0', '1' and '.', most significant first. */
  predicate Fits(pattern: string, o: nat, n: nat)
    requires |pattern| == 16 && n <= 16
  {
    forall i :: 0 <= i < n ==> Admits(pattern[i], BitOf(o, 15 - i))
  }

  /** The mask and the match of the first `i` characters, as numbers of `i` bits. */
  function MaskOf(pattern: string, i: nat): nat
    requires i <= |pattern|
  {
    if i == 0 then 0 else 2 * MaskOf(pattern, i - 1) + if pattern[i - 1] != '.' then 1 else 0
  }

  function MatchOf(pattern: string, i: nat): nat
    requires i <= |pattern|
  {
    if i == 0 then 0 else 2 * MatchOf(pattern, i - 1) + if pattern[i - 1] == '1' then 1 else 0
  }

  lemma NextBit(o: nat, k: nat)
    ensures From(o, k) == 2 * From(o, k + 1) + BitOf(o, k)
  {
    Pow2Add(k, 1);
    DivDiv(o, Pow2(k), 2);
  }

  /** One more character. */
  lemma StepMatches(a: nat, r: nat, t: nat, m: nat, c: char)
    requires r < 2
    ensures var s, b := if c != '.' then 1 else 0, if c == '1' then 1 else 0;
            && (And(2 * a + r, 2 * m + s) == 2 * t + b <==> And(a, m) == t && Admits(c, r))
            && (And(t, m) == t ==> And(2 * t + b, 2 * m + s) == 2 * t + b)
  {
    hide And;
    AndBits(a, r, m, if c != '.' then 1 else 0);
    AndBits(t, if c == '1' then 1 else 0, m, if c != '.' then 1 else 0);
  }

  lemma FitsNext(pattern: string, o: nat, n: nat)
    requires |pattern| == 16 && 0 < n <= 16
    ensures Fits(pattern, o, n) <==> Fits(pattern, o, n - 1) && Admits(pattern[n - 1], BitOf(o, 16 - n))
  {
    hide BitOf, Admits;
  }

  /** Match bits lie in the mask, and masking compares the characters that are not '.'. */
  lemma {:induction false} PrefixMatches(pattern: string, n: nat, o: nat)
    requires |pattern| == 16 && n <= 16 && o < 0x1_0000
    ensures And(MatchOf(pattern, n), MaskOf(pattern, n)) == MatchOf(pattern, n)
    ensures And(From(o, 16 - n), MaskOf(pattern, n)) == MatchOf(pattern, n) <==> Fits(pattern, o, n)
  {
    hide And, From, BitOf, Fits, Admits;
    if n == 0 {
      AndZero(0);
      AndZero(From(o, 16));
      FitsNone(pattern, o);
    } else {
      PrefixMatches(pattern, n - 1, o);
      NextBit(o, 16 - n);
      BitRange(o, 16 - n);
      StepMatches(From(o, 17 - n), BitOf(o, 16 - n), MatchOf(pattern, n - 1), MaskOf(pattern, n - 1), pattern[n - 1]);
      FitsNext(pattern, o, n);
    }
  }

  lemma FitsNone(pattern: string, o: nat)
    requires |pattern| == 16
    ensures Fits(pattern, o, 0)
  {
  }

  lemma BitRange(o: nat, k: nat)
    ensures BitOf(o, k) < 2
  {
  }

  /** Or-ing a bit in below everything set so far. */
  lemma {:induction false} OrBelow(x: nat, b: nat, k: nat)
    requires b < 2
    ensures Or(x * Pow2(k + 1), b * Pow2(k)) == (2 * x + b) * Pow2(k)
  {
    AndBelow(x, b, k);
    assert x * Pow2(k + 1) == x * (2 * Pow2(k)) == (2 * x) * Pow2(k);
    assert (2 * x + b) * Pow2(k) == (2 * x) * Pow2(k) + b * Pow2(k);
  }

  lemma TwiceIn(x: nat, p: nat)
    ensures x * (2 * p) == 2 * (x * p) && x * p >= 0
  {
  }

  lemma Pow2Next(k: nat)
    ensures Pow2(k + 1) == 2 * Pow2(k) && Pow2(0) == 1
  {
  }

  lemma {:induction false} AndBelow(x: nat, b: nat, k: nat)
    requires b < 2
    ensures x * Pow2(k + 1) >= 0 && b * Pow2(k) >= 0
    ensures And(x * Pow2(k + 1), b * Pow2(k)) == 0
    decreases k
  {
    hide And, Pow2;
    TwiceIn(x, Pow2(k));
    Pow2Next(k);
    if k == 0 {
      AndBits(x, 0, 0, b);
      AndZero(x);
    } else {
      AndBelow(x, b, k - 1);
      Pow2Next(k - 1);
      TwiceIn(b, Pow2(k - 1));
      AndBits(x * Pow2(k), 0, b * Pow2(k - 1), 0);
    }
  }

  /** The generator's loop: an opcode matches the entry exactly when it fits the pattern, and the match
      bits lie in the mask. */
  method FromPattern(pattern: string) returns (mask: nat, match_: nat)
    requires |pattern| == 16
    ensures And(match_, mask) == match_
    ensures forall o: T.Opcode :: And(o, mask) == match_ <==> Fits(pattern, o, 16)
  {
    hide And, Or, Pow2, Fits;
    mask, match_ := 0, 0;
    for i := 0 to 16
      invariant mask == MaskOf(pattern, i) * Pow2(16 - i) && match_ == MatchOf(pattern, i) * Pow2(16 - i)
    {
      OrBelow(MaskOf(pattern, i), if pattern[i] != '.' then 1 else 0, 15 - i);
      OrBelow(MatchOf(pattern, i), if pattern[i] == '1' then 1 else 0, 15 - i);
      mask := Or(mask, (if pattern[i] != '.' then 1 else 0) * Pow2(15 - i));
      match_ := Or(match_, (if pattern[i] == '1' then 1 else 0) * Pow2(15 - i));
    }
    PowZero();
    PrefixMatches(pattern, 16, 0);
    forall o: T.Opcode ensures And(o, mask) == match_ <==> Fits(pattern, o, 16) {
      PrefixMatches(pattern, 16, o);
    }
  }
}
