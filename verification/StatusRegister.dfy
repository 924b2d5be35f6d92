/** The status register, kept by the emulator as separate flag words. */
module StatusRegister {
  import opened Powers
  import opened Bitwise

  /** Processor families by what their exception frames and status register look like. */
  datatype Family = M68000 | M68010 | M68020

  /** FLAG_*: S is 0 or 4, M is 0 or 2, X and C live in bit 8, N and V in bit 7, and Z is inverted. */
  datatype Flags = Flags(t1: nat, t0: nat, s: nat, m: nat, x: nat, n: nat, notZ: nat, v: nat, c: nat, intMask: nat)

  /** The words a setter leaves behind. */
  predicate Legal(family: Family, f: Flags) {
    && (f.t1 == 0 || f.t1 == 0x8000) && (f.t0 == 0 || f.t0 == 0x4000)
    && (f.s == 0 || f.s == 4) && (f.m == 0 || f.m == 2)
    && f.intMask % 0x100 == 0 && f.intMask < 0x800
    && (!family.M68020? ==> f.t0 == 0 && f.m == 0)
  }

  /** The implemented bits of the status register. */
  function Mask(family: Family): nat {
    if family.M68020? then 0xF71F else 0xA71F
  }

  /** One bit of a number, in place. */
  function Bit(value: nat, unit: nat): nat
    requires unit > 0
  {
    value / unit % 2 * unit
  }

  function GetCcr(f: Flags): nat {
    f.x / 0x100 % 2 * 16 + f.n / 0x80 % 2 * 8 + (if f.notZ == 0 then 4 else 0) + f.v / 0x80 % 2 * 2 + f.c / 0x100 % 2
  }

  function GetSr(f: Flags): nat {
    f.t1 + f.t0 + f.s * 0x800 + f.m * 0x800 + f.intMask + GetCcr(f)
  }

  function SetCcr(f: Flags, value: nat): Flags {
    f.(x := Bit(value, 16) * 16, n := Bit(value, 8) * 16, notZ := if Bit(value, 4) == 0 then 1 else 0,
       v := Bit(value, 2) * 64, c := Bit(value, 1) * 256)
  }

  /** All flags from a status register value; the caller switches the stack pointer. */
  function SetSr(family: Family, f: Flags, sr: nat): Flags {
    var value := And(sr, Mask(family));
    SetCcr(f, value).(t1 := Bit(value, 0x8000), t0 := Bit(value, 0x4000), intMask := value / 0x100 % 8 * 0x100,
                      s := value / 0x800 / 4 % 2 * 4, m := value / 0x800 / 2 % 2 * 2)
  }

  // ---- the masks -----------------------------------------------------------------------------

  lemma AndOnes5(a: nat, r: nat, b: nat)
    requires r < 32
    ensures And(32 * a + r, 32 * b + 31) == 32 * And(a, b) + r
  {
    hide And;
    AndOnes3(4 * a + r / 8, r % 8, 4 * b + 3);
    AndBit(a, r / 16, b);
    AndBit(2 * a + r / 16, r / 8 % 2, 2 * b + 1);
  }

  /** The top four bits under 1111 and 1010. */
  lemma AndTop(t1: nat, t0: nat, s: nat, m: nat)
    requires t1 < 2 && t0 < 2 && s < 2 && m < 2
    ensures And(8 * t1 + 4 * t0 + 2 * s + m, 15) == 8 * t1 + 4 * t0 + 2 * s + m
    ensures And(8 * t1 + 4 * t0 + 2 * s + m, 10) == 8 * t1 + 2 * s
  {
    hide And;
    assert And(0, 0) == 0 by { AndZero(); }
    AndBit(0, t1, 0);
    AndBit(t1, t0, 1);
    AndBit(2 * t1 + t0, s, 3);
    AndBit(4 * t1 + 2 * t0 + s, m, 7);
    AndBit(2 * t1 + t0, s, 2);
    AndBit(4 * t1 + 2 * t0 + s, m, 5);
  }

  lemma AndZero()
    ensures And(0, 0) == 0
  {
  }

  /** A status register value from its fields: `ccr` is bits 4-0, `free` bits 7-5, `b` bit 11. */
  function Assemble(t1: nat, t0: nat, s: nat, m: nat, b: nat, i: nat, free: nat, ccr: nat): nat {
    0x8000 * t1 + 0x4000 * t0 + 0x2000 * s + 0x1000 * m + 0x800 * b + 0x100 * i + 0x20 * free + ccr
  }

  /** The fields below the top five bits: bits 10-8 and 4-0 stay, bits 7-5 go. */
  lemma MaskedLow(n: nat, m: nat, r: nat, i: nat, free: nat, ccr: nat)
    requires And(n, m) == r && i < 8 && free < 8 && ccr < 32
    ensures And(32 * (8 * (8 * n + i) + free) + ccr, 32 * (8 * (8 * m + 7)) + 31) == 32 * (8 * (8 * r + i)) + ccr
  {
    hide And;
    AndOnes3(n, i, m);
    AndZeros3(8 * n + i, free, 8 * m + 7);
    AndOnes5(8 * (8 * n + i) + free, ccr, 8 * (8 * m + 7));
  }

  /** What the masks keep. */
  lemma Masked(family: Family, t1: nat, t0: nat, s: nat, m: nat, b: nat, i: nat, free: nat, ccr: nat)
    requires t1 < 2 && t0 < 2 && s < 2 && m < 2 && b < 2 && i < 8 && free < 8 && ccr < 32
    ensures And(Assemble(t1, t0, s, m, b, i, free, ccr), Mask(family))
         == if family.M68020? then Assemble(t1, t0, s, m, 0, i, 0, ccr) else Assemble(t1, 0, s, 0, 0, i, 0, ccr)
  {
    hide And;
    var top := 8 * t1 + 4 * t0 + 2 * s + m;
    AndTop(t1, t0, s, m);
    if family.M68020? {
      AndBit(top, b, 15);
      MaskedLow(2 * top + b, 30, 2 * top, i, free, ccr);
    } else {
      AndBit(top, b, 10);
      MaskedLow(2 * top + b, 20, 2 * (8 * t1 + 2 * s), i, free, ccr);
    }
  }

  /** Every 16-bit value is assembled from its fields. */
  lemma Fields(v: nat) returns (t1: nat, t0: nat, s: nat, m: nat, b: nat, i: nat, free: nat, ccr: nat)
    requires v < 0x1_0000
    ensures t1 < 2 && t0 < 2 && s < 2 && m < 2 && b < 2 && i < 8 && free < 8 && ccr < 32
    ensures v == Assemble(t1, t0, s, m, b, i, free, ccr)
  {
    var q;
    ccr, q := v % 32, v / 32;
    free, q := q % 8, q / 8;
    i, q := q % 8, q / 8;
    b, q := q % 2, q / 2;
    m, q := q % 2, q / 2;
    s, q := q % 2, q / 2;
    t0, t1 := q % 2, q / 2;
  }

  /** One digit of a number. */
  lemma Digit(v: nat, unit: nat, base: nat, high: nat, digit: nat, low: nat)
    requires low < unit && digit < base && v == unit * (base * high + digit) + low
    ensures v / unit % base == digit
  {
    DivUnique(v, unit, base * high + digit, low);
    DivUnique(base * high + digit, base, high, digit);
  }

  /** Setting assembled fields, and reading them back. */
  lemma SetFields(family: Family, f: Flags, sr: nat, t1: nat, t0: nat, s: nat, m: nat, i: nat, ccr: nat)
    requires t1 < 2 && t0 < 2 && s < 2 && m < 2 && i < 8 && ccr < 32
    requires And(sr, Mask(family)) == Assemble(t1, t0, s, m, 0, i, 0, ccr)
    ensures var r := SetSr(family, f, sr);
            (r.t1, r.t0, r.s, r.m, r.intMask) == (t1 * 0x8000, t0 * 0x4000, s * 4, m * 2, i * 0x100)
  {
    hide And;
    var v := Assemble(t1, t0, s, m, 0, i, 0, ccr);
    var top := t1 * 8 + t0 * 4 + s * 2 + m;
    Digit(v, 0x8000, 2, 0, t1, v - t1 * 0x8000);
    Digit(v, 0x4000, 2, t1, t0, v - (2 * t1 + t0) * 0x4000);
    Digit(v, 0x100, 8, 2 * top, i, ccr);
    DivUnique(v, 0x800, 2 * top, 0x100 * i + ccr);
    Digit(2 * top, 4, 2, 2 * t1 + t0, s, 2 * m);
    Digit(2 * top, 2, 2, 4 * t1 + 2 * t0 + s, m, 0);
  }

  lemma BitIs(value: nat, unit: nat, high: nat, digit: nat, low: nat)
    requires low < unit && digit < 2 && value == unit * (2 * high + digit) + low
    ensures Bit(value, unit) == digit * unit
  {
    Digit(value, unit, 2, high, digit, low);
  }

  /** The condition codes as the flag words hold them. */
  predicate HasCcr(f: Flags, x: nat, n: nat, z: nat, v: nat, c: nat) {
    f.x == x * 0x100 && f.n == n * 0x80 && f.notZ == 1 - z && f.v == v * 0x80 && f.c == c * 0x100
  }

  lemma SetCcrFields(f: Flags, value: nat, x: nat, n: nat, z: nat, v: nat, c: nat, high: nat)
    requires x < 2 && n < 2 && z < 2 && v < 2 && c < 2
    requires value == 32 * high + 16 * x + 8 * n + 4 * z + 2 * v + c
    ensures HasCcr(SetCcr(f, value), x, n, z, v, c)
  {
    hide Bit;
    BitIs(value, 16, high, x, 8 * n + 4 * z + 2 * v + c);
    BitIs(value, 8, 2 * high + x, n, 4 * z + 2 * v + c);
    BitIs(value, 4, 4 * high + 2 * x + n, z, 2 * v + c);
    BitIs(value, 2, 8 * high + 4 * x + 2 * n + z, v, c);
    BitIs(value, 1, 16 * high + 8 * x + 4 * n + 2 * z + v, c, 0);
  }

  lemma CcrOf(f: Flags, x: nat, n: nat, z: nat, v: nat, c: nat)
    requires x < 2 && n < 2 && z < 2 && v < 2 && c < 2 && HasCcr(f, x, n, z, v, c)
    ensures GetCcr(f) == 16 * x + 8 * n + 4 * z + 2 * v + c
  {
    Digit(x * 0x100, 0x100, 2, 0, x, 0);
    Digit(n * 0x80, 0x80, 2, 0, n, 0);
    Digit(v * 0x80, 0x80, 2, 0, v, 0);
    Digit(c * 0x100, 0x100, 2, 0, c, 0);
  }

  /** Reading the status register after setting it gives the implemented bits of the value set, and the
      flags are those a setter leaves. */
  lemma GetAfterSet(family: Family, f: Flags, sr: nat)
    requires sr < 0x1_0000
    ensures GetSr(SetSr(family, f, sr)) == And(sr, Mask(family))
    ensures Legal(family, SetSr(family, f, sr))
  {
    hide And, SetSr, SetCcr, GetCcr, Mask;
    var t1, t0, s, m, b, i, free, ccr := Fields(sr);
    Masked(family, t1, t0, s, m, b, i, free, ccr);
    SetBothFields(family, f, sr, t1, if family.M68020? then t0 else 0, s, if family.M68020? then m else 0, i, ccr);
  }

  lemma SetBothFields(family: Family, f: Flags, sr: nat, t1: nat, t0: nat, s: nat, m: nat, i: nat, ccr: nat)
    requires t1 < 2 && t0 < 2 && s < 2 && m < 2 && i < 8 && ccr < 32
    requires And(sr, Mask(family)) == Assemble(t1, t0, s, m, 0, i, 0, ccr)
    ensures var r := SetSr(family, f, sr);
            (r.t1, r.t0, r.s, r.m, r.intMask) == (t1 * 0x8000, t0 * 0x4000, s * 4, m * 2, i * 0x100) && GetCcr(r) == ccr
  {
    hide And, Mask, GetCcr, SetCcr;
    SetFields(family, f, sr, t1, t0, s, m, i, ccr);
    var x, n, z, v, c := CcrBits(ccr);
    SetCcrFields(f, Assemble(t1, t0, s, m, 0, i, 0, ccr), x, n, z, v, c,
                 0x400 * t1 + 0x200 * t0 + 0x100 * s + 0x80 * m + 8 * i);
    CcrOf(SetSr(family, f, sr), x, n, z, v, c);
  }

  lemma CcrBits(ccr: nat) returns (x: nat, n: nat, z: nat, v: nat, c: nat)
    requires ccr < 32
    ensures x < 2 && n < 2 && z < 2 && v < 2 && c < 2 && ccr == 16 * x + 8 * n + 4 * z + 2 * v + c
  {
    var q;
    c, q := ccr % 2, ccr / 2;
    v, q := q % 2, q / 2;
    z, q := q % 2, q / 2;
    n, x := q % 2, q / 2;
  }

  /** A status register value the emulator reads has only implemented bits. */
  lemma Readable(family: Family, f: Flags)
    requires Legal(family, f)
    ensures GetSr(f) < 0x1_0000
    ensures And(GetSr(f), Mask(family)) == GetSr(f)
  {
    hide And, GetCcr, Mask;
    CcrRange(f);
    Masked(family, f.t1 / 0x8000, f.t0 / 0x4000, f.s / 4, f.m / 2, 0, f.intMask / 0x100, 0, GetCcr(f));
  }

  lemma CcrRange(f: Flags)
    ensures GetCcr(f) < 32
  {
  }

  /** Readable flags are determined by the status register value, up to the encoding of the codes. */
  lemma SrDetermines(family: Family, f: Flags, g: Flags)
    requires Legal(family, f) && Legal(family, g) && GetSr(f) == GetSr(g)
    ensures (f.t1, f.t0, f.s, f.m, f.intMask, GetCcr(f)) == (g.t1, g.t0, g.s, g.m, g.intMask, GetCcr(g))
  {
    hide GetCcr;
    CcrRange(f);
    CcrRange(g);
  }

  /** Where each flag is in the status register. */
  lemma Layout(family: Family, f: Flags)
    requires Legal(family, f)
    ensures var sr := GetSr(f);
            && (sr / 0x8000 % 2 == 1 <==> f.t1 != 0) && (sr / 0x4000 % 2 == 1 <==> f.t0 != 0)
            && (sr / 0x2000 % 2 == 1 <==> f.s != 0) && (sr / 0x1000 % 2 == 1 <==> f.m != 0)
            && sr / 0x100 % 8 * 0x100 == f.intMask
            && sr / 0x10 % 2 == f.x / 0x100 % 2 && sr / 8 % 2 == f.n / 0x80 % 2
            && (sr / 4 % 2 == 1 <==> f.notZ == 0) && sr / 2 % 2 == f.v / 0x80 % 2 && sr % 2 == f.c / 0x100 % 2
  {
    hide Legal, GetSr, GetCcr;
    var t1, t0, s, m, i := Parts(family, f);
    var x, n, z, v, c := CodesOf(f);
    LayoutOf(GetSr(f), t1, t0, s, m, i, x, n, z, v, c);
  }

  lemma Parts(family: Family, f: Flags) returns (t1: nat, t0: nat, s: nat, m: nat, i: nat)
    requires Legal(family, f)
    ensures t1 < 2 && t0 < 2 && s < 2 && m < 2 && i < 8 && f.intMask == 0x100 * i
    ensures (t1 == 1 <==> f.t1 != 0) && (t0 == 1 <==> f.t0 != 0) && (s == 1 <==> f.s != 0) && (m == 1 <==> f.m != 0)
    ensures GetSr(f) == 0x8000 * t1 + 0x4000 * t0 + 0x2000 * s + 0x1000 * m + 0x100 * i + GetCcr(f)
  {
    hide GetCcr;
    t1, t0 := if f.t1 != 0 then 1 else 0, if f.t0 != 0 then 1 else 0;
    s, m, i := if f.s != 0 then 1 else 0, if f.m != 0 then 1 else 0, f.intMask / 0x100;
  }

  lemma CodesOf(f: Flags) returns (x: nat, n: nat, z: nat, v: nat, c: nat)
    ensures x < 2 && n < 2 && z < 2 && v < 2 && c < 2 && GetCcr(f) == 16 * x + 8 * n + 4 * z + 2 * v + c
    ensures x == f.x / 0x100 % 2 && n == f.n / 0x80 % 2 && (z == 1 <==> f.notZ == 0)
    ensures v == f.v / 0x80 % 2 && c == f.c / 0x100 % 2
  {
    x, n, v, c := f.x / 0x100 % 2, f.n / 0x80 % 2, f.v / 0x80 % 2, f.c / 0x100 % 2;
    z := if f.notZ == 0 then 1 else 0;
  }

  lemma LayoutOf(sr: nat, t1: nat, t0: nat, s: nat, m: nat, i: nat, x: nat, n: nat, z: nat, v: nat, c: nat)
    requires t1 < 2 && t0 < 2 && s < 2 && m < 2 && i < 8 && x < 2 && n < 2 && z < 2 && v < 2 && c < 2
    requires sr == 0x8000 * t1 + 0x4000 * t0 + 0x2000 * s + 0x1000 * m + 0x100 * i + 16 * x + 8 * n + 4 * z + 2 * v + c
    ensures (sr / 0x8000 % 2, sr / 0x4000 % 2, sr / 0x2000 % 2, sr / 0x1000 % 2) == (t1, t0, s, m)
    ensures (sr / 0x100 % 8, sr / 0x10 % 2, sr / 8 % 2, sr / 4 % 2, sr / 2 % 2, sr % 2) == (i, x, n, z, v, c)
  {
    var low := 16 * x + 8 * n + 4 * z + 2 * v + c;
    var top := 8 * t1 + 4 * t0 + 2 * s + m;
    var word := 16 * top + i;
    Digit(sr, 0x8000, 2, 0, t1, 0x4000 * t0 + 0x2000 * s + 0x1000 * m + 0x100 * i + low);
    Digit(sr, 0x4000, 2, t1, t0, 0x2000 * s + 0x1000 * m + 0x100 * i + low);
    Digit(sr, 0x2000, 2, 2 * t1 + t0, s, 0x1000 * m + 0x100 * i + low);
    Digit(sr, 0x1000, 2, 4 * t1 + 2 * t0 + s, m, 0x100 * i + low);
    Digit(sr, 0x100, 8, 2 * top, i, low);
    Digit(sr, 0x10, 2, 8 * word, x, low - 16 * x);
    Digit(sr, 8, 2, 16 * word + x, n, 4 * z + 2 * v + c);
    Digit(sr, 4, 2, 32 * word + 2 * x + n, z, 2 * v + c);
    Digit(sr, 2, 2, 64 * word + 4 * x + 2 * n + z, v, c);
    Digit(sr, 1, 2, 128 * word + 8 * x + 4 * n + 2 * z + v, c, 0);
  }
}
