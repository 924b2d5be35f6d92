/** Matching an access against a transparent translation register, with the masks the emulator computes. */
module Transparent {
  import opened Words
  import opened Powers
  import opened Bitwise
  import opened Descriptors
  import opened Translation

  // ---- bits under a mask ---------------------------------------------------------------------

  /** The complement of `m` in `n` bits. */
  function Complement(n: nat, m: nat): nat
    requires m < Pow2(n)
  {
    Pow2(n) - 1 - m
  }

  /** A shifted mask sees the shifted operand. */
  lemma {:induction false} AndShifted(a: nat, m: nat, n: nat)
    ensures m * Pow2(n) >= 0 && a / Pow2(n) >= 0
    ensures And(a, m * Pow2(n)) == And(a / Pow2(n), m) * Pow2(n)
    decreases n
  {
    hide And;
    NotNegative(a, m, Pow2(n));
    if n == 0 {
      assert Pow2(0) == 1;
    } else {
      var h: nat := a / 2;
      AndShifted(h, m, n - 1);
      Scaled(a, m, Pow2(n - 1));
      assert Pow2(n) == 2 * Pow2(n - 1);
      AndUnfold(a, m * Pow2(n), h, a % 2, m * Pow2(n - 1), 0);
      Twice(And(h / Pow2(n - 1), m), Pow2(n - 1));
    }
  }

  lemma NotNegative(a: nat, m: nat, p: nat)
    requires p > 0
    ensures m * p >= 0 && a / p >= 0
  {
  }

  lemma Scaled(a: nat, m: nat, p: nat)
    requires p > 0
    ensures m * (2 * p) == 2 * (m * p) && a / (2 * p) == a / 2 / p
  {
    Twice(m, p);
    DivDiv(a, 2, p);
  }

  lemma BitOfHalf(a: nat, k: nat)
    ensures BitSet(a, k + 1) == BitSet(a / 2, k)
    ensures BitSet(a, 0) == (a % 2 == 1)
  {
    DivDiv(a, 2, Pow2(k));
    assert Pow2(k + 1) == 2 * Pow2(k) && Pow2(0) == 1;
  }

  /** Equal under the complement of `m`: equal in the bits `m` does not have. */
  ghost predicate SameUnless(a: nat, b: nat, m: nat, n: nat) {
    forall k: nat | k < n :: !BitSet(m, k) ==> BitSet(a, k) == BitSet(b, k)
  }

  lemma {:induction false} EqualUnder(a: nat, b: nat, m: nat, n: nat)
    requires m < Pow2(n)
    ensures And(a, Complement(n, m)) == And(b, Complement(n, m)) <==> SameUnless(a, b, m, n)
    decreases n
  {
    hide And, BitSet, SameUnless;
    if n == 0 {
      AndZero(a);
      AndZero(b);
      NoBits(a, b, m);
    } else {
      var a', b', m' := a / 2, b / 2, m / 2;
      assert Pow2(n) == 2 * Pow2(n - 1);
      EqualUnder(a', b', m', n - 1);
      var c, t := Complement(n - 1, m'), 1 - m % 2;
      assert Complement(n, m) == 2 * c + t;
      AndUnfold(a, 2 * c + t, a', a % 2, c, t);
      AndUnfold(b, 2 * c + t, b', b % 2, c, t);
      SameUnlessStep(a, b, m, n);
    }
  }

  lemma NoBits(a: nat, b: nat, m: nat)
    ensures SameUnless(a, b, m, 0)
  {
  }

  lemma SameUnlessStep(a: nat, b: nat, m: nat, n: nat)
    requires n > 0
    ensures SameUnless(a, b, m, n)
       <==> SameUnless(a / 2, b / 2, m / 2, n - 1) && (m % 2 == 0 ==> a % 2 == b % 2)
  {
    hide BitSet;
    BitOfHalf(a, 0);
    BitOfHalf(b, 0);
    BitOfHalf(m, 0);
    forall k: nat | k < n - 1
      ensures BitSet(a, k + 1) == BitSet(a / 2, k) && BitSet(b, k + 1) == BitSet(b / 2, k)
      ensures BitSet(m, k + 1) == BitSet(m / 2, k)
    {
      BitOfHalf(a, k);
      BitOfHalf(b, k);
      BitOfHalf(m, k);
    }
    if SameUnless(a / 2, b / 2, m / 2, n - 1) && (m % 2 == 0 ==> a % 2 == b % 2) {
      forall k: nat | k < n ensures !BitSet(m, k) ==> BitSet(a, k) == BitSet(b, k) {
        if k > 0 {
          assert BitSet(m, k - 1 + 1) == BitSet(m / 2, k - 1);
        }
      }
    }
    if SameUnless(a, b, m, n) {
      forall k: nat | k < n - 1 ensures !BitSet(m / 2, k) ==> BitSet(a / 2, k) == BitSet(b / 2, k) {
        assert BitSet(m, k + 1) == BitSet(m / 2, k);
      }
    }
  }

  /** The bits of a field of a word. */
  lemma FieldBit(w: nat, low: nat, n: nat, k: nat)
    requires k < n
    ensures w / Pow2(low) >= 0
    ensures BitSet(w / Pow2(low) % Pow2(n), k) == BitSet(w, low + k)
    ensures BitSet(w / Pow2(low), k) == BitSet(w, low + k)
  {
    NotNegative(w, 0, Pow2(low));
    Pow2Add(low, k);
    DivDiv(w, Pow2(low), Pow2(k));
    BitOfLow(w / Pow2(low), n, k);
  }

  lemma BitOfLow(f: nat, n: nat, k: nat)
    requires k < n
    ensures BitSet(f % Pow2(n), k) == BitSet(f, k)
  {
    hide Pow2;
    Pow2Add(k, n - k);
    ModParts(f, Pow2(k), Pow2(n - k));
    NotNegative(f, 0, Pow2(k));
    Pow2Add(1, n - k - 1);
    Two();
    ModParts(f / Pow2(k), 2, Pow2(n - k - 1));
  }

  lemma Two()
    ensures Pow2(1) == 2
  {
  }

  // ---- the registers' fields -----------------------------------------------------------------

  /** The top address bytes agree outside the mask byte. */
  lemma AddressUnder(addr: u32, tt: u32)
    ensures SameUnless(addr / 0x100_0000, tt / 0x100_0000, tt / 0x1_0000 % 0x100, 8)
       <==> forall k: nat | 16 <= k < 24 :: !BitSet(tt, k) ==> BitSet(addr, k + 8) == BitSet(tt, k + 8)
  {
    hide BitSet;
    Units();
    forall k: nat | k < 8
      ensures BitSet(addr / 0x100_0000, k) == BitSet(addr, 24 + k) && BitSet(tt / 0x100_0000, k) == BitSet(tt, 24 + k)
      ensures BitSet(tt / 0x1_0000 % 0x100, k) == BitSet(tt, 16 + k)
    {
      FieldBit(addr, 24, 8, k);
      FieldBit(tt, 24, 8, k);
      FieldBit(tt, 16, 8, k);
    }
    var m, p, q := tt / 0x1_0000 % 0x100, addr / 0x100_0000, tt / 0x100_0000;
    if SameUnless(p, q, m, 8) {
      forall k: nat | 16 <= k < 24 ensures !BitSet(tt, k) ==> BitSet(addr, k + 8) == BitSet(tt, k + 8) {
        assert BitSet(m, k - 16) == BitSet(tt, 16 + (k - 16));
        assert BitSet(p, k - 16) == BitSet(addr, 24 + (k - 16));
        assert BitSet(q, k - 16) == BitSet(tt, 24 + (k - 16));
      }
    }
    if forall k: nat | 16 <= k < 24 :: !BitSet(tt, k) ==> BitSet(addr, k + 8) == BitSet(tt, k + 8) {
      forall k: nat | k < 8 ensures !BitSet(m, k) ==> BitSet(p, k) == BitSet(q, k) {
        assert BitSet(m, k) == BitSet(tt, 16 + k);
        assert !BitSet(tt, 16 + k) ==> BitSet(addr, 16 + k + 8) == BitSet(tt, 16 + k + 8);
      }
    }
  }

  /** A register matches when it is enabled, the privilege is one it covers, and the address agrees in the bits its
      mask byte leaves. */
  lemma MatchMasked(addr: u32, fc: nat, tt: u32)
    ensures var mask := 0xFF - tt / 0x1_0000 % 0x100;
            TransparentMatch(addr, fc, tt)
            <==> && tt / 0x8000 % 2 == 1
                 && (tt / 0x2000 % 4 == 0 ==> fc / 4 % 2 == 0) && (tt / 0x2000 % 4 == 1 ==> fc / 4 % 2 == 1)
                 && And(addr / 0x100_0000, mask) == And(tt / 0x100_0000, mask)
  {
    hide And;
    Units();
    assert Pow2(15) == 0x8000 by { Pow2Add(8, 7); }
    EqualUnder(addr / 0x100_0000, tt / 0x100_0000, tt / 0x1_0000 % 0x100, 8);
    AddressUnder(addr, tt);
  }

  lemma Units()
    ensures Pow2(3) == 8 && Pow2(4) == 16 && Pow2(8) == 0x100 && Pow2(16) == 0x1_0000 && Pow2(24) == 0x100_0000
  {
    Pow2Add(8, 8);
    Pow2Add(16, 8);
  }

  /** The function codes agree outside the mask bits. */
  lemma FunctionCodeUnder(fc: nat, tt: u32)
    ensures SameUnless(fc, tt / 0x10 % 8, tt % 8, 3)
       <==> forall k: nat | k < 3 :: !BitSet(tt, k) ==> BitSet(fc, k) == BitSet(tt, 4 + k)
  {
    hide BitSet;
    Units();
    assert Pow2(0) == 1;
    forall k: nat | k < 3 ensures BitSet(tt / 0x10 % 8, k) == BitSet(tt, 4 + k) && BitSet(tt % 8, k) == BitSet(tt, k) {
      FieldBit(tt, 4, 3, k);
      FieldBit(tt, 0, 3, k);
    }
    var f, m := tt / 0x10 % 8, tt % 8;
    if SameUnless(fc, f, m, 3) {
      forall k: nat | k < 3 ensures !BitSet(tt, k) ==> BitSet(fc, k) == BitSet(tt, 4 + k) {
        assert !BitSet(m, k) ==> BitSet(fc, k) == BitSet(f, k);
      }
    }
    if forall k: nat | k < 3 :: !BitSet(tt, k) ==> BitSet(fc, k) == BitSet(tt, 4 + k) {
      forall k: nat | k < 3 ensures !BitSet(m, k) ==> BitSet(fc, k) == BitSet(f, k) {
        assert !BitSet(tt, k) ==> BitSet(fc, k) == BitSet(tt, 4 + k);
      }
    }
  }

  /** On the 68030 the function code must also agree in the bits its mask leaves, and with RWM set the direction must
      be that of the R/W bit, set for reads. */
  lemma MatchMasked030(a: Access, tt: u32)
    ensures TransparentMatch030(a, tt)
       <==> && TransparentMatch(a.addr, a.fc, tt)
            && And(a.fc, 7 - tt % 8) == And(tt / 0x10 % 8, 7 - tt % 8)
            && (tt / 0x100 % 2 == 1 ==> (tt / 0x200 % 2 == 1 <==> !a.write))
  {
    hide And, TransparentMatch, BitSet, SameUnless;
    EnableBit(tt);
    Units();
    EqualUnder(a.fc, tt / 0x10 % 8, tt % 8, 3);
    FunctionCodeUnder(a.fc, tt);
  }

  /** Comparing the masked addresses compares the top bytes outside the mask byte. */
  lemma MaskedAddress(addr: u32, tt: u32, base: nat)
    requires base / 0x100_0000 == tt / 0x100_0000
    ensures var mask := (0xFF - tt / 0x1_0000 % 0x100) * 0x100_0000;
            && mask >= 0
            && (And(addr, mask) == And(base, mask) <==>
                  forall k: nat | 16 <= k < 24 :: !BitSet(tt, k) ==> BitSet(addr, k + 8) == BitSet(tt, k + 8))
  {
    hide And, BitSet, SameUnless, Pow2;
    Units();
    var m := tt / 0x1_0000 % 0x100;
    AndShifted(addr, 0xFF - m, 24);
    AndShifted(base, 0xFF - m, 24);
    EqualUnder(addr / 0x100_0000, tt / 0x100_0000, m, 8);
    AddressUnder(addr, tt);
  }

  // ---- the matching functions ----------------------------------------------------------------

  /** The part both processors share: enabled, right privilege, address. */
  method MatchAddress(addr: u32, fc: nat, tt: u32, base: nat) returns (r: bool)
    requires base / 0x100_0000 == tt / 0x100_0000
    ensures r == TransparentMatch(addr, fc, tt)
  {
    hide And;
    EnableBit(tt);
    MaskedAddress(addr, tt, base);
    if tt / 0x8000 % 2 == 0 {
      return false;
    }
    var sField := tt / 0x2000 % 4;
    if sField == 0 && !UserAccess(fc) {
      return false;
    }
    if sField == 1 && UserAccess(fc) {
      return false;
    }
    var mask := (0xFF - tt / 0x1_0000 % 0x100) * 0x100_0000;
    return And(addr, mask) == And(base, mask);
  }

  lemma EnableBit(tt: u32)
    ensures BitSet(tt, 15) == (tt / 0x8000 % 2 == 1)
    ensures BitSet(tt, 8) == (tt / 0x100 % 2 == 1) && BitSet(tt, 9) == (tt / 0x200 % 2 == 1)
    ensures BitSet(tt, 2) == (tt / 4 % 2 == 1)
  {
    Units();
    assert Pow2(7) == 128 && Pow2(9) == 512 && Pow2(2) == 4;
    Pow2Add(7, 8);
  }

  /** 68030: also the function code under its mask, and the direction. */
  method Match030(a: Access, tt: u32) returns (r: bool)
    ensures r == TransparentMatch030(a, tt)
  {
    hide And, TransparentMatch, BitSet, SameUnless;
    EnableBit(tt);
    Units();
    var matched := MatchAddress(a.addr, a.fc, tt, tt / 0x100_0000 * 0x100_0000);
    if !matched {
      return false;
    }
    var fcMask, fcBits := 7 - tt % 8, tt / 0x10 % 8;
    EqualUnder(a.fc, fcBits, tt % 8, 3);
    FunctionCodeUnder(a.fc, tt);
    if And(a.fc, fcMask) != And(fcBits, fcMask) {
      return false;
    }
    if tt / 0x100 % 2 == 1 {
      var read := tt / 0x200 % 2 == 1;
      if a.write == read {
        return false;
      }
    }
    return true;
  }

  /** 68040: whether the register matches, and whether its write protection makes the access fault. */
  method Match040(a: Access, tt: u32) returns (r: bool, fault: bool)
    ensures r == TransparentMatch(a.addr, a.fc, tt)
    ensures fault == (r && BitSet(tt, 2) && a.write)
  {
    hide And, TransparentMatch, BitSet;
    EnableBit(tt);
    r := MatchAddress(a.addr, a.fc, tt, tt);
    fault := r && tt / 4 % 2 == 1 && a.write;
  }
}
