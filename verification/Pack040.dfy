/** How the 68040 path packs a page into an ATC tag and data word, and reads it back. */
module Pack040 {
  import opened Words
  import opened Powers
  import opened Descriptors
  import opened Walk040
  import Atc

  /** The page number in a tag or data word: address bits 31-8 with the page offset cleared. */
  function PageBits(large: bool, addr: u32): int {
    if large then addr / 0x2000 * 32 else addr / 0x1000 * 16
  }

  function Tag(large: bool, a: Access): u32 {
    Atc.VALID + a.fc % 8 * 0x0100_0000 + PageBits(large, a.addr)
  }

  function Offset(large: bool, addr: u32): (o: int)
    ensures 0 <= o < 0x8000
  {
    addr % PageSize(large)
  }

  predicate Global(e: Word) {
    UpperBit(e, 32)
  }

  predicate UserAttribute0(e: Word) {
    UpperBit(e, 8)
  }

  predicate UserAttribute1(e: Word) {
    UpperBit(e, 16)
  }

  /** The physical page with its protection and modified flags. */
  function PageData(large: bool, physical: u32, write: bool, e: Word): int {
    PageBits(large, physical)
    + (if Protected(e) then Atc.WRITE_PR else 0)
    + (if write && !Protected(e) then Atc.MODIFIED else 0)
  }

  /** The data word: G, U0 and U1 go on top of bits 23-21, which also hold physical bits 31-29. */
  function FillData(large: bool, physical: u32, write: bool, e: Word): u32 {
    var d := PageData(large, physical, write, e);
    var d1 := if Global(e) then Atc.SetFlag(d, Atc.GLOBAL) else d;
    var d2 := if UserAttribute0(e) then Atc.SetFlag(d1, Atc.U0) else d1;
    if UserAttribute1(e) then Atc.SetFlag(d2, Atc.U1) else d2
  }

  /** Every attribute bit the descriptor has set falls on a physical address bit that is set anyway. */
  predicate AttributesHarmless(e: Word) {
    && (Global(e) ==> UpperBit(e, 0x400_0000))
    && (UserAttribute0(e) ==> UpperBit(e, 0x200_0000))
    && (UserAttribute1(e) ==> UpperBit(e, 0x100_0000))
  }

  lemma TagIsValid(large: bool, a: Access)
    ensures Atc.IsValid(Tag(large, a))
  {
  }

  /** A tag stands for one page and one function code. */
  lemma TagSamePage(g: Tables, a0: Access, a: Access)
    ensures Tag(g.large, a0) == Tag(g.large, a)
       <==> a0.addr / PageSize(g.large) == a.addr / PageSize(g.large) && a0.fc % 8 == a.fc % 8
    ensures Tag(g.large, a0) == Tag(g.large, a) ==> SamePage(g, a0, a)
  {
    FcOfTag(a0.fc);
    FcOfTag(a.fc);
  }

  lemma FcOfTag(fc: nat)
    ensures fc / 4 % 2 == fc % 8 / 4
  {
    var q, high, low := fc / 8, fc % 8 / 4, fc % 8 % 4;
    DivUnique(fc, 4, 2 * q + high, low);
    DivUnique(2 * q + high, 2, q, high);
  }

  /** Setting one of bits 23-21 leaves bits 24 and up alone. */
  lemma SetFlagLow(high: int, low: int, unit: int)
    requires unit == Atc.GLOBAL || unit == Atc.U0 || unit == Atc.U1
    requires 0 <= high && 0 <= low < 0x100_0000
    ensures Atc.SetFlag(high * 0x100_0000 + low, unit) == high * 0x100_0000 + Atc.SetFlag(low, unit)
    ensures low <= Atc.SetFlag(low, unit) < 0x100_0000
  {
    hide Atc.SetFlag;
    if unit == Atc.GLOBAL {
      SetFlagBelow(high, low, Atc.GLOBAL, 1);
    } else if unit == Atc.U0 {
      SetFlagBelow(high, low, Atc.U0, 2);
    } else {
      SetFlagBelow(high, low, Atc.U1, 4);
    }
  }

  lemma SetFlagBelow(high: int, low: int, unit: int, half: int)
    requires unit > 0 && half > 0 && unit * (2 * half) == 0x100_0000
    requires 0 <= high && 0 <= low < 0x100_0000
    ensures Atc.SetFlag(high * 0x100_0000 + low, unit) == high * 0x100_0000 + Atc.SetFlag(low, unit)
    ensures low <= Atc.SetFlag(low, unit) < 0x100_0000
  {
    var q, r := low / unit, low % unit;
    assert high * 0x100_0000 == unit * (high * (2 * half)) by {
      assert high * (unit * (2 * half)) == unit * (high * (2 * half));
    }
    assert unit * (high * (2 * half) + q) == unit * (high * (2 * half)) + unit * q;
    DivUnique(high * 0x100_0000 + low, unit, high * (2 * half) + q, r);
    EvenPlus(high * half, q);
    assert high * (2 * half) == 2 * (high * half);
    if q % 2 == 0 && q >= 2 * half - 1 {
      MulAtMost(2 * half, q, unit);
    } else if q % 2 == 0 {
      MulAtMost(q + 2, 2 * half, unit);
    }
  }

  lemma EvenPlus(n: int, q: int)
    ensures (2 * n + q) % 2 == q % 2
  {
  }

  lemma MulAtMost(a: int, b: int, c: int)
    requires a <= b && c > 0
    ensures c * a <= c * b
  {
    if a < b {
      MulAtLeast(c, b - a);
      assert c * (b - a) == c * b - c * a;
    }
  }

  /** The page number after the attribute bits are set on top of it. */
  function MarkedPage(e: Word, page: int): int {
    var d1 := if Global(e) then Atc.SetFlag(page, Atc.GLOBAL) else page;
    var d2 := if UserAttribute0(e) then Atc.SetFlag(d1, Atc.U0) else d1;
    if UserAttribute1(e) then Atc.SetFlag(d2, Atc.U1) else d2
  }

  function HighFlags(write: bool, e: Word): (h: int)
    ensures 0 <= h < 4
  {
    (if Protected(e) then 2 else 0) + (if write && !Protected(e) then 1 else 0)
  }

  lemma FillDataParts(large: bool, physical: u32, write: bool, e: Word)
    ensures FillData(large, physical, write, e)
            == HighFlags(write, e) * 0x100_0000 + MarkedPage(e, PageBits(large, physical))
    ensures PageBits(large, physical) <= MarkedPage(e, PageBits(large, physical)) < 0x100_0000
  {
    hide Atc.SetFlag, Global, UserAttribute0, UserAttribute1;
    var h, page := HighFlags(write, e), PageBits(large, physical);
    var d1 := if Global(e) then Atc.SetFlag(page, Atc.GLOBAL) else page;
    SetFlagLow(h, page, Atc.GLOBAL);
    var d2 := if UserAttribute0(e) then Atc.SetFlag(d1, Atc.U0) else d1;
    SetFlagLow(h, d1, Atc.U0);
    SetFlagLow(h, d2, Atc.U1);
  }

  lemma MarkedPageExact(e: Word, page: int)
    ensures MarkedPage(e, page) == page <==>
            && (Global(e) ==> page / Atc.GLOBAL % 2 == 1)
            && (UserAttribute0(e) ==> page / Atc.U0 % 2 == 1)
            && (UserAttribute1(e) ==> page / Atc.U1 % 2 == 1)
  {
    hide Global, UserAttribute0, UserAttribute1;
  }

  /** The page number of the frame in descriptor `e`. */
  function FramePage(large: bool, e: Word): int {
    if large then e.upper / 256 * 32 else e.upper / 128 * 16
  }

  lemma PageOfPhysical(large: bool, e: Word, addr: u32)
    ensures PageBits(large, Physical(large, e, addr)) == FramePage(large, e)
    ensures FramePage(large, e) * 256 + Offset(large, addr) == Physical(large, e, addr)
  {
    if large {
      PageNumber(e.upper / 256, addr % 0x2000, 0x2000);
    } else {
      PageNumber(e.upper / 128, addr % 0x1000, 0x1000);
    }
  }

  lemma PageNumber(q: int, r: int, size: int)
    requires 0 <= r < size && (size == 0x2000 || size == 0x1000)
    ensures (q * size + r) / size == q
  {
  }

  /** Bits 31-29 of the physical address are bits 23-21 of the page number. */
  lemma TopBitsOfPage(large: bool, e: Word)
    ensures FramePage(large, e) / Atc.GLOBAL == e.upper / 0x400_0000
    ensures FramePage(large, e) / Atc.U0 == e.upper / 0x200_0000
    ensures FramePage(large, e) / Atc.U1 == e.upper / 0x100_0000
  {
    if large {
      ShiftedUnit(e.upper, 256, 32, 0x4_0000);
      ShiftedUnit(e.upper, 256, 32, 0x2_0000);
      ShiftedUnit(e.upper, 256, 32, 0x1_0000);
    } else {
      ShiftedUnit(e.upper, 128, 16, 0x8_0000);
      ShiftedUnit(e.upper, 128, 16, 0x4_0000);
      ShiftedUnit(e.upper, 128, 16, 0x2_0000);
    }
  }

  lemma ShiftedUnit(x: nat, down: nat, up: nat, unit: nat)
    requires down > 0 && up > 0 && unit > 0
    ensures up * unit > 0 && down * unit > 0
    ensures x / down * up / (up * unit) == x / (down * unit)
  {
    ScaleDiv(x / down, up, unit);
    DivDiv(x, down, unit);
  }

  /** A hit on the entry filled for descriptor `e` gives the walk's address exactly when the
      attributes are harmless. */
  lemma HitExact(large: bool, write: bool, e: Word, addr0: u32, addr: u32)
    ensures Atc.HitAddress(FillData(large, Physical(large, e, addr0), write, e), Offset(large, addr))
            == Physical(large, e, addr)
       <==> AttributesHarmless(e)
  {
    hide FillData, MarkedPage, Physical, Global, UserAttribute0, UserAttribute1, FramePage, PageBits, Offset,
         HighFlags, Atc.HitAddress;
    var page := FramePage(large, e);
    FillDataParts(large, Physical(large, e, addr0), write, e);
    PageOfPhysical(large, e, addr0);
    PageOfPhysical(large, e, addr);
    MarkedPageExact(e, page);
    TopBitsOfPage(large, e);
    HitAddressOf(HighFlags(write, e), MarkedPage(e, page), Offset(large, addr));
  }

  lemma HitAddressOf(high: int, low: int, offset: int)
    requires 0 <= high < 4 && 0 <= low < 0x100_0000 && 0 <= offset < 0x8000
    ensures Atc.HitAddress(high * 0x100_0000 + low, offset) == Wrap(low * 256 + offset)
  {
  }

  /** The attribute bits do not reach the flags above them. */
  lemma FillFlags(large: bool, physical: u32, write: bool, e: Word)
    ensures var d := FillData(large, physical, write, e);
            && !Atc.Flag(d, Atc.BUSERROR)
            && Atc.Flag(d, Atc.WRITE_PR) == Protected(e)
            && Atc.Flag(d, Atc.MODIFIED) == (write && !Protected(e))
  {
    FillDataParts(large, physical, write, e);
    FlagsOfParts(HighFlags(write, e), MarkedPage(e, PageBits(large, physical)));
  }

  lemma FlagsOfParts(high: int, low: int)
    requires 0 <= high < 4 && 0 <= low < 0x100_0000
    ensures !Atc.Flag(high * 0x100_0000 + low, Atc.BUSERROR)
    ensures Atc.Flag(high * 0x100_0000 + low, Atc.WRITE_PR) == (high >= 2)
    ensures Atc.Flag(high * 0x100_0000 + low, Atc.MODIFIED) == (high % 2 == 1)
  {
  }
}
