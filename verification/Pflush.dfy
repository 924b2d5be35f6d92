/** The selective PFLUSH forms: which cached translations they drop. */
module Pflush {
  import opened Words
  import opened Powers
  import opened Bitwise
  import opened Descriptors
  import Atc
  import W30 = Walk030
  import W40 = Walk040
  import P30 = Pack030
  import P40 = Pack040

  // ---- 68030 ---------------------------------------------------------------------------------

  /** PFLUSH fc,#mask: the function code in the tag, under the mask. */
  predicate DropsFc(fc: nat, mask: nat, tag: int) {
    tag >= 0 && tag / Atc.VALID % 2 == 1 && And(tag / 0x100_0000, mask) == fc
  }

  /** PFLUSH fc,#mask,ea: and the page number. */
  predicate DropsFcEa(g: W30.Tables, fc: nat, mask: nat, ea: u32, tag: int)
    requires 8 <= W30.PageShift(g.tc)
  {
    DropsFc(fc, mask, tag) && tag % 0x100_0000 == P30.PageBits(g, ea)
  }

  lemma TagParts030(g: W30.Tables, a: Access)
    requires 8 <= W30.PageShift(g.tc)
    ensures var t := P30.Tag(g, a);
            t / 0x100_0000 == 8 + a.fc % 8 && t % 0x100_0000 == P30.PageBits(g, a.addr) && t / Atc.VALID % 2 == 1
  {
    hide P30.PageBits;
    DivUnique(P30.Tag(g, a), 0x100_0000, 8 + a.fc % 8, P30.PageBits(g, a.addr));
    P30.TagIsValid(g, a);
  }

  /** A three-bit mask sees the function code only, not the valid bit above it. */
  lemma MaskedFc(r: nat, mask: nat)
    requires r < 8 && mask < 8
    ensures And(8 + r, mask) == And(r, mask)
  {
    hide And;
    MaskedLow(1, 0, r % 8, mask);
    MaskedLow(0, 0, r % 8, mask);
  }

  /** Bits above the mask do not matter. */
  lemma MaskedLow(a: nat, b: nat, r: nat, mask: nat)
    requires r < 8 && mask < 8
    ensures And(8 * a + r, mask) == And(r, mask)
  {
    hide And;
    var r1: nat := r / 2;
    var m1: nat := mask / 2;
    var r2: nat := r1 / 2;
    var m2: nat := m1 / 2;
    AndStep(8 * a + r, 4 * a + r1, mask, m1);
    AndStep(4 * a + r1, 2 * a + r2, m1, m2);
    AndStep(2 * a + r2, a, m2, 0);
    AndStep(r, r1, mask, m1);
    AndStep(r1, r2, m1, m2);
    AndStep(r2, 0, m2, 0);
    AndZero(a);
    AndZero(0);
  }

  lemma AndStep(a: nat, halfA: nat, b: nat, halfB: nat)
    requires a / 2 == halfA && b / 2 == halfB
    ensures And(a, b) == (if b % 2 == 1 then a % 2 else 0) + 2 * And(halfA, halfB)
  {
    if b == 0 {
      AndZero(halfA);
    }
  }

  /** PFLUSH by function code drops exactly the translations whose function code matches under the mask. */
  lemma FlushFc(g: W30.Tables, c: Atc.Cache, fc: nat, mask: nat, a: Access, d: u32)
    requires 8 <= W30.PageShift(g.tc) && Atc.Inv(c) && mask < 8
    ensures Atc.Holds(Atc.Flush(c, (t, _) => DropsFc(fc, mask, t)), P30.Tag(g, a), d)
       <==> Atc.Holds(c, P30.Tag(g, a), d) && And(a.fc % 8, mask) != fc
  {
    hide Atc.Inv, Atc.Holds, Atc.Flush, P30.Tag, And;
    P30.TagIsValid(g, a);
    TagParts030(g, a);
    MaskedFc(a.fc % 8, mask);
    Atc.FlushHolds(c, (t, _) => DropsFc(fc, mask, t), P30.Tag(g, a), d);
  }

  /** With an address, only of those on the page of `ea`. */
  lemma FlushFcEa(g: W30.Tables, c: Atc.Cache, fc: nat, mask: nat, ea: u32, a: Access, d: u32)
    requires 8 <= W30.PageShift(g.tc) && Atc.Inv(c) && mask < 8
    ensures Atc.Holds(Atc.Flush(c, (t, _) => DropsFcEa(g, fc, mask, ea, t)), P30.Tag(g, a), d)
       <==> Atc.Holds(c, P30.Tag(g, a), d)
              && !(And(a.fc % 8, mask) == fc && a.addr / Pow2(W30.PageShift(g.tc)) == ea / Pow2(W30.PageShift(g.tc)))
  {
    hide Atc.Inv, Atc.Holds, Atc.Flush, P30.Tag, And, P30.PageBits, Pow2;
    P30.TagIsValid(g, a);
    TagParts030(g, a);
    MaskedFc(a.fc % 8, mask);
    SamePage030(g, a.addr, ea);
    Atc.FlushHolds(c, (t, _) => DropsFcEa(g, fc, mask, ea, t), P30.Tag(g, a), d);
  }

  lemma SamePage030(g: W30.Tables, x: u32, y: u32)
    requires 8 <= W30.PageShift(g.tc)
    ensures P30.PageBits(g, x) == P30.PageBits(g, y) <==> x / Pow2(W30.PageShift(g.tc)) == y / Pow2(W30.PageShift(g.tc))
  {
    hide Pow2;
    P30.PageBitsRange(g, x);
    P30.PageBitsRange(g, y);
  }

  // ---- 68040 ---------------------------------------------------------------------------------

  /** PFLUSH (An): the page address in the tag. */
  predicate DropsPage(large: bool, addr: u32, tag: int) {
    tag >= 0 && tag / Atc.VALID % 2 == 1
    && tag % 0x100_0000 * 256 / W40.PageSize(large) == addr / W40.PageSize(large)
  }

  /** PFLUSHN (An): not for entries with the global bit. */
  predicate DropsNonGlobal(large: bool, addr: u32, tag: int, data: int) {
    data >= 0 && data / Atc.GLOBAL % 2 == 0 && DropsPage(large, addr, tag)
  }

  lemma DropsPageIs(large: bool, addr: u32, a: Access)
    ensures DropsPage(large, addr, P40.Tag(large, a)) <==> a.addr / W40.PageSize(large) == addr / W40.PageSize(large)
  {
    var t, p := P40.Tag(large, a), P40.PageBits(large, a.addr);
    P40.TagIsValid(large, a);
    assert 0 <= p < 0x100_0000;
    DivUnique(t, 0x100_0000, 8 + a.fc % 8, p);
    PageAddress(large, a.addr);
  }

  lemma PageAddress(large: bool, addr: u32)
    ensures P40.PageBits(large, addr) * 256 / W40.PageSize(large) == addr / W40.PageSize(large)
  {
    var q := addr / W40.PageSize(large);
    assert P40.PageBits(large, addr) * 256 == q * W40.PageSize(large);
  }

  /** PFLUSH drops the translations of one page, for every function code, and no others. */
  lemma FlushPage(large: bool, c: Atc.Cache, addr: u32, a: Access, d: u32)
    requires Atc.Inv(c)
    ensures Atc.Holds(Atc.Flush(c, (t, _) => DropsPage(large, addr, t)), P40.Tag(large, a), d)
       <==> Atc.Holds(c, P40.Tag(large, a), d) && a.addr / W40.PageSize(large) != addr / W40.PageSize(large)
  {
    hide Atc.Inv, Atc.Holds, Atc.Flush, P40.Tag, W40.PageSize;
    P40.TagIsValid(large, a);
    DropsPageIs(large, addr, a);
    Atc.FlushHolds(c, (t, _) => DropsPage(large, addr, t), P40.Tag(large, a), d);
  }

  /** PFLUSHN spares the page's entry exactly when its descriptor is global or lies in the upper half of
      the physical address space: the global bit shares its place with physical bit 31. */
  lemma FlushNonGlobal(large: bool, c: Atc.Cache, addr: u32, a: Access, physical: u32, write: bool, e: Word)
    requires Atc.Inv(c) && physical == W40.Physical(large, e, a.addr)
    requires Atc.Holds(c, P40.Tag(large, a), P40.FillData(large, physical, write, e))
    requires a.addr / W40.PageSize(large) == addr / W40.PageSize(large)
    ensures Atc.Holds(Atc.Flush(c, (t, d) => DropsNonGlobal(large, addr, t, d)), P40.Tag(large, a),
        P40.FillData(large, physical, write, e))
       <==> P40.Global(e) || UpperBit(e, 0x400_0000)
  {
    hide Atc.Inv, Atc.Holds, Atc.Flush, P40.Tag, W40.PageSize, P40.FillData, P40.Global, W40.Physical, DropsPage;
    var d := P40.FillData(large, physical, write, e);
    P40.TagIsValid(large, a);
    DropsPageIs(large, addr, a);
    GlobalBit(large, a.addr, write, e);
    Atc.FlushHolds(c, (t, x) => DropsNonGlobal(large, addr, t, x), P40.Tag(large, a), d);
  }

  /** Bit 23 of the data word. */
  lemma GlobalBit(large: bool, addr: u32, write: bool, e: Word)
    ensures P40.FillData(large, W40.Physical(large, e, addr), write, e) / Atc.GLOBAL % 2 == 1
       <==> P40.Global(e) || UpperBit(e, 0x400_0000)
  {
    hide P40.FillData, P40.MarkedPage, P40.FramePage, P40.HighFlags, P40.PageBits, W40.Physical, P40.Global;
    var page := P40.FramePage(large, e);
    P40.FillDataParts(large, W40.Physical(large, e, addr), write, e);
    P40.PageOfPhysical(large, e, addr);
    P40.TopBitsOfPage(large, e);
    MarkedGlobal(e, page);
    HighIsEven(P40.HighFlags(write, e), P40.MarkedPage(e, page));
  }

  lemma HighIsEven(high: int, low: int)
    requires 0 <= high && 0 <= low < 0x100_0000
    ensures (high * 0x100_0000 + low) / Atc.GLOBAL % 2 == low / Atc.GLOBAL
  {
    DivUnique(high * 0x100_0000 + low, Atc.GLOBAL, 2 * high + low / Atc.GLOBAL, low % Atc.GLOBAL);
  }

  lemma MarkedGlobal(e: Word, page: int)
    requires 0 <= page < 0x100_0000
    ensures P40.MarkedPage(e, page) / Atc.GLOBAL % 2 == 1 <==> P40.Global(e) || page / Atc.GLOBAL % 2 == 1
  {
    hide P40.Global, P40.UserAttribute0, P40.UserAttribute1;
  }
}
