/** What PMOVE accepts as a translation control value, and what the table walk makes of it. */
module Pmove {
  import opened Words
  import opened Powers
  import opened Walk030

  /** The four bits of weight `unit` and up. */
  function Nibble(tc: u32, unit: nat): nat
    requires unit > 0
  {
    tc / unit % 16
  }

  predicate Enabled(tc: u32) {
    tc / 0x8000_0000 % 2 == 1
  }

  /** PMOVE takes a value that enables translation only if the page size is at least 256 bytes and IS, the
      fields at bits 19-4 and PS add up to 32. */
  predicate Accepted(tc: u32) {
    Enabled(tc) ==>
      && PageShift(tc) >= 8
      && InitialShift(tc) + Nibble(tc, 0x1_0000) + Nibble(tc, 0x1000) + Nibble(tc, 0x100) + Nibble(tc, 0x10)
          + PageShift(tc) == 32
  }

  /** The bits the walk has consumed after its three usable index levels. */
  function Consumed(tc: u32): nat {
    InitialShift(tc) + Width(tc, 12) + Width(tc, 8) + Width(tc, 4)
  }

  /** The walk takes its widths from bits 15-4.  After every one of its levels the page offset of an accepted
      value still fits, and the fields cover the whole address exactly when bits 19-16, which PMOVE counts and
      the walk does not read, are zero. */
  lemma AcceptedFits(g: Tables)
    requires Enabled(g.tc) && Accepted(g.tc)
    ensures 8 <= PageShift(g.tc)
    ensures Fits(g, InitialShift(g.tc)) && Fits(g, InitialShift(g.tc) + Width(g.tc, 12))
    ensures Fits(g, InitialShift(g.tc) + Width(g.tc, 12) + Width(g.tc, 8)) && Fits(g, Consumed(g.tc))
    ensures Consumed(g.tc) + PageShift(g.tc) == 32 <==> Nibble(g.tc, 0x1_0000) == 0
  {
  }

  /** PMOVE accepts both of these values with 4K pages, no initial shift and two ten-bit fields; of the first
      one's fields the walk sees only one. */
  lemma MissedField()
    ensures Enabled(0x8C0A_A000) && Accepted(0x8C0A_A000) && Consumed(0x8C0A_A000) == 10
    ensures Enabled(0x8C00_AA00) && Accepted(0x8C00_AA00) && Consumed(0x8C00_AA00) == 20
  {
  }

  /** The page size lies on top of two control bits: an odd page shift turns the function code lookup on, and
      page shifts 10, 11, 14 and 15 the separate supervisor root. */
  lemma PageSizeIsControl(tc: u32)
    ensures FunctionCodeLookup(tc) <==> PageShift(tc) % 2 == 1
    ensures PageShift(tc) >= 8 ==> (SeparateSupervisorRoot(tc) <==> PageShift(tc) in {10, 11, 14, 15})
  {
    var n := tc / 0x100_0000;
    DivDiv(tc, 0x100_0000, 2);
    ModParts(n, 2, 8);
    SecondBit(n % 16);
    ModParts(n / 2, 2, 4);
  }

  lemma SecondBit(n: nat)
    requires n < 16
    ensures n >= 8 ==> (n / 2 % 2 == 1 <==> n in {10, 11, 14, 15})
  {
  }
}
