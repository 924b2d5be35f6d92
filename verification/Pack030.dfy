/** How the 68030 path packs a page into an ATC tag and data word, and reads it back. */
module Pack030 {
  import opened Words
  import opened Powers
  import opened Descriptors
  import opened Walk030
  import Atc

  /** The page number in a tag or data word: address bits 31-8 with the page offset cleared. */
  function PageBits(g: Tables, addr: u32): (p: int)
    requires 8 <= PageShift(g.tc)
    ensures 0 <= p < 0x100_0000
  {
    PageBitsRange(g, addr);
    addr / Pow2(PageShift(g.tc)) * Pow2(PageShift(g.tc) - 8)
  }

  /** Shifted up by eight, the page number is the address with the page offset cleared. */
  lemma PageBitsRange(g: Tables, addr: u32)
    requires 8 <= PageShift(g.tc)
    ensures var k := PageShift(g.tc);
            var p := addr / Pow2(k) * Pow2(k - 8);
            0 <= p < 0x100_0000 && p * 256 == addr / Pow2(k) * Pow2(k) && p / Pow2(k - 8) == addr / Pow2(k)
  {
    var k := PageShift(g.tc);
    Pow2Add(k - 8, 8);
    assert Pow2(8) == 256;
    PageBitsCore(addr, Pow2(k - 8), addr / Pow2(k));
  }

  lemma PageBitsCore(addr: u32, n: int, q: int)
    requires n > 0 && q == addr / (n * 256)
    ensures 0 <= q * n < 0x100_0000 && q * n * 256 == q * (n * 256) && q * n / n == q
  {
    var size := n * 256;
    assert q >= 0 && size * q <= addr by {
      MulAtLeast(n, 256);
      QuotientBounds(addr, size);
    }
    var p := q * n;
    assert size * q == p * 256;
    assert p == n * q;
    DivUnique(p, n, q, 0);
  }

  lemma QuotientBounds(x: int, d: int)
    requires 0 <= x && d > 0
    ensures 0 <= x / d && d * (x / d) <= x
  {
  }

  function Tag(g: Tables, a: Access): u32
    requires 8 <= PageShift(g.tc)
  {
    Atc.VALID + a.fc % 8 * 0x0100_0000 + PageBits(g, a.addr)
  }

  function Offset(g: Tables, addr: u32): (o: int)
    ensures 0 <= o < 0x8000
  {
    SmallPage(PageShift(g.tc));
    addr % Pow2(PageShift(g.tc))
  }

  lemma SmallPage(k: nat)
    requires k <= 15
    ensures Pow2(k) <= 0x8000
    decreases 15 - k
  {
    if k < 15 {
      SmallPage(k + 1);
    } else {
      Pow2Add(7, 8);
      assert Pow2(7) == 128 && Pow2(8) == 256;
    }
  }

  /** The data word for outcome `o`; `asWrite` marks the entry modified. */
  function FillData(g: Tables, o: Outcome, asWrite: bool): u32
    requires 8 <= PageShift(g.tc)
  {
    PageBits(g, o.out)
    + (if o.invalid || o.supervisorOnly then Atc.BUSERROR else 0)
    + (if o.protected then Atc.WRITE_PR else 0)
    + (if asWrite && !o.protected then Atc.MODIFIED else 0)
  }

  lemma TagIsValid(g: Tables, a: Access)
    requires 8 <= PageShift(g.tc)
    ensures Atc.IsValid(Tag(g, a))
  {
    hide PageBits;
  }

  /** A tag stands for one page and one function code. */
  lemma TagSamePage(g: Tables, a0: Access, a: Access)
    requires 8 <= PageShift(g.tc) && a0.fc < 8 && a.fc < 8
    ensures Tag(g, a0) == Tag(g, a) <==> SamePage(g, a0, a)
  {
    SamePageBits(a0.fc, PageBits(g, a0.addr), a.fc, PageBits(g, a.addr));
    hide Pow2, PageShift;
    PageBitsRange(g, a0.addr);
    PageBitsRange(g, a.addr);
  }

  lemma SamePageBits(fc0: nat, p0: int, fc: nat, p: int)
    requires fc0 < 8 && fc < 8 && 0 <= p0 < 0x100_0000 && 0 <= p < 0x100_0000
    ensures fc0 % 8 * 0x0100_0000 + p0 == fc % 8 * 0x0100_0000 + p <==> fc0 == fc && p0 == p
  {
  }

  /** What a hit reads back from the data word of outcome `o`. */
  lemma HitReads(g: Tables, o: Outcome, asWrite: bool, addr: u32, write: bool)
    requires 8 <= PageShift(g.tc)
    ensures var d, k := FillData(g, o, asWrite), PageShift(g.tc);
            && Atc.HitAddress(d, Offset(g, addr)) == Wrap(o.out / Pow2(k) * Pow2(k) + addr % Pow2(k))
            && Atc.HitFault(d, write) == (o.invalid || o.supervisorOnly || (o.protected && write))
            && Atc.Flag(d, Atc.MODIFIED) == (asWrite && !o.protected)
  {
    PageBitsRange(g, o.out);
    hide Pow2, PageShift;
    Flags(PageBits(g, o.out), o.invalid || o.supervisorOnly, o.protected, asWrite && !o.protected);
  }

  lemma Flags(page: int, bus: bool, protected: bool, modified: bool)
    requires 0 <= page < 0x100_0000
    ensures var d := page + (if bus then Atc.BUSERROR else 0) + (if protected then Atc.WRITE_PR else 0)
                     + (if modified then Atc.MODIFIED else 0);
            d % 0x100_0000 == page && Atc.Flag(d, Atc.BUSERROR) == bus
            && Atc.Flag(d, Atc.WRITE_PR) == protected && Atc.Flag(d, Atc.MODIFIED) == modified
  {
  }
}
