/** Byte-addressed, big-endian memory behind a 24- or 32-bit address bus. */
module Ram {
  import opened Words

  type u8 = b: int | 0 <= b < 0x100

  type u16 = w: int | 0 <= w < 0x1_0000

  /** How many bytes the address bus reaches. */
  type Bus = n: int | n == 0x100_0000 || n == 0x1_0000_0000 witness 0x100_0000

  /** Bytes that were never written read as zero. */
  type Memory = map<int, u8>

  /** The byte an address selects once it is masked to the bus. */
  function Cell(bus: Bus, a: int): int {
    a % bus
  }

  function At(m: Memory, bus: Bus, a: int): u8 {
    Byte(m, Cell(bus, a))
  }

  function Put(m: Memory, bus: Bus, a: int, b: u8): Memory {
    m[Cell(bus, a) := b]
  }

  function Read16(m: Memory, bus: Bus, a: int): u16 {
    At(m, bus, a) * 0x100 + At(m, bus, a + 1)
  }

  function Read32(m: Memory, bus: Bus, a: int): u32 {
    Read16(m, bus, a) * 0x1_0000 + Read16(m, bus, a + 2)
  }

  function Write16(m: Memory, bus: Bus, a: int, v: u16): Memory {
    Put(Put(m, bus, a, v / 0x100), bus, a + 1, v % 0x100)
  }

  function Write32(m: Memory, bus: Bus, a: int, v: u32): Memory {
    Write16(Write16(m, bus, a, v / 0x1_0000), bus, a + 2, v % 0x1_0000)
  }

  /** Addresses less than a whole bus apart select different bytes. */
  lemma CellsApart(bus: Bus, a: int, b: int)
    requires 0 < b - a < bus
    ensures Cell(bus, a) != Cell(bus, b)
  {
  }

  /** Wrapping an address to 32 bits does not change the byte it selects. */
  lemma CellOfWrap(bus: Bus, a: int, i: int)
    ensures Cell(bus, Wrap(a) + i) == Cell(bus, a + i)
  {
  }

  lemma ReadOfWrap(m: Memory, bus: Bus, a: int, i: int)
    ensures Read16(m, bus, Wrap(a) + i) == Read16(m, bus, a + i)
    ensures Read32(m, bus, Wrap(a) + i) == Read32(m, bus, a + i)
  {
    hide Cell, Wrap;
    CellOfWrap(bus, a, i);
    CellOfWrap(bus, a, i + 1);
    CellOfWrap(bus, a, i + 2);
    CellOfWrap(bus, a, i + 3);
  }

  lemma WriteOfWrap(m: Memory, bus: Bus, a: int, v: u32)
    ensures v < 0x1_0000 ==> Write16(m, bus, Wrap(a), v) == Write16(m, bus, a, v)
    ensures Write32(m, bus, Wrap(a), v) == Write32(m, bus, a, v)
  {
    hide Cell, Wrap;
    CellOfWrap(bus, a, 0);
    CellOfWrap(bus, a, 1);
    CellOfWrap(bus, a, 2);
    CellOfWrap(bus, a, 3);
  }

  /** The byte of a cell. */
  function Byte(m: Memory, q: int): u8 {
    if q in m then m[q] else 0
  }

  /** The cells of the `n` bytes from `a`. */
  function Cells(bus: Bus, a: int, n: nat): (cs: set<int>)
    ensures forall i :: a <= i < a + n ==> Cell(bus, i) in cs
  {
    if n == 0 then {} else Cells(bus, a, n - 1) + {Cell(bus, a + n - 1)}
  }

  lemma {:induction false} CellsOfWrap(bus: Bus, a: int, i: int, n: nat)
    ensures Cells(bus, Wrap(a) + i, n) == Cells(bus, a + i, n)
  {
    hide Cell, Wrap;
    if n > 0 {
      CellsOfWrap(bus, a, i, n - 1);
      CellOfWrap(bus, a, i + n - 1);
    }
  }

  /** Cells `live` hold the same bytes in both memories. */
  ghost predicate Same(live: set<int>, m: Memory, m': Memory) {
    forall q :: q in live ==> Byte(m', q) == Byte(m, q)
  }

  /** Only cells of `area` may differ. */
  ghost predicate SameElsewhere(area: set<int>, m: Memory, m': Memory) {
    forall q: int :: q !in area ==> Byte(m', q) == Byte(m, q)
  }

  lemma ElsewhereTrans(a: set<int>, b: set<int>, m0: Memory, m1: Memory, m2: Memory)
    requires SameElsewhere(a, m0, m1) && SameElsewhere(b, m1, m2)
    ensures SameElsewhere(a + b, m0, m2)
  {
  }

  lemma ElsewhereWider(a: set<int>, b: set<int>, m: Memory, m': Memory)
    requires SameElsewhere(a, m, m') && a <= b
    ensures SameElsewhere(b, m, m')
  {
  }

  lemma WriteElsewhere16(m: Memory, bus: Bus, a: int, v: u16)
    ensures SameElsewhere(Cells(bus, a, 2), m, Write16(m, bus, a, v))
  {
    assert Cell(bus, a) in Cells(bus, a, 2) && Cell(bus, a + 1) in Cells(bus, a, 2);
  }

  lemma WriteElsewhere32(m: Memory, bus: Bus, a: int, v: u32)
    ensures SameElsewhere(Cells(bus, a, 4), m, Write32(m, bus, a, v))
  {
    assert Cell(bus, a) in Cells(bus, a, 4) && Cell(bus, a + 1) in Cells(bus, a, 4);
    assert Cell(bus, a + 2) in Cells(bus, a, 4) && Cell(bus, a + 3) in Cells(bus, a, 4);
  }

  lemma ReadWrite16(m: Memory, bus: Bus, a: int, v: u16)
    ensures Read16(Write16(m, bus, a, v), bus, a) == v
  {
    CellsApart(bus, a, a + 1);
  }

  lemma ReadOther16(m: Memory, bus: Bus, a: int, v: u16, b: int)
    requires 2 <= b - a <= bus - 2 || 2 <= a - b <= bus - 2
    ensures Read16(Write16(m, bus, a, v), bus, b) == Read16(m, bus, b)
  {
    hide Cell;
    if b > a {
      CellsApart(bus, a, b);
      CellsApart(bus, a + 1, b);
      CellsApart(bus, a, b + 1);
      CellsApart(bus, a + 1, b + 1);
    } else {
      CellsApart(bus, b, a);
      CellsApart(bus, b + 1, a);
      CellsApart(bus, b, a + 1);
      CellsApart(bus, b + 1, a + 1);
    }
  }

  lemma ReadLong16(m: Memory, bus: Bus, a: int, v: u16, b: int)
    requires 2 <= b - a <= bus - 4
    ensures Read32(Write16(m, bus, a, v), bus, b) == Read32(m, bus, b)
  {
    hide Read16, Write16;
    ReadOther16(m, bus, a, v, b);
    ReadOther16(m, bus, a, v, b + 2);
  }

  lemma ReadOther32(m: Memory, bus: Bus, a: int, v: u32, b: int)
    requires 4 <= b - a <= bus - 2
    ensures Read16(Write32(m, bus, a, v), bus, b) == Read16(m, bus, b)
  {
    hide Read16, Write16;
    var m1 := Write16(m, bus, a, v / 0x1_0000);
    ReadOther16(m, bus, a, v / 0x1_0000, b);
    ReadOther16(m1, bus, a + 2, v % 0x1_0000, b);
  }

  lemma ReadWrite32(m: Memory, bus: Bus, a: int, v: u32)
    ensures Read32(Write32(m, bus, a, v), bus, a) == v
  {
    hide Read16, Write16;
    var m1 := Write16(m, bus, a, v / 0x1_0000);
    ReadWrite16(m, bus, a, v / 0x1_0000);
    ReadWrite16(m1, bus, a + 2, v % 0x1_0000);
    ReadOther16(m1, bus, a + 2, v % 0x1_0000, a);
  }

  /** A write of two or four bytes leaves every other cell alone. */
  lemma WriteKeeps16(m: Memory, bus: Bus, a: int, v: u16, live: set<int>)
    requires live !! Cells(bus, a, 2)
    ensures Same(live, m, Write16(m, bus, a, v))
  {
    assert Cell(bus, a) in Cells(bus, a, 2) && Cell(bus, a + 1) in Cells(bus, a, 2);
  }

  lemma WriteKeeps32(m: Memory, bus: Bus, a: int, v: u32, live: set<int>)
    requires live !! Cells(bus, a, 4)
    ensures Same(live, m, Write32(m, bus, a, v))
  {
    hide Write16, Cells;
    var m1 := Write16(m, bus, a, v / 0x1_0000);
    SubCells(bus, a, 4, a, 2);
    SubCells(bus, a, 4, a + 2, 2);
    WriteKeeps16(m, bus, a, v / 0x1_0000, live);
    WriteKeeps16(m1, bus, a + 2, v % 0x1_0000, live);
  }

  lemma {:induction false} SubCells(bus: Bus, a: int, n: nat, b: int, k: nat)
    requires a <= b && b + k <= a + n
    ensures Cells(bus, b, k) <= Cells(bus, a, n)
  {
    if k > 0 {
      SubCells(bus, a, n, b, k - 1);
      assert Cell(bus, b + k - 1) in Cells(bus, a, n);
    }
  }

  lemma SameRead16(live: set<int>, m: Memory, m': Memory, bus: Bus, a: int)
    requires Same(live, m, m') && Cells(bus, a, 2) <= live
    ensures Read16(m', bus, a) == Read16(m, bus, a)
  {
    assert Cell(bus, a) in Cells(bus, a, 2) && Cell(bus, a + 1) in Cells(bus, a, 2);
    assert Byte(m', Cell(bus, a)) == Byte(m, Cell(bus, a));
  }

  lemma SameRead32(live: set<int>, m: Memory, m': Memory, bus: Bus, a: int)
    requires Same(live, m, m') && Cells(bus, a, 4) <= live
    ensures Read32(m', bus, a) == Read32(m, bus, a)
  {
    hide Read16, Same, Cells;
    SubCells(bus, a, 4, a, 2);
    SubCells(bus, a, 4, a + 2, 2);
    SameRead16(live, m, m', bus, a);
    SameRead16(live, m, m', bus, a + 2);
  }

  /** Byte ranges less than a bus apart do not share cells. */
  lemma {:induction false} RangesApart(bus: Bus, a: int, j: nat, b: int, k: nat)
    requires a + j <= b && b + k - a <= bus
    ensures Cells(bus, a, j) !! Cells(bus, b, k)
    decreases j, k
  {
    hide Cell;
    if j > 0 && k > 0 {
      RangesApart(bus, a, j - 1, b, k);
      RangesApart(bus, a, j, b, k - 1);
      CellsApart(bus, a + j - 1, b + k - 1);
    }
  }
}
