/** Small tables on which the ATC and the table walk disagree. */
module Examples {
  import opened Words
  import opened Powers
  import Shifts
  import opened Descriptors
  import opened Translation
  import opened Runs
  import Pmove
  import W30 = Walk030
  import W40 = Walk040

  // ---- 68040: a global page ------------------------------------------------------------------

  const TABLES_040: W40.Tables := W40.Tables(false, 0x1000, 0x1000)

  const CONFIG_040: Config := Mmu040(TABLES_040, true, 0, 0, 0, 0)

  /** Root, pointer and page descriptor for page 0, the last one with its global bit (0x4401). */
  const MEMORY_040: Memory := map[
    0x1000 := Longword(0x100, false, false, 2),
    0x2000 := Longword(0x180, false, false, 2),
    0x3000 := Longword(0x220, false, false, 1)
  ]

  const READ: Access := Access(0, 1, false)

  lemma NoTransparency(addr: u32, fc: nat)
    ensures !TransparentMatch(addr, fc, 0)
  {
    assert !BitSet(0, 15);
  }

  /** A global page below the upper half of physical memory is read wrong the second time. */
  lemma GlobalPageMisread()
    ensures !Agrees(CONFIG_040, Flushed(MEMORY_040), MEMORY_040, [Translate(READ), Translate(READ)])
  {
    hide Agrees;
    var ds: set<u32> := {0x1000, 0x2000, 0x3000};
    NoTransparency(0, 1);
    GlobalPageRoles(ds);
    GlobalPageHarmful();
    HarmfulAttributes(CONFIG_040, ds, MEMORY_040, READ);
  }

  lemma GlobalPageRoles(ds: set<u32>)
    requires ds == {0x1000, 0x2000, 0x3000}
    ensures W40.Roles(TABLES_040, ds, MEMORY_040, READ)
  {
    assert W40.RootSlot(TABLES_040, READ) == 0x1000;
    var m1 := Mark(MEMORY_040, 0x1000, false);
    assert W40.PointerSlot(Read(MEMORY_040, 0x1000), 0) == 0x2000;
    assert W40.PageSlot(false, Read(m1, 0x2000), 0) == 0x3000;
  }

  lemma GlobalPageHarmful()
    ensures !Cacheable(CONFIG_040, MEMORY_040, READ)
  {
    assert W40.RootSlot(TABLES_040, READ) == 0x1000;
    var m1 := Mark(MEMORY_040, 0x1000, false);
    assert W40.PointerSlot(Read(MEMORY_040, 0x1000), 0) == 0x2000;
    var m2 := Mark(m1, 0x2000, false);
    assert W40.PageSlot(false, Read(m1, 0x2000), 0) == 0x3000;
    assert W40.Resolve(m2, 0x3000, 0) == 0x3000;
    var o := W40.Walk(TABLES_040, MEMORY_040, READ);
    assert o.page.Some? && o.page.value == Longword(0x220, false, true, 1);
  }

  // ---- 68030: a write to a protected page ----------------------------------------------------

  /** 4K pages, two ten-bit index fields, and a short-format table at 0x1000. */
  const TABLES_030: W30.Tables := W30.Tables(
    0x8C00_AA00,
    Longword(0x80, false, false, 0), Longword(0, false, false, 2),
    Longword(0, false, false, 0), Longword(0, false, false, 0)
  )

  const CONFIG_030: Config := Mmu030(TABLES_030, 0, 0)

  /** A write-protected table descriptor, and the page descriptor of page 0. */
  const MEMORY_030: Memory := map[
    0x1000 := Longword(0x100, false, false, 6),
    0x2000 := Longword(0x280, false, false, 1)
  ]

  const WRITE: Access := Access(0, 1, true)

  lemma Widths030()
    ensures W30.PageShift(TABLES_030.tc) == 12 && W30.InitialShift(TABLES_030.tc) == 0
    ensures W30.Width(TABLES_030.tc, 12) == 10 && W30.Width(TABLES_030.tc, 8) == 10
    ensures !W30.MayBeIndirect(TABLES_030, 12) && !W30.MayBeIndirect(TABLES_030, 8)
    ensures forall fc: nat :: W30.Start(TABLES_030, fc) == W30.Cursor(2, 0x1000, 12, 0, 0, false, false, 0)
  {
  }

  lemma ZeroIndex(c: W30.Cursor, a: Access)
    requires a.addr == 0 && c.position != 16
    ensures W30.Index(TABLES_030, c, a) == 0
  {
    ZeroShift(c.consumed, 32 - W30.Width(TABLES_030.tc, c.position));
  }

  lemma ZeroShift(k: nat, n: nat)
    ensures Shifts.Shr(Shifts.Shl(0, k), n) == 0
  {
    assert 0 * Pow2(k) == 0;
    assert 0 / Pow2(n) == 0;
  }

  /** The first level, common to the write and the read. */
  lemma FirstLevel(m: Memory, a: Access)
    requires a.addr == 0 && a.fc == 1 && (m == MEMORY_030 || m == MARKED_030)
    ensures var c := W30.Start(TABLES_030, 1);
            var f := W30.Fetch(TABLES_030, m, c, a);
            && f.at == 0x1000 && f.word == Longword(0x100, false, m == MARKED_030, 6)
            && f.table == 0x2000 && f.levels == 1
            && W30.Update(m, f.at, f.word, a.write) == MARKED_030
            && W30.Advance(TABLES_030, c, f, a) == W30.Cursor(2, 0x2000, 8, 10, 1, true, false, 0x1000)
  {
    hide W30.MayBeIndirect, W30.Width, W30.Index;
    Widths030();
    ZeroIndex(W30.Start(TABLES_030, 1), a);
  }

  const MARKED_030: Memory := MEMORY_030[0x1000 := Longword(0x100, false, true, 6)]

  /** The write stops at the table descriptor, and its address is all there is to cache. */
  lemma WriteStops(ds: set<u32>)
    requires ds == {0x1000, 0x2000}
    ensures var o := W30.Walk(TABLES_030, MEMORY_030, WRITE);
            o.out == 0x1000 && o.protected && !o.supervisorOnly && o.memory == MARKED_030
    ensures W30.Roles(TABLES_030, ds, MEMORY_030, WRITE)
  {
    hide W30.Fetch, W30.Advance, W30.MayBeIndirect, W30.Width;
    Widths030();
    FirstLevel(MEMORY_030, WRITE);
    FirstEntry(WRITE);
  }

  lemma FirstEntry(a: Access)
    requires a.addr == 0 && a.fc == 1
    ensures W30.EntryAddress(TABLES_030, W30.Start(TABLES_030, 1), a) == 0x1000
  {
    hide W30.Index;
    Widths030();
    ZeroIndex(W30.Start(TABLES_030, 1), a);
  }

  /** The second level of a read. */
  lemma SecondLevel(a: Access)
    requires a.addr == 0 && a.fc == 1
    ensures var c := W30.Cursor(2, 0x2000, 8, 10, 1, true, false, 0x1000);
            var f := W30.Fetch(TABLES_030, MARKED_030, c, a);
            && W30.EntryAddress(TABLES_030, c, a) == 0x2000
            && f.at == 0x2000 && f.word == Longword(0x280, false, false, 1) && f.table == 0x5000 && f.levels == 1
            && W30.Advance(TABLES_030, c, f, a) == W30.Cursor(1, 0x5000, 4, 20, 2, true, false, 0x2000)
  {
    hide W30.MayBeIndirect, W30.Width, W30.Index;
    Widths030();
    ZeroIndex(W30.Cursor(2, 0x2000, 8, 10, 1, true, false, 0x1000), a);
  }

  /** The page itself. */
  lemma AtPage(ds: set<u32>, m: Memory, a: Access)
    requires a.addr == 0
    ensures var c := W30.Cursor(1, 0x5000, 4, 20, 2, true, false, 0x2000);
            W30.Loop(TABLES_030, m, c, a).out == 0x5000 && W30.RolesFrom(TABLES_030, ds, m, c, a)
  {
    hide W30.Fetch, W30.Advance, Shifts.BlockAddress;
    Widths030();
    PageAt(0x5000, 20, 12);
  }

  lemma AtSecond(ds: set<u32>, a: Access)
    requires ds == {0x1000, 0x2000} && a == AsRead(WRITE)
    ensures var c := W30.Cursor(2, 0x2000, 8, 10, 1, true, false, 0x1000);
            W30.Loop(TABLES_030, MARKED_030, c, a).out == 0x5000 && W30.RolesFrom(TABLES_030, ds, MARKED_030, c, a)
  {
    hide W30.Fetch, W30.Advance, W30.MayBeIndirect, W30.Width, W30.Update, W30.EntryAddress;
    Widths030();
    SecondLevel(a);
    var f := W30.Fetch(TABLES_030, MARKED_030, W30.Cursor(2, 0x2000, 8, 10, 1, true, false, 0x1000), a);
    AtPage(ds, W30.Update(MARKED_030, f.at, f.word, a.write), a);
  }

  /** The read's walk reaches the page. */
  lemma ReadResolves(ds: set<u32>, m: Memory)
    requires ds == {0x1000, 0x2000} && (m == MEMORY_030 || m == MARKED_030)
    ensures W30.Walk(TABLES_030, m, AsRead(WRITE)).out == 0x5000
    ensures W30.Roles(TABLES_030, ds, m, AsRead(WRITE))
  {
    hide W30.Fetch, W30.Advance, W30.MayBeIndirect, W30.Width, W30.Update, W30.EntryAddress;
    var a := AsRead(WRITE);
    Widths030();
    FirstLevel(m, a);
    FirstEntry(a);
    AtSecond(ds, a);
  }

  lemma PageAt(base: u32, s: nat, k: nat)
    requires base == 0x5000 && k == 12
    ensures Shifts.BlockAddress(base, 0, s, k) == 0x5000
  {
    ZeroShift(s, s);
    assert Pow2(12) == 0x1000;
  }

  /** After a write stopped by protection, a read of the page gets the page of the protecting descriptor. */
  lemma ProtectedWriteMisread()
    ensures Pmove.Enabled(TABLES_030.tc) && Pmove.Accepted(TABLES_030.tc)
    ensures !Agrees(CONFIG_030, Flushed(MEMORY_030), MEMORY_030, [Translate(WRITE), Translate(AsRead(WRITE))])
  {
    hide Agrees, W30.Walk, W30.Roles;
    var ds: set<u32> := {0x1000, 0x2000};
    NoTransparency(0, 1);
    Pmove.MissedField();
    Widths030();
    WriteStops(ds);
    ReadResolves(ds, MEMORY_030);
    ReadResolves(ds, MARKED_030);
    ProtectedWriteThenRead(CONFIG_030, ds, MEMORY_030, WRITE);
    assert Pow2(12) == 0x1000;
  }
  // ---- 68030: an indirect descriptor in a tree of two levels ---------------------------------

  /** A table descriptor, and at the last level a short indirect one for page 0. */
  const MEMORY_SHORT: Memory := map[
    0x1000 := Longword(0x100, false, false, 2),
    0x2000 := Longword(0x280, false, false, 2)
  ]

  /** The walk takes the indirect descriptor for a table, and leaves the defined range. */
  lemma IndirectMissed()
    ensures Pmove.Enabled(TABLES_030.tc) && Pmove.Accepted(TABLES_030.tc)
    ensures !W30.Walk(TABLES_030, MEMORY_SHORT, READ).defined
  {
    hide W30.Fetch, W30.Advance, W30.MayBeIndirect, W30.Width, W30.Update;
    Pmove.MissedField();
    Widths030();
    FirstMissed();
    SecondMissed(MEMORY_SHORT[0x1000 := Longword(0x100, false, true, 2)]);
  }

  lemma FirstMissed()
    ensures var c := W30.Start(TABLES_030, 1);
            var f := W30.Fetch(TABLES_030, MEMORY_SHORT, c, READ);
            && W30.Update(MEMORY_SHORT, f.at, f.word, false) == MEMORY_SHORT[0x1000 := Longword(0x100, false, true, 2)]
            && W30.Advance(TABLES_030, c, f, READ) == W30.Cursor(2, 0x2000, 8, 10, 1, false, false, 0x1000)
  {
    hide W30.MayBeIndirect, W30.Width, W30.Index;
    Widths030();
    ZeroIndex(W30.Start(TABLES_030, 1), READ);
  }

  lemma SecondMissed(m: Memory)
    requires m == MEMORY_SHORT[0x1000 := Longword(0x100, false, true, 2)]
    ensures !W30.Loop(TABLES_030, m, W30.Cursor(2, 0x2000, 8, 10, 1, false, false, 0x1000), READ).defined
  {
    hide W30.MayBeIndirect, W30.Index, W30.Loop;
    var c := W30.Cursor(2, 0x2000, 8, 10, 1, false, false, 0x1000);
    Widths030();
    ZeroIndex(c, READ);
    W30.IndirectAtThird(TABLES_030, 8);
    W30.ShortTreeLosesIndirect(TABLES_030, m, c, READ);
  }

  // ---- 68040: one tree for user and one for supervisor accesses ------------------------------

  const TABLES_BOTH: W40.Tables := W40.Tables(false, 0x1000, 0x8000)

  const CONFIG_BOTH: Config := Mmu040(TABLES_BOTH, true, 0, 0, 0, 0)

  /** Root, pointer and page descriptor of page 0 for the user, in frame 0x5000, and for the supervisor, in 0x6000. */
  const MEMORY_BOTH: Memory := map[
    0x1000 := Longword(0x100, false, false, 2),
    0x2000 := Longword(0x180, false, false, 2),
    0x3000 := Longword(0x280, false, false, 1),
    0x8000 := Longword(0x480, false, false, 2),
    0x9000 := Longword(0x500, false, false, 2),
    0xA000 := Longword(0x300, false, false, 1)
  ]

  /** User and supervisor data reads of one address go to different pages. */
  lemma UserAndSupervisor()
    ensures var user := Uncached(CONFIG_BOTH, MEMORY_BOTH, Access(0x123, 1, false));
            var supervisor := Uncached(CONFIG_BOTH, MEMORY_BOTH, Access(0x123, 5, false));
            && !user.fault && user.out == 0x5123
            && !supervisor.fault && supervisor.out == 0x6123
  {
    hide W40.Walk;
    NoTransparency(0x123, 1);
    NoTransparency(0x123, 5);
    ReadOfBoth(1, 0x1000, 0x2000, 0x3000, 0x280);
    ReadOfBoth(5, 0x8000, 0x9000, 0xA000, 0x300);
  }

  lemma ReadOfBoth(fc: nat, root: u32, pointer: u32, page: u32, frame: int)
    requires (fc, root, pointer, page, frame) == (1, 0x1000, 0x2000, 0x3000, 0x280)
          || (fc, root, pointer, page, frame) == (5, 0x8000, 0x9000, 0xA000, 0x300)
    ensures var o := W40.Walk(TABLES_BOTH, MEMORY_BOTH, Access(0x123, fc, false));
            !o.fault && o.out == frame * 32 + 0x123
  {
    assert W40.RootSlot(TABLES_BOTH, Access(0x123, fc, false)) == root;
    var m1 := Mark(MEMORY_BOTH, root, false);
    assert W40.PointerSlot(Read(MEMORY_BOTH, root), 0x123) == pointer;
    var m2 := Mark(m1, pointer, false);
    assert W40.PageSlot(false, Read(m1, pointer), 0x123) == page;
    assert W40.Resolve(m2, page, 0) == page;
    assert Read(m2, page) == Longword(frame, false, false, 1);
  }

  // ---- 68030: eight-byte descriptors and a separate supervisor root --------------------------

  /** 1K pages, two eleven-bit index fields, SRE, and an eight-byte table at 0x1000 and at 0x8000. */
  const TABLES_LONG: W30.Tables := W30.Tables(
    0x8A00_BB00,
    Longword(0x80, false, false, 0), Longword(0, false, false, 3),
    Longword(0x400, false, false, 0), Longword(0, false, false, 3)
  )

  const CONFIG_LONG: Config := Mmu030(TABLES_LONG, 0, 0)

  /** Table descriptors of limit 0x7FFF to 0x2000 and 0x9000, and page descriptors of frames 0x5000 and 0x6000. */
  const MEMORY_LONG: Memory := map[
    0x1000 := Longword(0x3FF_F800, false, false, 3), 0x1004 := Longword(0x100, false, false, 0),
    0x2000 := Longword(0, false, false, 1), 0x2004 := Longword(0x280, false, false, 0),
    0x8000 := Longword(0x3FF_F800, false, false, 3), 0x8004 := Longword(0x480, false, false, 0),
    0x9000 := Longword(0, false, false, 1), 0x9004 := Longword(0x300, false, false, 0)
  ]

  /** User and supervisor reads of one address, through their own roots. */
  lemma LongFormat()
    ensures Pmove.Enabled(TABLES_LONG.tc) && Pmove.Accepted(TABLES_LONG.tc)
    ensures var user := Uncached(CONFIG_LONG, MEMORY_LONG, Access(0, 1, false));
            var supervisor := Uncached(CONFIG_LONG, MEMORY_LONG, Access(0, 5, false));
            && !user.fault && user.out == 0x5000
            && !supervisor.fault && supervisor.out == 0x6000
  {
    hide W30.Walk;
    LongWidths();
    NoTransparency(0, 1);
    NoTransparency(0, 5);
    LongWalk(1, 0x1000, 0x2000, 0x280);
    LongWalk(5, 0x8000, 0x9000, 0x300);
  }

  lemma LongWidths()
    ensures Pmove.Enabled(TABLES_LONG.tc) && Pmove.Accepted(TABLES_LONG.tc)
    ensures W30.PageShift(TABLES_LONG.tc) == 10 && W30.InitialShift(TABLES_LONG.tc) == 0
    ensures W30.Width(TABLES_LONG.tc, 12) == 11 && W30.Width(TABLES_LONG.tc, 8) == 11
    ensures !W30.MayBeIndirect(TABLES_LONG, 12) && !W30.MayBeIndirect(TABLES_LONG, 8)
    ensures W30.Start(TABLES_LONG, 1) == W30.Cursor(3, 0x1000, 12, 0, 0, false, false, 0)
    ensures W30.Start(TABLES_LONG, 5) == W30.Cursor(3, 0x8000, 12, 0, 0, false, false, 0)
  {
  }

  lemma LongLevel(m: Memory, c: W30.Cursor, a: Access, first: Word, second: Word)
    requires c.kind == 3 && c.table as int + 4 < TWO_32 && (c.position == 12 || c.position == 8) && !c.protected
    requires a.addr == 0 && !a.write && Read(m, c.table) == first && Read(m, c.table + 4) == second
    requires first.low == 1 || first.low == 3
    requires first.upper / 8 % 2 == 0
    requires !c.supervisorOnly
    ensures var f := W30.Fetch(TABLES_LONG, m, c, a);
            && f.at == c.table && f.word == first && f.levels == 1
            && W30.Update(m, f.at, f.word, a.write) == Mark(m, c.table, false)
            && W30.Advance(TABLES_LONG, c, f, a)
               == W30.Cursor(first.low, second.upper * 32 + (if second.modified then 16 else 0), c.position - 4,
                             c.consumed + 11, c.level + 1, false, false, c.table)
  {
    hide W30.MayBeIndirect, W30.Width, Shifts.Shl, Shifts.Shr;
    LongWidths();
    ZeroShift(c.consumed, 32 - W30.Width(TABLES_LONG.tc, c.position));
  }

  lemma LongTurn(m: Memory, c: W30.Cursor, a: Access)
    requires c.kind == 3 && (c.position == 12 || c.position == 8)
    requires var d := W30.Advance(TABLES_LONG, c, W30.Fetch(TABLES_LONG, m, c, a), a);
             !d.protected && !d.supervisorOnly && d.level < W30.LEVEL_LIMIT
    ensures var f := W30.Fetch(TABLES_LONG, m, c, a);
            W30.Loop(TABLES_LONG, m, c, a)
            == W30.Loop(TABLES_LONG, W30.Update(m, f.at, f.word, a.write), W30.Advance(TABLES_LONG, c, f, a), a)
  {
    hide W30.Fetch, W30.Advance, W30.Update, W30.Width, W30.MayBeIndirect, Shifts.BlockAddress;
    LongWidths();
  }

  lemma LongWalk(fc: nat, root: u32, table: u32, frame: int)
    requires (fc, root, table, frame) == (1, 0x1000, 0x2000, 0x280)
          || (fc, root, table, frame) == (5, 0x8000, 0x9000, 0x300)
    ensures var o := W30.Walk(TABLES_LONG, MEMORY_LONG, Access(0, fc, false));
            !o.invalid && !o.protected && !o.supervisorOnly && o.resolved && o.out == frame * 32
  {
    hide W30.Loop, W30.Fetch, W30.Advance, W30.MayBeIndirect, W30.Width, W30.Update, Mark, W30.Start;
    var a, c := Access(0, fc, false), W30.Cursor(3, root, 12, 0, 0, false, false, 0);
    LongWidths();
    LongLevel(MEMORY_LONG, c, a, MEMORY_LONG[root], MEMORY_LONG[root + 4]);
    LongTurn(MEMORY_LONG, c, a);
    LongMarked(fc, root, table, frame);
    LongSecond(Mark(MEMORY_LONG, root, false), fc, root, table, frame);
  }

  lemma LongSecond(m: Memory, fc: nat, root: u32, table: u32, frame: int)
    requires table < 0x1_0000 && (frame == 0x280 || frame == 0x300)
    requires Read(m, table) == Longword(0, false, false, 1) && Read(m, table + 4) == Longword(frame, false, false, 0)
    ensures var c := W30.Cursor(3, table, 8, 11, 1, false, false, root);
            var o := W30.Loop(TABLES_LONG, m, c, Access(0, fc, false));
            !o.invalid && !o.protected && !o.supervisorOnly && o.resolved && o.out == frame * 32
  {
    hide W30.Fetch, W30.Advance, W30.MayBeIndirect, W30.Width, W30.Update, Mark, Shifts.BlockAddress;
    LongWidths();
    var c := W30.Cursor(3, table, 8, 11, 1, false, false, root);
    LongLevel(m, c, Access(0, fc, false), Read(m, table), Read(m, table + 4));
    LongTurn(m, c, Access(0, fc, false));
    LongPage(frame * 32);
  }

  lemma LongMarked(fc: nat, root: u32, table: u32, frame: int)
    requires (fc, root, table, frame) == (1, 0x1000, 0x2000, 0x280)
          || (fc, root, table, frame) == (5, 0x8000, 0x9000, 0x300)
    ensures Read(Mark(MEMORY_LONG, root, false), table) == MEMORY_LONG[table]
    ensures Read(Mark(MEMORY_LONG, root, false), table + 4) == MEMORY_LONG[table + 4]
  {
  }

  lemma LongPage(base: u32)
    requires base == 0x5000 || base == 0x6000
    ensures Shifts.BlockAddress(base, 0, 22, 10) == base
  {
    ZeroShift(22, 22);
    assert Pow2(10) == 0x400;
  }
}
