/** The variable-depth 68030 table walk: short and long descriptors, early termination pages and
    indirect descriptors, with the U/M write-backs in the order the emulator performs them. */
module Walk030 {
  import opened Words
  import opened Powers
  import opened Shifts
  import opened Descriptors

  /** Translation control and the two root pointers. */
  datatype Tables = Tables(tc: u32, crpAptr: Word, crpLimit: Word, srpAptr: Word, srpLimit: Word)

  const LEVEL_LIMIT: nat := 7

  // descriptor types
  const INVALID: int := 0
  const PAGE: int := 1
  const SHORT: int := 2
  const LONG: int := 3

  /** Where the walk is: the type and address of the table it reads next, the position of the index
      width in TC, the address bits consumed so far, the status gathered and the last descriptor's
      address. */
  datatype Cursor = Cursor(kind: int, table: u32, position: int, consumed: nat,
                           level: nat, protected: bool, supervisorOnly: bool, last: u32)

  /** `defined` is false where the walk would evaluate a C shift whose count is out of range. */
  datatype Outcome = Outcome(defined: bool, out: u32, memory: Memory, invalid: bool,
                             protected: bool, supervisorOnly: bool, level: nat, resolved: bool)

  // ---- translation control and descriptor fields ---------------------------------------------

  function PageShift(tc: u32): nat {
    tc / 0x100_0000 % 16
  }

  function InitialShift(tc: u32): nat {
    tc / 0x10_0000 % 16
  }

  predicate FunctionCodeLookup(tc: u32) {
    tc / 0x100_0000 % 2 == 1
  }

  predicate SeparateSupervisorRoot(tc: u32) {
    tc / 0x200_0000 % 2 == 1
  }

  /** Index width at bit `position` of the low half of TC. */
  function Width(tc: u32, position: int): (w: nat)
    ensures w < 16
  {
    match position
    case 12 => tc / 0x1000 % 16
    case 8 => tc / 0x100 % 16
    case 4 => tc / 0x10 % 16
    case 0 => tc % 16
    case _ => 0
  }

  /** The low half of TC has no bit at or above `position`. */
  predicate NoWidthFrom(tc: u32, position: int) {
    match position
    case 12 => tc % 0x1_0000 / 0x1000 == 0
    case 8 => tc % 0x1_0000 / 0x100 == 0
    case 4 => tc % 0x1_0000 / 0x10 == 0
    case _ => tc % 0x1_0000 == 0
  }

  predicate IsTable(kind: int) {
    kind == SHORT || kind == LONG
  }

  predicate SupervisorBit(e: Word) {
    UpperBit(e, 8)
  }

  /** The word without its low four bits. */
  function TableAddress(e: Word): u32 {
    e.upper * 32 + if e.modified then 16 else 0
  }

  // ---- one level -----------------------------------------------------------------------------

  /** A descriptor read at one level: its address, its first word, the address it holds, and the
      number of levels it took (two through an indirect descriptor). */
  datatype Fetched = Fetched(at: u32, word: Word, table: u32, levels: nat)

  function Second(p: u32): u32 {
    Wrap(p + 4)
  }

  function FetchShort(m: Memory, p: u32, indirect: bool): Fetched {
    var e := Read(m, p);
    if indirect && IsTable(Type(e)) then
      var q := Pointer(e);
      Fetched(q, Read(m, q), TableAddress(Read(m, q)), 2)
    else
      Fetched(p, e, TableAddress(e), 1)
  }

  function FetchLong(m: Memory, p: u32, indirect: bool): Fetched {
    var e := Read(m, p);
    if indirect && IsTable(Type(e)) then
      var q := Pointer(Read(m, Second(p)));
      Fetched(q, Read(m, q), TableAddress(Read(m, Second(q))), 2)
    else
      Fetched(p, e, TableAddress(Read(m, Second(p))), 1)
  }

  function Index(g: Tables, c: Cursor, a: Access): nat {
    if c.position == 16 then a.fc else Shr(Shl(a.addr, c.consumed), 32 - Width(g.tc, c.position))
  }

  predicate MayBeIndirect(g: Tables, position: int) {
    (position == 4 || NoWidthFrom(g.tc, position - 4)) && Width(g.tc, position) != 0
  }

  /** The address of the descriptor the walk reads at `c`. */
  function EntryAddress(g: Tables, c: Cursor, a: Access): u32 {
    Wrap(c.table + Index(g, c, a) * (if c.kind == SHORT then 4 else 8))
  }

  function Fetch(g: Tables, m: Memory, c: Cursor, a: Access): Fetched {
    if c.kind == SHORT then FetchShort(m, EntryAddress(g, c, a), MayBeIndirect(g, c.position))
    else FetchLong(m, EntryAddress(g, c, a), MayBeIndirect(g, c.position))
  }

  /** An access sets U in every valid descriptor, and a write M in a page it may write. */
  function Update(m: Memory, p: u32, e: Word, write: bool): Memory {
    if Type(e) == INVALID then m else Mark(m, p, Type(e) == PAGE && write && !Protected(e))
  }

  function Advance(g: Tables, c: Cursor, f: Fetched, a: Access): Cursor {
    var valid := Type(f.word) != INVALID;
    Cursor(Type(f.word), f.table, c.position - 4, c.consumed + Width(g.tc, c.position), c.level + f.levels,
           c.protected || (valid && Protected(f.word)),
           c.supervisorOnly || (valid && c.kind == LONG && UserAccess(a.fc) && SupervisorBit(f.word)),
           f.at)
  }

  predicate Stopped(c: Cursor, a: Access) {
    (a.write && c.protected) || (UserAccess(a.fc) && c.supervisorOnly)
  }

  /** The walk is about to shift by a count C gives no meaning to. */
  predicate OutOfRange(g: Tables, c: Cursor) {
    if c.kind == PAGE then c.consumed >= 32
    else c.position <= 0 || (c.position != 16 && Width(g.tc, c.position) == 0)
  }

  // ---- the walk ------------------------------------------------------------------------------

  function Loop(g: Tables, m: Memory, c: Cursor, a: Access): Outcome
    decreases c.position
  {
    if c.kind == INVALID then
      Outcome(true, c.last, m, true, false, false, c.level, true)
    else if OutOfRange(g, c) then
      Outcome(false, 0, m, false, false, false, c.level, false)
    else if c.kind == PAGE then
      Outcome(true, BlockAddress(c.table, a.addr, c.consumed, PageShift(g.tc)), m, false,
              c.protected, c.supervisorOnly, c.level, true)
    else
      var f := Fetch(g, m, c, a);
      var m' := Update(m, f.at, f.word, a.write);
      var c' := Advance(g, c, f, a);
      if Stopped(c', a) || c'.level >= LEVEL_LIMIT then
        Outcome(true, c'.last, m', false, c'.protected, c'.supervisorOnly, c'.level, Stopped(c', a))
      else
        Loop(g, m', c', a)
  }

  function RootKind(g: Tables, fc: nat): int {
    Type(if SeparateSupervisorRoot(g.tc) && !UserAccess(fc) then g.srpLimit else g.crpLimit)
  }

  function RootTable(g: Tables, fc: nat): u32 {
    TableAddress(if SeparateSupervisorRoot(g.tc) && !UserAccess(fc) then g.srpAptr else g.crpAptr)
  }

  function Start(g: Tables, fc: nat): Cursor {
    Cursor(RootKind(g, fc), RootTable(g, fc), if FunctionCodeLookup(g.tc) then 16 else 12, InitialShift(g.tc),
           0, false, false, 0)
  }

  function Walk(g: Tables, m: Memory, a: Access): Outcome {
    Loop(g, m, Start(g, a.fc), a)
  }

  /** The access ends in a bus error. */
  predicate Faults(o: Outcome, a: Access) {
    o.invalid || o.supervisorOnly || (o.protected && a.write)
  }

  // ---- one role per descriptor word ----------------------------------------------------------

  /** The bits consumed and the page offset fit in an address. */
  predicate Fits(g: Tables, consumed: nat) {
    consumed + PageShift(g.tc) <= 32
  }

  ghost predicate ShortRoles(ds: set<u32>, m: Memory, p: u32, indirect: bool) {
    if indirect && IsTable(Type(Read(m, p))) then p !in ds && Pointer(Read(m, p)) in ds else p in ds
  }

  ghost predicate LongRoles(ds: set<u32>, m: Memory, p: u32, indirect: bool) {
    && Second(p) !in ds
    && if indirect && IsTable(Type(Read(m, p)))
       then p !in ds && Pointer(Read(m, Second(p))) in ds && Second(Pointer(Read(m, Second(p)))) !in ds
       else p in ds
  }

  ghost predicate LevelRoles(g: Tables, ds: set<u32>, m: Memory, c: Cursor, a: Access) {
    if c.kind == SHORT then ShortRoles(ds, m, EntryAddress(g, c, a), MayBeIndirect(g, c.position))
    else LongRoles(ds, m, EntryAddress(g, c, a), MayBeIndirect(g, c.position))
  }

  /** From `c` on, the walk for `a` stays in range, its index widths and the page offset fit in 32
      bits, and it uses words of `ds` as (first words of) descriptors and words outside `ds` as
      indirect pointers and second words. */
  ghost predicate RolesFrom(g: Tables, ds: set<u32>, m: Memory, c: Cursor, a: Access)
    decreases c.position
  {
    c.kind != INVALID ==>
      && !OutOfRange(g, c) && Fits(g, c.consumed)
      && (c.kind != PAGE ==>
            && Fits(g, c.consumed + Width(g.tc, c.position))
            && LevelRoles(g, ds, m, c, a)
            && var f := Fetch(g, m, c, a);
               var c' := Advance(g, c, f, a);
               (!Stopped(c', a) && c'.level < LEVEL_LIMIT ==>
                  RolesFrom(g, ds, Update(m, f.at, f.word, a.write), c', a)))
  }

  ghost predicate Roles(g: Tables, ds: set<u32>, m: Memory, a: Access) {
    8 <= PageShift(g.tc) && RolesFrom(g, ds, m, Start(g, a.fc), a)
  }

  // ---- accesses to one page ------------------------------------------------------------------

  ghost predicate SamePage(g: Tables, a0: Access, a: Access) {
    a0.addr / Pow2(PageShift(g.tc)) == a.addr / Pow2(PageShift(g.tc)) && a0.fc == a.fc
  }

  /** The indices depend on the page and the function code only. */
  lemma SameIndex(g: Tables, c: Cursor, a0: Access, a: Access)
    requires SamePage(g, a0, a) && Fits(g, c.consumed + Width(g.tc, c.position))
    ensures Index(g, c, a0) == Index(g, c, a)
  {
    var k, w := PageShift(g.tc), Width(g.tc, c.position);
    FieldOfPage(a0.addr, k, c.consumed, 32 - w);
    FieldOfPage(a.addr, k, c.consumed, 32 - w);
  }

  /** The index is the next field of the address. */
  lemma IndexIsField(g: Tables, c: Cursor, a: Access)
    requires c.position != 16 && c.consumed + Width(g.tc, c.position) <= 32
    ensures var w := Width(g.tc, c.position);
            Index(g, c, a) == a.addr / Pow2(32 - c.consumed - w) % Pow2(w)
  {
    FieldOf(a.addr, c.consumed, 32 - Width(g.tc, c.position));
  }

  /** The page's aligned base plus the address bits the walk has not consumed. */
  lemma PageIsBase(g: Tables, m: Memory, c: Cursor, a: Access)
    requires c.kind == PAGE && c.consumed < 32
    ensures var k := PageShift(g.tc);
            Loop(g, m, c, a).out == Wrap(c.table / Pow2(k) * Pow2(k) + a.addr % Pow2(32 - c.consumed))
  {
    hide Fetch, Update, Advance, PageShift, Shl, Shr, Wrap, Pow2;
    BitsLeft(a.addr, c.consumed);
  }

  lemma BitsLeft(x: u32, s: nat)
    requires s <= 32
    ensures Shr(Shl(x, s), s) == x % Pow2(32 - s)
  {
    FieldOf(x, s, s);
    assert Pow2(0) == 1;
  }

  // ---- walking a memory that has grown -------------------------------------------------------

  /** Table addresses agree; of a page frame, the bits above the M bit do. */
  ghost predicate SameTable(kind: int, t0: u32, t: u32) {
    if kind == PAGE then t0 / 32 == t / 32 else t0 == t
  }

  ghost predicate SameCursor(c0: Cursor, c: Cursor) {
    SameTable(c0.kind, c0.table, c.table) && c == c0.(table := c.table)
  }

  ghost predicate SameFetched(f0: Fetched, f: Fetched) {
    && f.at == f0.at && f.levels == f0.levels
    && WordGrows(true, f0.word, f.word)
    && SameTable(Type(f0.word), f0.table, f.table)
  }

  lemma FetchAlike(g: Tables, ds: set<u32>, m: Memory, m': Memory, c0: Cursor, c: Cursor, a0: Access, a: Access)
    requires c0.kind != PAGE && LevelRoles(g, ds, m, c0, a0) && SameCursor(c0, c)
    requires Fits(g, c0.consumed + Width(g.tc, c0.position))
    requires Grows(true, ds, m, m') && SamePage(g, a0, a)
    ensures LevelRoles(g, ds, m', c, a)
    ensures SameFetched(Fetch(g, m, c0, a0), Fetch(g, m', c, a)) && Fetch(g, m, c0, a0).at in ds
  {
    hide Pointer, MayBeIndirect, Fits, SamePage, Index, Grows;
    SameIndex(g, c0, a0, a);
    assert Index(g, c, a) == Index(g, c0, a) by {
      assert c == c0;
    }
    EntryAlike(ds, m, m', EntryAddress(g, c0, a0), c0.kind == SHORT, MayBeIndirect(g, c0.position));
  }

  lemma EntryAlike(ds: set<u32>, m: Memory, m': Memory, p: u32, short: bool, indirect: bool)
    requires Grows(true, ds, m, m')
    requires if short then ShortRoles(ds, m, p, indirect) else LongRoles(ds, m, p, indirect)
    ensures if short then ShortRoles(ds, m', p, indirect) else LongRoles(ds, m', p, indirect)
    ensures var f0 := if short then FetchShort(m, p, indirect) else FetchLong(m, p, indirect);
            var f := if short then FetchShort(m', p, indirect) else FetchLong(m', p, indirect);
            SameFetched(f0, f) && f0.at in ds
  {
    hide Pointer;
    var q := if short then Pointer(Read(m, p)) else Pointer(Read(m, Second(p)));
    assert p in ds ==> WordGrows(true, Read(m, p), Read(m', p));
    assert q in ds ==> WordGrows(true, Read(m, q), Read(m', q));
    assert p !in ds ==> Read(m', p) == Read(m, p);
    assert !short ==> Read(m', Second(p)) == Read(m, Second(p));
    assert Second(q) !in ds ==> Read(m', Second(q)) == Read(m, Second(q));
  }

  /** `a` repeats `a0`, or reads where `a0` wrote and was not stopped by write protection alone, or
      both are mapped by the root pointer itself. */
  ghost predicate Repeats(c: Cursor, o0: Outcome, a0: Access, a: Access) {
    a.write == a0.write || (a0.write && (!o0.protected || o0.supervisorOnly)) || (c.kind == PAGE && !c.protected)
  }

  /** `o` makes the fault decision of `o0` with the same status, and on success gives the same page
      with the offset of `a`. */
  ghost predicate Alike(g: Tables, o0: Outcome, a0: Access, o: Outcome, a: Access) {
    && o0.defined && o.defined
    && o.resolved == o0.resolved && o.level == o0.level && o.invalid == o0.invalid
    && o.protected == o0.protected && o.supervisorOnly == o0.supervisorOnly
    && Faults(o, a) == Faults(o0, a0)
    && (o.resolved && !Faults(o, a) ==>
          && o.out / Pow2(PageShift(g.tc)) == o0.out / Pow2(PageShift(g.tc))
          && o.out % Pow2(PageShift(g.tc)) == a.addr % Pow2(PageShift(g.tc)))
  }

  /** The fields of a descriptor the walk looks at, its page frame aside, do not change with U and M. */
  lemma AdvanceAlike(g: Tables, c: Cursor, f0: Fetched, f: Fetched, a0: Access, a: Access)
    requires SameFetched(f0, f) && UserAccess(a0.fc) == UserAccess(a.fc)
    ensures SameCursor(Advance(g, c, f0, a0), Advance(g, c, f, a))
  {
    hide UserAccess, SupervisorBit;
    assert SupervisorBit(f0.word) == SupervisorBit(f.word) by {
      SameSupervisorBit(f0.word, f.word);
    }
  }

  lemma SameSupervisorBit(e0: Word, e: Word)
    requires e0.upper == e.upper
    ensures SupervisorBit(e0) == SupervisorBit(e)
  {
  }

  lemma UpdateGrows(ds: set<u32>, m: Memory, p: u32, write: bool)
    requires p in ds
    ensures Grows(true, ds, m, Update(m, p, Read(m, p), write))
  {
    GrowsRefl(true, ds, m);
    MarkGrows(true, ds, m, p, Type(Read(m, p)) == PAGE && write && !Protected(Read(m, p)));
  }

  lemma FetchedWord(g: Tables, m: Memory, c: Cursor, a: Access)
    ensures Fetch(g, m, c, a).word == Read(m, Fetch(g, m, c, a).at)
  {
  }

  /** Grown memories stay in step through an update, up to the final page descriptor. */
  lemma UpdateAlike(ds: set<u32>, m: Memory, m': Memory, p: u32, write0: bool, write: bool)
    requires p in ds && Grows(true, ds, m, m')
    requires write == write0 || Type(Read(m, p)) != PAGE
    ensures Grows(true, ds, Update(m, p, Read(m, p), write0), Update(m', p, Read(m', p), write))
  {
    assert WordGrows(true, Read(m, p), Read(m', p));
    MarkMonotone(true, ds, m, m', p, Type(Read(m, p)) == PAGE && write0 && !Protected(Read(m, p)));
  }

  lemma PageAlike(g: Tables, c0: Cursor, c: Cursor, a0: Access, a: Access)
    requires c0.kind == PAGE && SameCursor(c0, c) && SamePage(g, a0, a)
    requires 8 <= PageShift(g.tc) && Fits(g, c0.consumed)
    ensures var k := PageShift(g.tc);
            var o0, o := BlockAddress(c0.table, a0.addr, c0.consumed, k), BlockAddress(c.table, a.addr, c.consumed, k);
            o / Pow2(k) == o0 / Pow2(k) && o % Pow2(k) == a.addr % Pow2(k)
  {
    hide BlockAddress;
    var k := PageShift(g.tc);
    BlockAddressParts(c0.table, a0.addr, c0.consumed, k);
    BlockAddressParts(c.table, a.addr, c.consumed, k);
    Pow2Add(5, k - 5);
    assert Pow2(5) == 32;
    DivDiv(c0.table, 32, Pow2(k - 5));
    DivDiv(c.table, 32, Pow2(k - 5));
  }

  // ---- the whole walk ------------------------------------------------------------------------

  /** A walk of a grown memory takes the same path to the same page and the same fault decision. */
  lemma {:induction false} LoopAlike(g: Tables, ds: set<u32>, m: Memory, m': Memory, c0: Cursor, c: Cursor,
          a0: Access, a: Access)
    requires 8 <= PageShift(g.tc) && RolesFrom(g, ds, m, c0, a0)
    requires c0.supervisorOnly ==> UserAccess(a0.fc)
    requires SameCursor(c0, c) && SamePage(g, a0, a) && Repeats(c0, Loop(g, m, c0, a0), a0, a)
    requires c0.kind == PAGE || Grows(true, ds, m, m')
    ensures RolesFrom(g, ds, m', c, a)
    ensures Alike(g, Loop(g, m, c0, a0), a0, Loop(g, m', c, a), a)
    decreases c0.position
  {
    hide Grows, UserAccess, Fetch, Advance, Update, LevelRoles, Index, BlockAddress, Width, PageShift, WordGrows;
    if c0.kind == INVALID {
    } else if c0.kind == PAGE {
      PageAlike(g, c0, c, a0, a);
    } else {
      FetchAlike(g, ds, m, m', c0, c, a0, a);
      var f0, f := Fetch(g, m, c0, a0), Fetch(g, m', c, a);
      AdvanceAlike(g, c0, f0, f, a0, a);
      var d0, d := Advance(g, c0, f0, a0), Advance(g, c, f, a);
      Advanced(g, c0, f0, a0);
      FetchedWord(g, m, c0, a0);
      FetchedWord(g, m', c, a);
      var n, n' := Update(m, f0.at, f0.word, a0.write), Update(m', f.at, f.word, a.write);
      if d0.kind != PAGE || a0.write == a.write {
        UpdateAlike(ds, m, m', f0.at, a0.write, a.write);
      }
      if !Stopped(d0, a0) && d0.level < LEVEL_LIMIT {
        LoopAlike(g, ds, n, n', d0, d, a0, a);
      }
    }
  }

  lemma Advanced(g: Tables, c: Cursor, f: Fetched, a: Access)
    ensures Advance(g, c, f, a).position == c.position - 4
    ensures Advance(g, c, f, a).kind == Type(f.word)
    ensures Advance(g, c, f, a).last == f.at
    ensures (c.supervisorOnly ==> UserAccess(a.fc)) ==> Advance(g, c, f, a).supervisorOnly ==> UserAccess(a.fc)
  {
  }

  /** A walk changes memory only by setting U and M in the descriptors it visits. */
  lemma {:induction false} LoopGrows(g: Tables, ds: set<u32>, m: Memory, c: Cursor, a: Access)
    requires RolesFrom(g, ds, m, c, a)
    ensures Grows(true, ds, m, Loop(g, m, c, a).memory)
    decreases c.position
  {
    hide Grows, UserAccess, Fetch, Advance, Update, Index, BlockAddress, Width, PageShift, WordGrows;
    GrowsRefl(true, ds, m);
    if c.kind != INVALID && c.kind != PAGE {
      var f := Fetch(g, m, c, a);
      var n, d := Update(m, f.at, f.word, a.write), Advance(g, c, f, a);
      Advanced(g, c, f, a);
      FetchedWord(g, m, c, a);
      FetchedRole(g, ds, m, c, a);
      UpdateGrows(ds, m, f.at, a.write);
      if !Stopped(d, a) && d.level < LEVEL_LIMIT {
        LoopGrows(g, ds, n, d, a);
        GrowsTrans(true, ds, m, n, Loop(g, n, d, a).memory);
      }
    }
  }

  lemma FetchedRole(g: Tables, ds: set<u32>, m: Memory, c: Cursor, a: Access)
    requires LevelRoles(g, ds, m, c, a)
    ensures Fetch(g, m, c, a).at in ds
  {
  }

  lemma UpdateTwice(ds: set<u32>, m: Memory, m': Memory, p: u32, write0: bool, write: bool)
    requires p in ds && Grows(true, ds, m, m')
    requires Grows(true, ds, Update(m, p, Read(m, p), write0), m')
    requires write ==> write0 || Type(Read(m, p)) != PAGE
    ensures Update(m', p, Read(m', p), write) == m'
  {
    assert WordGrows(true, Read(m, p), Read(m', p));
    var e := Read(m, p);
    if Type(e) != INVALID {
      MarkTwice(true, ds, m, m', p, Type(e) == PAGE && write0 && !Protected(e),
                Type(e) == PAGE && write && !Protected(e));
    }
  }

  /** Once a walk has been done, walking to the same page again writes nothing, whatever other walks
      have added to memory in between. */
  lemma {:induction false} LoopQuiet(g: Tables, ds: set<u32>, m: Memory, m': Memory, c0: Cursor, c: Cursor,
          a0: Access, a: Access)
    requires 8 <= PageShift(g.tc) && RolesFrom(g, ds, m, c0, a0)
    requires c0.supervisorOnly ==> UserAccess(a0.fc)
    requires SameCursor(c0, c) && SamePage(g, a0, a) && Repeats(c0, Loop(g, m, c0, a0), a0, a)
    requires Grows(true, ds, Loop(g, m, c0, a0).memory, m')
    ensures Loop(g, m', c, a).memory == m'
    decreases c0.position
  {
    hide Grows, UserAccess, Fetch, Advance, Update, LevelRoles, Index, BlockAddress, Width, PageShift, WordGrows;
    if c0.kind != INVALID && c0.kind != PAGE {
      var done := Loop(g, m, c0, a0).memory;
      LoopGrows(g, ds, m, c0, a0);
      GrowsTrans(true, ds, m, done, m');
      FetchAlike(g, ds, m, m', c0, c, a0, a);
      var f0, f := Fetch(g, m, c0, a0), Fetch(g, m', c, a);
      AdvanceAlike(g, c0, f0, f, a0, a);
      var d0, d := Advance(g, c0, f0, a0), Advance(g, c, f, a);
      Advanced(g, c0, f0, a0);
      FetchedWord(g, m, c0, a0);
      FetchedWord(g, m', c, a);
      var n := Update(m, f0.at, f0.word, a0.write);
      if !Stopped(d0, a0) && d0.level < LEVEL_LIMIT {
        LoopGrows(g, ds, n, d0, a0);
        GrowsTrans(true, ds, n, done, m');
        UpdateTwice(ds, m, m', f0.at, a0.write, a.write);
        LoopQuiet(g, ds, n, m', d0, d, a0, a);
      } else {
        UpdateTwice(ds, m, m', f0.at, a0.write, a.write);
      }
    }
  }

  // ---- the level bound -----------------------------------------------------------------------

  /** Levels a walk may have used when its next index width is at `position`. */
  function LevelsBefore(position: int): int {
    match position
    case 16 => 0
    case 12 => 1
    case 8 => 2
    case 4 => 3
    case _ => 5
  }

  /** Only the third index level follows indirect descriptors, whether or not it is the last one in use. */
  lemma IndirectAtThird(g: Tables, position: int)
    requires position == 16 || position == 12 || position == 8 || position == 4
    ensures MayBeIndirect(g, position) <==> position == 4 && Width(g.tc, 4) != 0
  {
    if position == 12 {
      ModParts(g.tc, 0x1000, 16);
    } else if position == 8 && NoWidthFrom(g.tc, 4) {
      ModParts(g.tc, 0x100, 0x100);
      ZeroNibble(g.tc / 0x100);
    }
  }

  lemma ZeroNibble(n: int)
    requires n % 0x100 == 0
    ensures n % 16 == 0
  {
  }

  /** So in a tree of one or two index levels an indirect descriptor at the last level is taken for a table, and
      the walk goes on to shift by a count C gives no meaning to. */
  lemma ShortTreeLosesIndirect(g: Tables, m: Memory, c: Cursor, a: Access)
    requires IsTable(c.kind) && !OutOfRange(g, c) && (c.position == 12 || c.position == 8)
    requires Width(g.tc, c.position - 4) == 0
    requires var f := Fetch(g, m, c, a);
             && IsTable(Type(Read(m, EntryAddress(g, c, a))))
             && !Stopped(Advance(g, c, f, a), a) && c.level + 1 < LEVEL_LIMIT
    ensures Fetch(g, m, c, a).at == EntryAddress(g, c, a)
    ensures !Loop(g, m, c, a).defined
  {
    hide Width, Stopped, Update, EntryAddress, Pointer, TableAddress, MayBeIndirect;
    IndirectAtThird(g, c.position);
  }

  /** A walk in range ends in a page, an invalid descriptor or a violation within five descriptor
      reads, so the limit of seven never cuts it short. */
  lemma {:induction false} LoopResolves(g: Tables, m: Memory, c: Cursor, a: Access)
    requires Loop(g, m, c, a).defined
    requires c.position in {16, 12, 8, 4, 0} && c.level <= LevelsBefore(c.position)
    ensures Loop(g, m, c, a).resolved && Loop(g, m, c, a).level <= 5
    decreases c.position
  {
    hide UserAccess, Update, Index, BlockAddress, Width, PageShift, MayBeIndirect;
    if c.kind != INVALID && c.kind != PAGE {
      IndirectAtThird(g, c.position);
      var f := Fetch(g, m, c, a);
      var n, d := Update(m, f.at, f.word, a.write), Advance(g, c, f, a);
      if !Stopped(d, a) && d.level < LEVEL_LIMIT {
        LoopResolves(g, n, d, a);
      }
    }
  }

  // ---- from the root -------------------------------------------------------------------------

  lemma WalkAlike(g: Tables, ds: set<u32>, m: Memory, m': Memory, a0: Access, a: Access)
    requires Roles(g, ds, m, a0) && Grows(true, ds, m, m')
    requires SamePage(g, a0, a) && Repeats(Start(g, a0.fc), Walk(g, m, a0), a0, a)
    ensures Roles(g, ds, m', a)
    ensures Alike(g, Walk(g, m, a0), a0, Walk(g, m', a), a)
  {
    hide Loop, RolesFrom, Alike, Grows;
    LoopAlike(g, ds, m, m', Start(g, a0.fc), Start(g, a.fc), a0, a);
  }

  lemma WalkGrows(g: Tables, ds: set<u32>, m: Memory, a: Access)
    requires Roles(g, ds, m, a)
    ensures Grows(true, ds, m, Walk(g, m, a).memory)
  {
    hide Loop, RolesFrom, Grows;
    LoopGrows(g, ds, m, Start(g, a.fc), a);
  }

  lemma WalkQuiet(g: Tables, ds: set<u32>, m: Memory, m': Memory, a0: Access, a: Access)
    requires Roles(g, ds, m, a0) && Grows(true, ds, Walk(g, m, a0).memory, m')
    requires SamePage(g, a0, a) && Repeats(Start(g, a0.fc), Walk(g, m, a0), a0, a)
    ensures Walk(g, m', a).memory == m'
  {
    hide Loop, RolesFrom, Grows;
    LoopQuiet(g, ds, m, m', Start(g, a0.fc), Start(g, a.fc), a0, a);
  }

  lemma WalkResolves(g: Tables, m: Memory, a: Access)
    requires Walk(g, m, a).defined
    ensures Walk(g, m, a).resolved && Walk(g, m, a).level <= 5
  {
    hide Loop;
    LoopResolves(g, m, Start(g, a.fc), a);
  }

  /** More marks before a walk mean more marks after it, and a walk that is
      stopped is stopped at the same descriptor. */
  lemma {:induction false} LoopMonotone(g: Tables, ds: set<u32>, m: Memory, m': Memory, c0: Cursor, c: Cursor,
          a: Access)
    requires 8 <= PageShift(g.tc) && RolesFrom(g, ds, m, c0, a)
    requires c0.supervisorOnly ==> UserAccess(a.fc)
    requires SameCursor(c0, c) && Grows(true, ds, m, m')
    ensures Grows(true, ds, Loop(g, m, c0, a).memory, Loop(g, m', c, a).memory)
    ensures var o := Loop(g, m, c0, a);
            a.write && o.protected && !(a.write && c0.protected) ==> Loop(g, m', c, a).out == o.out
    decreases c0.position
  {
    hide Grows, UserAccess, Fetch, Advance, Update, LevelRoles, Index, BlockAddress, Width, PageShift, WordGrows, Fits;
    if c0.kind != INVALID && c0.kind != PAGE {
      SamePageSelf(g, a);
      FetchAlike(g, ds, m, m', c0, c, a, a);
      var f0, f := Fetch(g, m, c0, a), Fetch(g, m', c, a);
      AdvanceAlike(g, c0, f0, f, a, a);
      var d0, d := Advance(g, c0, f0, a), Advance(g, c, f, a);
      Advanced(g, c0, f0, a);
      FetchedWord(g, m, c0, a);
      FetchedWord(g, m', c, a);
      var n, n' := Update(m, f0.at, f0.word, a.write), Update(m', f.at, f.word, a.write);
      UpdateAlike(ds, m, m', f0.at, a.write, a.write);
      if !Stopped(d0, a) && d0.level < LEVEL_LIMIT {
        LoopMonotone(g, ds, n, n', d0, d, a);
      }
    }
  }

  lemma SamePageSelf(g: Tables, a: Access)
    ensures SamePage(g, a, a)
  {
  }

  lemma WalkMonotone(g: Tables, ds: set<u32>, m: Memory, m': Memory, a: Access)
    requires Roles(g, ds, m, a) && Grows(true, ds, m, m')
    ensures Grows(true, ds, Walk(g, m, a).memory, Walk(g, m', a).memory)
    ensures a.write && Walk(g, m, a).protected ==> Walk(g, m', a).out == Walk(g, m, a).out
  {
    hide Loop, RolesFrom, Grows;
    LoopMonotone(g, ds, m, m', Start(g, a.fc), Start(g, a.fc), a);
  }

  /** No descriptor is write protected. */
  ghost predicate NoneProtected(ds: set<u32>, m: Memory) {
    forall p: u32 :: p in ds ==> !Protected(Read(m, p))
  }

  lemma NoneProtectedGrows(ds: set<u32>, m: Memory, m': Memory)
    requires NoneProtected(ds, m) && Grows(true, ds, m, m')
    ensures NoneProtected(ds, m')
  {
    forall p: u32 | p in ds ensures !Protected(Read(m', p)) {
      assert WordGrows(true, Read(m, p), Read(m', p));
    }
  }

  lemma {:induction false} LoopUnprotected(g: Tables, ds: set<u32>, m: Memory, c: Cursor, a: Access)
    requires RolesFrom(g, ds, m, c, a) && NoneProtected(ds, m) && !c.protected
    ensures !Loop(g, m, c, a).protected
    decreases c.position
  {
    hide Grows, UserAccess, Fetch, Update, Index, BlockAddress, Width, PageShift, LevelRoles, SupervisorBit, Fits;
    if c.kind != INVALID && c.kind != PAGE {
      var f := Fetch(g, m, c, a);
      var n, d := Update(m, f.at, f.word, a.write), Advance(g, c, f, a);
      FetchedWord(g, m, c, a);
      FetchedRole(g, ds, m, c, a);
      UpdateGrows(ds, m, f.at, a.write);
      NoneProtectedGrows(ds, m, n);
      if !Stopped(d, a) && d.level < LEVEL_LIMIT {
        LoopUnprotected(g, ds, n, d, a);
      }
    }
  }

  lemma WalkDefined(g: Tables, ds: set<u32>, m: Memory, a: Access)
    requires Roles(g, ds, m, a)
    ensures Walk(g, m, a).defined
  {
    hide Loop, RolesFrom, Grows;
    GrowsRefl(true, ds, m);
    SamePageSelf(g, a);
    WalkAlike(g, ds, m, m, a, a);
  }

  /** Reaching an invalid descriptor clears the protection status. */
  lemma {:induction false} InvalidIsAlone(g: Tables, m: Memory, c: Cursor, a: Access)
    ensures Loop(g, m, c, a).invalid ==> !Loop(g, m, c, a).protected && !Loop(g, m, c, a).supervisorOnly
    decreases c.position
  {
    hide Fetch, Update, Advance, BlockAddress, Stopped;
    if c.kind != INVALID && c.kind != PAGE && !OutOfRange(g, c) {
      var f := Fetch(g, m, c, a);
      var d := Advance(g, c, f, a);
      Advanced(g, c, f, a);
      if !Stopped(d, a) && d.level < LEVEL_LIMIT {
        InvalidIsAlone(g, Update(m, f.at, f.word, a.write), d, a);
      }
    }
  }

  /** One turn of the level loop. */
  lemma LoopStep(g: Tables, m: Memory, c: Cursor, a: Access)
    requires Loop(g, m, c, a).defined
    ensures c.kind == INVALID ==> Loop(g, m, c, a) == Outcome(true, c.last, m, true, false, false, c.level, true)
    ensures c.kind == PAGE ==>
              Loop(g, m, c, a) == Outcome(true, BlockAddress(c.table, a.addr, c.consumed, PageShift(g.tc)), m, false,
                                          c.protected, c.supervisorOnly, c.level, true)
    ensures c.kind != INVALID && c.kind != PAGE ==>
              && c.position > 0
              && var f := Fetch(g, m, c, a);
                 var m', c' := Update(m, f.at, f.word, a.write), Advance(g, c, f, a);
                 Loop(g, m, c, a) ==
                   if Stopped(c', a) || c'.level >= LEVEL_LIMIT
                   then Outcome(true, c'.last, m', false, c'.protected, c'.supervisorOnly, c'.level, Stopped(c', a))
                   else Loop(g, m', c', a)
  {
    hide Fetch, Update, Advance, BlockAddress, Stopped;
  }
}
