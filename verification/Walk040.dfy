/** The three-level 68040 table walk: root, pointer and page tables, the indirect page pointers,
    and the U/M write-backs, in the order the emulator performs them. */
module Walk040 {
  import opened Words
  import opened Descriptors

  /** `large` is the 8K page bit of TC. */
  datatype Tables = Tables(large: bool, urp: u32, srp: u32)

  /** `page` is the resident page descriptor as written back; None when the walk ends in a bus error. */
  datatype Outcome = Outcome(out: u32, fault: bool, memory: Memory, page: Option<Word>)

  const INDIRECT_LIMIT: nat := 4

  // ---- address and descriptor fields ---------------------------------------------------------

  function PageSize(large: bool): int {
    if large then 0x2000 else 0x1000
  }

  function RootSlot(g: Tables, a: Access): u32 {
    Wrap((if UserAccess(a.fc) then g.urp else g.srp) + a.addr / 0x200_0000 * 4)
  }

  function PointerSlot(root: Word, addr: u32): u32 {
    root.upper / 16 * 512 + addr / 0x4_0000 % 128 * 4
  }

  function PageSlot(large: bool, pointer: Word, addr: u32): u32 {
    if large then pointer.upper / 4 * 128 + addr / 0x2000 % 32 * 4
    else pointer.upper / 8 * 256 + addr / 0x1000 % 64 * 4
  }

  predicate TableValid(e: Word) {
    e.low / 2 % 2 == 1
  }

  predicate Indirect(e: Word) {
    Type(e) == 2
  }

  predicate Resident(e: Word) {
    Type(e) == 1 || Type(e) == 3
  }

  predicate SupervisorOnly(e: Word) {
    UpperBit(e, 4)
  }

  lemma FrameFits(n: int)
    requires 0 <= n < 0x800_0000
    ensures 0 <= n / 256 < 0x8_0000 && 0 <= n / 128 < 0x10_0000
  {
  }

  /** The physical address: the page frame with the page offset of `addr`. */
  function Physical(large: bool, e: Word, addr: u32): u32 {
    FrameFits(e.upper);
    if large then e.upper / 256 * 0x2000 + addr % 0x2000 else e.upper / 128 * 0x1000 + addr % 0x1000
  }

  // ---- the walk ------------------------------------------------------------------------------

  predicate Denied(e: Word, a: Access) {
    (Protected(e) && a.write) || (SupervisorOnly(e) && UserAccess(a.fc))
  }

  function BusError(a: Access, m: Memory): Outcome {
    Outcome(a.addr, true, m, None)
  }

  /** Where the chain of at most four indirect pointers from `p` ends. */
  function Resolve(m: Memory, p: u32, depth: nat): u32
    decreases INDIRECT_LIMIT - depth
  {
    if Indirect(Read(m, p)) && depth < INDIRECT_LIMIT then Resolve(m, Pointer(Read(m, p)), depth + 1) else p
  }

  function Leaf(g: Tables, m: Memory, p: u32, a: Access): Outcome {
    var e := Read(m, p);
    if Denied(e, a) || !Resident(e) then BusError(a, m)
    else Outcome(Physical(g.large, e, a.addr), false, Mark(m, p, a.write), Some(Marked(e, a.write)))
  }

  function PointerLevel(g: Tables, m: Memory, p: u32, protected: bool, a: Access): Outcome {
    var e := Read(m, p);
    var m' := Mark(m, p, false);
    if a.write && (protected || Protected(e)) then BusError(a, m')
    else if !TableValid(e) then BusError(a, m')
    else Leaf(g, m', Resolve(m', PageSlot(g.large, e, a.addr), 0), a)
  }

  function Walk(g: Tables, m: Memory, a: Access): Outcome {
    var p := RootSlot(g, a);
    var e := Read(m, p);
    if !TableValid(e) then BusError(a, m)
    else PointerLevel(g, Mark(m, p, false), PointerSlot(e, a.addr), Protected(e), a)
  }

  // ---- one role per descriptor word ----------------------------------------------------------

  ghost predicate PageRoles(ds: set<u32>, m: Memory, p: u32, depth: nat)
    decreases INDIRECT_LIMIT - depth
  {
    if Indirect(Read(m, p)) && depth < INDIRECT_LIMIT
    then p !in ds && PageRoles(ds, m, Pointer(Read(m, p)), depth + 1)
    else Indirect(Read(m, p)) || p in ds
  }

  ghost predicate PointerRoles(g: Tables, ds: set<u32>, m: Memory, p: u32, a: Access) {
    p in ds &&
    (TableValid(Read(m, p)) ==> PageRoles(ds, Mark(m, p, false), PageSlot(g.large, Read(m, p), a.addr), 0))
  }

  /** The walk for `a` uses words of `ds` as table and page descriptors, and words outside `ds` as
      indirect pointers. */
  ghost predicate Roles(g: Tables, ds: set<u32>, m: Memory, a: Access) {
    RootSlot(g, a) in ds &&
    (TableValid(Read(m, RootSlot(g, a))) ==>
       PointerRoles(g, ds, Mark(m, RootSlot(g, a), false), PointerSlot(Read(m, RootSlot(g, a)), a.addr), a))
  }

  // ---- accesses to one page ------------------------------------------------------------------

  /** Same page, same privilege. */
  ghost predicate SamePage(g: Tables, a0: Access, a: Access) {
    a0.addr / PageSize(g.large) == a.addr / PageSize(g.large) && UserAccess(a0.fc) == UserAccess(a.fc)
  }

  /** The table indices depend on the page only. */
  lemma SameSlots(g: Tables, a0: Access, a: Access)
    requires SamePage(g, a0, a)
    ensures RootSlot(g, a0) == RootSlot(g, a)
    ensures forall e: Word :: PointerSlot(e, a0.addr) == PointerSlot(e, a.addr)
    ensures forall e: Word :: PageSlot(g.large, e, a0.addr) == PageSlot(g.large, e, a.addr)
  {
    hide UserAccess;
    if g.large {
      IndicesOfPage(a0.addr, 0x2000, 32, 4096);
      IndicesOfPage(a.addr, 0x2000, 32, 4096);
    } else {
      IndicesOfPage(a0.addr, 0x1000, 64, 8192);
      IndicesOfPage(a.addr, 0x1000, 64, 8192);
    }
  }

  lemma IndicesOfPage(addr: u32, size: int, toPointer: int, toRoot: int)
    requires (size, toPointer, toRoot) == (0x2000, 32, 4096) || (size, toPointer, toRoot) == (0x1000, 64, 8192)
    ensures addr / 0x4_0000 == addr / size / toPointer
    ensures addr / 0x200_0000 == addr / size / toRoot
  {
  }

  // ---- walking a memory that has grown -------------------------------------------------------

  lemma ResolveAlike(ds: set<u32>, m: Memory, m': Memory, p: u32, depth: nat)
    requires Grows(false, ds, m, m') && PageRoles(ds, m, p, depth)
    ensures PageRoles(ds, m', p, depth) && Resolve(m', p, depth) == Resolve(m, p, depth)
    decreases INDIRECT_LIMIT - depth
  {
    hide Pointer;
    assert p in ds ==> WordGrows(false, Read(m, p), Read(m', p));
  }

  /** The word the chain of indirect pointers ends at may be written, unless the chain was too long. */
  lemma ResolvedRole(ds: set<u32>, m: Memory, p: u32, depth: nat)
    requires PageRoles(ds, m, p, depth) && depth <= INDIRECT_LIMIT
    ensures Indirect(Read(m, Resolve(m, p, depth))) || Resolve(m, p, depth) in ds
    decreases INDIRECT_LIMIT - depth
  {
    hide Pointer;
  }

  /** `o`, an outcome for access `a`, gives the fault decision of `o0`, and on success the same page
      descriptor (up to U and M) with the offset of `a`. */
  ghost predicate Alike(g: Tables, o0: Outcome, o: Outcome, a: Access) {
    && o.fault == o0.fault
    && (o.fault ==> o.page == None && o.out == a.addr)
    && (!o.fault ==>
          && o0.page.Some? && o.page.Some?
          && o.page.value.upper == o0.page.value.upper && o.page.value.low == o0.page.value.low
          && o.out == Physical(g.large, o0.page.value, a.addr))
  }

  /** `a` repeats `a0`, or reads where `a0` wrote without a fault. */
  ghost predicate Repeats(o0: Outcome, a0: Access, a: Access) {
    a.write == a0.write || (a0.write && !o0.fault)
  }

  lemma LeafAlike(g: Tables, ds: set<u32>, m: Memory, m': Memory, p: u32, a0: Access, a: Access)
    requires Indirect(Read(m, p)) || p in ds
    requires Grows(false, ds, m, m') && SamePage(g, a0, a) && Repeats(Leaf(g, m, p, a0), a0, a)
    ensures Alike(g, Leaf(g, m, p, a0), Leaf(g, m', p, a), a)
  {
    hide PageSize, UserAccess;
    assert p in ds ==> WordGrows(false, Read(m, p), Read(m', p));
  }

  lemma LeafGrows(g: Tables, ds: set<u32>, m: Memory, p: u32, a: Access)
    requires Indirect(Read(m, p)) || p in ds
    ensures Grows(false, ds, m, Leaf(g, m, p, a).memory)
  {
    GrowsRefl(false, ds, m);
    if p in ds {
      MarkGrows(false, ds, m, p, a.write);
    }
  }

  /** Walking again from a memory with all the bits the first walk set writes nothing. */
  lemma LeafQuiet(g: Tables, ds: set<u32>, m: Memory, m': Memory, p: u32, a0: Access, a: Access)
    requires Indirect(Read(m, p)) || p in ds
    requires Grows(false, ds, Leaf(g, m, p, a0).memory, m') && SamePage(g, a0, a)
    requires Repeats(Leaf(g, m, p, a0), a0, a)
    ensures Leaf(g, m', p, a).memory == m'
  {
    hide PageSize, UserAccess;
    LeafGrows(g, ds, m, p, a0);
    GrowsTrans(false, ds, m, Leaf(g, m, p, a0).memory, m');
    LeafAlike(g, ds, m, m', p, a0, a);
    if !Leaf(g, m, p, a0).fault {
      MarkTwice(false, ds, m, m', p, a0.write, a.write);
    }
  }

  // ---- the pointer level ---------------------------------------------------------------------

  lemma PointerAlike(g: Tables, ds: set<u32>, m: Memory, m': Memory, p: u32, protected: bool, a0: Access, a: Access)
    requires PointerRoles(g, ds, m, p, a0) && Grows(false, ds, m, m') && SamePage(g, a0, a)
    requires Repeats(PointerLevel(g, m, p, protected, a0), a0, a)
    ensures PointerRoles(g, ds, m', p, a)
    ensures Alike(g, PointerLevel(g, m, p, protected, a0), PointerLevel(g, m', p, protected, a), a)
  {
    hide Grows, Leaf, PageSlot, SamePage, PageRoles, Resolve;
    var e, e' := Read(m, p), Read(m', p);
    WordOf(ds, m, m', p);
    var n, n' := Mark(m, p, false), Mark(m', p, false);
    MarkMonotone(false, ds, m, m', p, false);
    if TableValid(e) {
      SameSlots(g, a0, a);
      SamePageSlot(g.large, e, e', a.addr);
      var q := PageSlot(g.large, e, a0.addr);
      ResolveAlike(ds, n, n', q, 0);
      ResolvedRole(ds, n, q, 0);
      if !(a0.write && (protected || Protected(e))) {
        LeafAlike(g, ds, n, n', Resolve(n, q, 0), a0, a);
      }
    }
  }

  lemma WordOf(ds: set<u32>, m: Memory, m': Memory, p: u32)
    requires p in ds && Grows(false, ds, m, m')
    ensures WordGrows(false, Read(m, p), Read(m', p))
  {
  }

  lemma SamePageSlot(large: bool, e: Word, e': Word, addr: u32)
    requires e.upper == e'.upper
    ensures PageSlot(large, e, addr) == PageSlot(large, e', addr)
    ensures PointerSlot(e, addr) == PointerSlot(e', addr)
  {
  }

  lemma PointerGrows(g: Tables, ds: set<u32>, m: Memory, p: u32, protected: bool, a: Access)
    requires PointerRoles(g, ds, m, p, a)
    ensures Grows(false, ds, m, Mark(m, p, false))
    ensures Grows(false, ds, Mark(m, p, false), PointerLevel(g, m, p, protected, a).memory)
    ensures Grows(false, ds, m, PointerLevel(g, m, p, protected, a).memory)
  {
    hide Grows, Leaf, PageSlot, PageRoles, Resolve;
    var e, n := Read(m, p), Mark(m, p, false);
    MarkGrows(false, ds, m, p, false);
    GrowsRefl(false, ds, n);
    if TableValid(e) {
      var q := PageSlot(g.large, e, a.addr);
      ResolvedRole(ds, n, q, 0);
      LeafGrows(g, ds, n, Resolve(n, q, 0), a);
      GrowsTrans(false, ds, m, n, Leaf(g, n, Resolve(n, q, 0), a).memory);
    }
  }

  lemma PointerQuiet(g: Tables, ds: set<u32>, m: Memory, m': Memory, p: u32, protected: bool, a0: Access, a: Access)
    requires PointerRoles(g, ds, m, p, a0) && SamePage(g, a0, a)
    requires Grows(false, ds, PointerLevel(g, m, p, protected, a0).memory, m')
    requires Repeats(PointerLevel(g, m, p, protected, a0), a0, a)
    ensures PointerLevel(g, m', p, protected, a).memory == m'
  {
    hide Grows, Leaf, PageSlot, SamePage, PageRoles, Resolve;
    var e, e', n := Read(m, p), Read(m', p), Mark(m, p, false);
    var done := PointerLevel(g, m, p, protected, a0).memory;
    PointerGrows(g, ds, m, p, protected, a0);
    GrowsTrans(false, ds, n, done, m');
    GrowsTrans(false, ds, m, n, m');
    MarkTwice(false, ds, m, m', p, false, false);
    WordOf(ds, m, m', p);
    if TableValid(e) && !(a.write && (protected || Protected(e))) && !(a0.write && (protected || Protected(e))) {
      SameSlots(g, a0, a);
      SamePageSlot(g.large, e, e', a.addr);
      var q := PageSlot(g.large, e, a0.addr);
      ResolveAlike(ds, n, m', q, 0);
      ResolvedRole(ds, n, q, 0);
      LeafQuiet(g, ds, n, m', Resolve(n, q, 0), a0, a);
    }
  }

  // ---- the whole walk ------------------------------------------------------------------------

  /** A walk of a grown memory takes the same path to the same page and the same fault decision. */
  lemma WalkAlike(g: Tables, ds: set<u32>, m: Memory, m': Memory, a0: Access, a: Access)
    requires Roles(g, ds, m, a0) && Grows(false, ds, m, m') && SamePage(g, a0, a)
    requires Repeats(Walk(g, m, a0), a0, a)
    ensures Roles(g, ds, m', a)
    ensures Alike(g, Walk(g, m, a0), Walk(g, m', a), a)
  {
    hide Grows, PointerSlot, SamePage, PointerRoles, PointerLevel, RootSlot;
    SameSlots(g, a0, a);
    var p := RootSlot(g, a);
    var e, e' := Read(m, p), Read(m', p);
    WordOf(ds, m, m', p);
    MarkMonotone(false, ds, m, m', p, false);
    if TableValid(e) {
      SamePageSlot(g.large, e, e', a.addr);
      PointerAlike(g, ds, Mark(m, p, false), Mark(m', p, false), PointerSlot(e, a0.addr), Protected(e), a0, a);
    }
  }

  /** Where M was not set before, a write has reached the page descriptor and written it back. */
  ghost predicate NewlyModified(m: Memory, o: Outcome, a: Access) {
    forall p: u32 :: Read(o.memory, p).modified && !Read(m, p).modified ==> a.write && o.page == Some(Read(o.memory, p))
  }

  lemma MarkUsedKeepsM(m: Memory, p: u32)
    ensures forall q: u32 :: Read(Mark(m, p, false), q).modified == Read(m, q).modified
  {
  }

  lemma LeafModifies(g: Tables, m: Memory, p: u32, a: Access)
    ensures NewlyModified(m, Leaf(g, m, p, a), a)
  {
    hide Physical, Denied;
  }

  lemma PointerModifies(g: Tables, m: Memory, p: u32, protected: bool, a: Access)
    ensures NewlyModified(m, PointerLevel(g, m, p, protected, a), a)
  {
    hide Resolve, PageSlot, Leaf, Mark;
    MarkUsedKeepsM(m, p);
    LeafModifies(g, Mark(m, p, false), Resolve(Mark(m, p, false), PageSlot(g.large, Read(m, p), a.addr), 0), a);
  }

  lemma WalkModifies(g: Tables, m: Memory, a: Access)
    ensures NewlyModified(m, Walk(g, m, a), a)
  {
    hide PointerLevel, PointerSlot, RootSlot, Mark;
    var p := RootSlot(g, a);
    var e := Read(m, p);
    MarkUsedKeepsM(m, p);
    PointerModifies(g, Mark(m, p, false), PointerSlot(e, a.addr), Protected(e), a);
  }

  /** A walk changes memory only by setting U in descriptors, and M in the page descriptor a write reaches. */
  lemma WalkGrows(g: Tables, ds: set<u32>, m: Memory, a: Access)
    requires Roles(g, ds, m, a)
    ensures Grows(false, ds, m, Walk(g, m, a).memory)
    ensures NewlyModified(m, Walk(g, m, a), a)
  {
    hide Grows, PointerSlot, PointerRoles, PointerLevel, RootSlot, NewlyModified;
    WalkModifies(g, m, a);
    var p := RootSlot(g, a);
    var e := Read(m, p);
    GrowsRefl(false, ds, m);
    if TableValid(e) {
      MarkGrows(false, ds, m, p, false);
      PointerGrows(g, ds, Mark(m, p, false), PointerSlot(e, a.addr), Protected(e), a);
      GrowsTrans(false, ds, m, Mark(m, p, false), Walk(g, m, a).memory);
    }
  }

  /** Once a walk has been done, walking to the same page again writes nothing, whatever other walks
      have added to memory in between. */
  lemma WalkQuiet(g: Tables, ds: set<u32>, m: Memory, m': Memory, a0: Access, a: Access)
    requires Roles(g, ds, m, a0) && SamePage(g, a0, a)
    requires Grows(false, ds, Walk(g, m, a0).memory, m')
    requires Repeats(Walk(g, m, a0), a0, a)
    ensures Walk(g, m', a).memory == m'
  {
    hide Grows, PointerSlot, SamePage, PointerRoles, PointerLevel, RootSlot;
    SameSlots(g, a0, a);
    var p := RootSlot(g, a);
    var e, e', n := Read(m, p), Read(m', p), Mark(m, p, false);
    WalkGrows(g, ds, m, a0);
    GrowsTrans(false, ds, m, Walk(g, m, a0).memory, m');
    WordOf(ds, m, m', p);
    if TableValid(e) {
      SamePageSlot(g.large, e, e', a.addr);
      var q := PointerSlot(e, a0.addr);
      PointerGrows(g, ds, n, q, Protected(e), a0);
      GrowsTrans(false, ds, n, Walk(g, m, a0).memory, m');
      MarkTwice(false, ds, m, m', p, false, false);
      PointerQuiet(g, ds, n, m', q, Protected(e), a0, a);
    }
  }

  /** A walk either faults or reaches a resident page, whose frame gives the address. */
  lemma WalkPhysical(g: Tables, m: Memory, a: Access)
    ensures var o := Walk(g, m, a);
            && o.fault == o.page.None?
            && (o.page.Some? ==> o.out == Physical(g.large, o.page.value, a.addr))
  {
    hide Resolve, PageSlot, PointerSlot, RootSlot;
  }
}
