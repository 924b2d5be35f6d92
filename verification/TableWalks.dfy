/** What the translation tables mean, in numbers and on memory as it is before the walk: which longwords a walk
    reads, where they lead, and which of them it marks.  The walks that mark descriptors as they go are proved
    to give this answer. */
module TableWalks {
  import opened Words
  import opened Powers
  import opened Descriptors
  import opened Translation
  import Shifts
  import W30 = Walk030
  import W40 = Walk040

  /** `m'` is `m` with U set in the valid descriptors of `seen`, and M in a page of them that a write may change. */
  ghost predicate MarkedBy(m: Memory, m': Memory, seen: seq<u32>, write: bool) {
    forall q: u32 ::
      var e := Read(m, q);
      Read(m', q) == if q in seen && e.low % 4 != 0
        then e.(used := true, modified := e.modified || (write && e.low == 1))
        else e
  }

  // ---- 68040 ---------------------------------------------------------------------------------

  /** Where a chain of at most `n` indirect pointers from `p` ends. */
  function Chase(m: Memory, p: u32, n: nat): u32
    decreases n
  {
    if n > 0 && Number(Read(m, p)) % 4 == 2 then Chase(m, Number(Read(m, p)) / 4 * 4, n - 1) else p
  }

  /** Shifting a number down past its low part. */
  lemma Above(u: int, d: int, k: int, r: int)
    requires 0 <= r < d && k > 0
    ensures var n := d * u + r;
            d * k > 0 && n / d == u && n % d == r && (u >= 0 ==> n / (d * k) == u / k)
  {
    DivUnique(d * u + r, d, u, r);
    MulAtLeast(d, k);
    if u >= 0 {
      Positive(d, u);
      DivDiv(d * u + r, d, k);
    }
  }

  /** The low five bits of a longword. */
  function Low(e: Word): (r: int)
    ensures 0 <= r < 32
  {
    (if e.modified then 16 else 0) + (if e.used then 8 else 0) + e.low
  }

  lemma NumberIs(e: Word)
    ensures Number(e) == 32 * e.upper + Low(e)
    ensures Number(e) / 0x20 == e.upper
  {
    Above(e.upper, 32, 1, Low(e));
  }

  /** A number's low bits are those of its low five. */
  lemma LowOf(u: int, r: int)
    requires 0 <= r < 32
    ensures var n := 32 * u + r;
            && n % 4 == r % 4 && n % 2 == r % 2 && n / 2 % 2 == r / 2 % 2 && n / 4 % 2 == r / 4 % 2
            && n / 4 * 4 == 32 * u + r / 4 * 4 && n / 0x10 * 0x10 == 32 * u + r / 0x10 * 0x10
  {
    var n := 32 * u + r;
    DivUnique(n, 4, 8 * u + r / 4, r % 4);
    DivUnique(n, 2, 16 * u + r / 2, r % 2);
    DivUnique(n, 0x10, 2 * u + r / 0x10, r % 0x10);
    EvenPlus(8 * u, r / 2);
    EvenPlus(4 * u, r / 4);
  }

  lemma EvenPlus(u: int, r: int)
    ensures (2 * u + r) % 2 == r % 2
  {
  }

  lemma LowFlags(e: Word)
    ensures var r := Low(e);
            && r % 4 == e.low % 4 && r % 2 == e.low % 2 && r / 2 % 2 == e.low / 2 % 2
            && (r / 4 % 2 == 1 <==> Protected(e))
            && 32 * e.upper + r / 4 * 4 == Pointer(e) && 32 * e.upper + r / 0x10 * 0x10 == W30.TableAddress(e)
  {
    LowBits(if e.modified then 2 else 0, if e.used then 1 else 0, e.low);
  }

  lemma LowBits(m: int, u: int, low: int)
    requires 0 <= low < 8 && (m == 0 || m == 2) && (u == 0 || u == 1)
    ensures var r := 8 * (m + u) + low;
            && r % 4 == low % 4 && r % 2 == low % 2 && r / 2 % 2 == low / 2 % 2 && (r / 4 % 2 == 1 <==> low >= 4)
            && r / 4 * 4 == 8 * (m + u) + (if low >= 4 then 4 else 0) && r / 0x10 * 0x10 == 8 * m
  {
    var r, n, h := 8 * (m + u) + low, m + u, if low >= 4 then 1 else 0;
    DivUnique(low, 4, h, low - 4 * h);
    DivUnique(r, 4, 2 * n + h, low - 4 * h);
    DivUnique(r, 2, 4 * n + low / 2, low % 2);
    DivUnique(r, 0x10, m / 2, 8 * u + low);
    EvenPlus(2 * n, low / 2);
    EvenPlus(n, h);
  }

  /** The fields of a longword, as numbers. */
  lemma NumberParts(e: Word)
    ensures var n := Number(e);
            && n % 4 == Type(e) && n % 2 == e.low % 2 && n / 2 % 2 == e.low / 2 % 2
            && (n / 4 % 2 == 1 <==> Protected(e))
            && n / 4 * 4 == Pointer(e) && n / 0x10 * 0x10 == W30.TableAddress(e)
  {
    hide Number, Low, Protected, Pointer, W30.TableAddress;
    NumberIs(e);
    LowOf(e.upper, Low(e));
    LowFlags(e);
  }

  lemma NumberFields(e: Word)
    ensures var n := Number(e);
            && n / 0x80 == e.upper / 4 && n / 0x100 == e.upper / 8 && n / 0x200 == e.upper / 16
            && n / 0x1000 == e.upper / 128 && n / 0x2000 == e.upper / 256
  {
    hide Number, Low;
    NumberIs(e);
    Above(e.upper, 32, 4, Low(e));
    Above(e.upper, 32, 8, Low(e));
    Above(e.upper, 32, 16, Low(e));
    Above(e.upper, 32, 128, Low(e));
    Above(e.upper, 32, 256, Low(e));
  }

  lemma MarkedWord(m: Memory, p: u32, modified: bool, q: u32)
    ensures var e := Read(m, q);
            Read(Mark(m, p, modified), q)
            == if q == p then e.(used := true, modified := e.modified || modified) else e
  {
  }

  /** Marks do not change where a chain of indirect pointers leads. */
  lemma ChaseIs(ds: set<u32>, m: Memory, m': Memory, p: u32, depth: nat)
    requires Grows(false, ds, m, m') && W40.PageRoles(ds, m', p, depth) && depth <= 4
    ensures W40.Resolve(m', p, depth) == Chase(m, p, 4 - depth)
    decreases 4 - depth
  {
    hide Pointer, Number;
    NumberParts(Read(m, p));
    NumberParts(Read(m', p));
    assert p in ds ==> WordGrows(false, Read(m, p), Read(m', p));
  }

  /** The page descriptor at `p`, up to U and M: when it denies the access, the address it gives, and its marks. */
  lemma LeafIs(g: W40.Tables, m: Memory, p: u32, e: Word, a: Access)
    requires (Read(m, p).upper, Read(m, p).low) == (e.upper, e.low)
    ensures var leaf, o := Number(e), W40.Leaf(g, m, p, a);
            && (o.fault <==> leaf % 2 == 0 || (a.write && leaf / 4 % 2 == 1)
                             || (a.fc / 4 % 2 == 0 && leaf / 0x80 % 2 == 1))
            && (!o.fault ==> o.out == InPage(g.large, leaf, a.addr))
            && o.memory == if o.fault then m else Mark(m, p, a.write)
  {
    hide Number, Mark, Pointer, W30.TableAddress, W40.Resident;
    NumberParts(e);
    NumberFields(e);
    OddIsPage(Read(m, p));
  }

  /** Descriptors of odd type are pages. */
  lemma OddIsPage(e: Word)
    ensures W40.Resident(e) <==> e.low % 2 == 1
  {
  }

  /** Where the page descriptor of `a` is, below the pointer descriptor at `p`. */
  function LeafSlot(g: W40.Tables, m: Memory, p: u32, a: Access): u32 {
    var pointer := Number(Read(m, p));
    Chase(m, Wrap(if g.large then pointer / 0x80 * 0x80 + a.addr / 0x2000 % 32 * 4
                  else pointer / 0x100 * 0x100 + a.addr / 0x1000 % 64 * 4), 4)
  }

  /** The pointer descriptor at `p` or the page descriptor it leads to denies the access. */
  predicate DeniedBelow(g: W40.Tables, m: Memory, p: u32, rootProtected: bool, a: Access) {
    var pointer, leaf := Number(Read(m, p)), Number(Read(m, LeafSlot(g, m, p, a)));
    || pointer / 2 % 2 == 0 || leaf % 2 == 0
    || (a.write && (rootProtected || pointer / 4 % 2 == 1 || leaf / 4 % 2 == 1))
    || (a.fc / 4 % 2 == 0 && leaf / 0x80 % 2 == 1)
  }

  /** The frame of a page descriptor with the offset of an address. */
  function InPage(large: bool, leaf: u32, addr: u32): int {
    if large then leaf / 0x2000 * 0x2000 + addr % 0x2000 else leaf / 0x1000 * 0x1000 + addr % 0x1000
  }

  /** The pointer and page descriptors, seen in the memory `m` before the root descriptor was marked. */
  lemma PointerIs(g: W40.Tables, ds: set<u32>, m: Memory, m1: Memory, p: u32, rootProtected: bool, a: Access)
    requires W40.PointerRoles(g, ds, m1, p, a) && Grows(false, ds, m, m1)
    requires forall q: u32 :: Read(m1, q) == Read(m, q).(used := Read(m1, q).used)
    ensures var leafAt, o := LeafSlot(g, m, p, a), W40.PointerLevel(g, m1, p, rootProtected, a);
            && (o.fault <==> DeniedBelow(g, m, p, rootProtected, a))
            && (!o.fault ==> o.out == InPage(g.large, Number(Read(m, leafAt)), a.addr))
            && o.memory == (if o.fault then Mark(m1, p, false) else Mark(Mark(m1, p, false), leafAt, a.write))
  {
    hide Number, Mark, Grows, W40.Leaf, W40.PageRoles, W40.Resolve, Chase, Protected, Pointer, W30.TableAddress, InPage;
    var e1, m2 := Read(m1, p), Mark(m1, p, false);
    NumberParts(Read(m, p));
    NumberFields(Read(m, p));
    SameMarks(Read(m, p), e1);
    MarkGrows(false, ds, m1, p, false);
    GrowsTrans(false, ds, m, m1, m2);
    if W40.TableValid(e1) {
      var pageAt := W40.PageSlot(g.large, e1, a.addr);
      WrapIs(pageAt, 0, pageAt);
      ChaseIs(ds, m, m2, pageAt, 0);
      var leafAt := Chase(m, pageAt, 4);
      MarkedWord(m1, p, false, leafAt);
      LeafIs(g, m2, leafAt, Read(m, leafAt), a);
    }
  }

  lemma SameMarks(e: Word, e1: Word)
    requires (e1.upper, e1.low) == (e.upper, e.low)
    ensures Protected(e1) == Protected(e) && W40.TableValid(e1) == W40.TableValid(e)
    ensures forall large: bool, addr: u32 :: W40.PageSlot(large, e1, addr) == W40.PageSlot(large, e, addr)
  {
  }

  lemma MarkedUsed(m: Memory, p: u32)
    ensures forall q: u32 :: Read(Mark(m, p, false), q) == Read(m, q).(used := Read(Mark(m, p, false), q).used)
  {
  }

  lemma MarkedThrice(m: Memory, p: u32, q: u32, r: u32, fault: bool, write: bool)
    ensures var m2 := Mark(Mark(m, p, false), q, false);
            var m' := if fault then m2 else Mark(m2, r, write);
            forall x: u32 ::
              var e := Read(m, x);
              Read(m', x) == e.(used := e.used || x in {p, q} || (!fault && x == r),
                                modified := e.modified || (!fault && x == r && write))
  {
  }

  /** The root descriptor, and the walk's memory as its marks in turn. */
  lemma RootIs(g: W40.Tables, ds: set<u32>, m: Memory, a: Access)
    requires W40.Roles(g, ds, m, a)
    ensures var rootAt := Wrap((if a.fc / 4 % 2 == 1 then g.srp else g.urp) + a.addr / 0x200_0000 * 4);
            var root := Number(Read(m, rootAt));
            var pointerAt := Wrap(root / 0x200 * 0x200 + a.addr / 0x4_0000 % 128 * 4);
            var leafAt, o := LeafSlot(g, m, pointerAt, a), W40.Walk(g, m, a);
            && (o.fault <==> root / 2 % 2 == 0 || DeniedBelow(g, m, pointerAt, root / 4 % 2 == 1, a))
            && (!o.fault ==> o.out == InPage(g.large, Number(Read(m, leafAt)), a.addr))
            && o.memory == (if root / 2 % 2 == 0 then m
                            else if o.fault then Mark(Mark(m, rootAt, false), pointerAt, false)
                            else Mark(Mark(Mark(m, rootAt, false), pointerAt, false), leafAt, a.write))
  {
    hide Number, Mark, Grows, W40.PointerLevel, W40.PointerRoles, LeafSlot, Protected, Pointer, W30.TableAddress, Wrap,
         DeniedBelow, InPage;
    var p := W40.RootSlot(g, a);
    var e := Read(m, p);
    NumberParts(e);
    NumberFields(e);
    if W40.TableValid(e) {
      MarkGrows(false, ds, m, p, false);
      MarkedUsed(m, p);
      var pointerAt := W40.PointerSlot(e, a.addr);
      WrapIs(pointerAt, 0, pointerAt);
      PointerIs(g, ds, m, Mark(m, p, false), pointerAt, Protected(e), a);
    }
  }

  /** The three longwords the 68040 reads, the conditions for a fault, the address, and the marks. */
  lemma Answers040(cfg: Config, ds: set<u32>, m: Memory, a: Access)
    requires cfg.Mmu040? && Bypass(cfg, a).None? && Roles(cfg, ds, m, a)
    ensures var g := cfg.tables40;
            var rootAt := Wrap((if a.fc / 4 % 2 == 1 then g.srp else g.urp) + a.addr / 0x200_0000 * 4);
            var root := Number(Read(m, rootAt));
            var pointerAt := Wrap(root / 0x200 * 0x200 + a.addr / 0x4_0000 % 128 * 4);
            var pointer := Number(Read(m, pointerAt));
            var pageAt := Wrap(if g.large then pointer / 0x80 * 0x80 + a.addr / 0x2000 % 32 * 4
                               else pointer / 0x100 * 0x100 + a.addr / 0x1000 % 64 * 4);
            var leafAt := Chase(m, pageAt, 4);
            var leaf := Number(Read(m, leafAt));
            var o := Uncached(cfg, m, a);
            && (o.fault <==>
                  || root / 2 % 2 == 0 || pointer / 2 % 2 == 0 || leaf % 2 == 0
                  || (a.write && (root / 4 % 2 == 1 || pointer / 4 % 2 == 1 || leaf / 4 % 2 == 1))
                  || (a.fc / 4 % 2 == 0 && leaf / 0x80 % 2 == 1))
            && (!o.fault ==>
                  o.out == if g.large then leaf / 0x2000 * 0x2000 + a.addr % 0x2000
                           else leaf / 0x1000 * 0x1000 + a.addr % 0x1000)
            && (forall q: u32 ::
                  var e := Read(m, q);
                  Read(o.memory, q)
                  == e.(used := e.used || (root / 2 % 2 == 1 && q in {rootAt, pointerAt}) || (!o.fault && q == leafAt),
                        modified := e.modified || (!o.fault && q == leafAt && a.write)))
  {
    hide Number, Mark, W40.Walk, W40.Roles, Chase, Wrap, Bypass;
    var g := cfg.tables40;
    RootIs(g, ds, m, a);
    var rootAt := Wrap((if a.fc / 4 % 2 == 1 then g.srp else g.urp) + a.addr / 0x200_0000 * 4);
    var root := Number(Read(m, rootAt));
    var pointerAt := Wrap(root / 0x200 * 0x200 + a.addr / 0x4_0000 % 128 * 4);
    MarkedThrice(m, rootAt, pointerAt, LeafSlot(g, m, pointerAt, a), W40.Walk(g, m, a).fault, a.write);
  }

  // ---- 68030 ---------------------------------------------------------------------------------

  datatype Goal = Denied | Page(address: u32)

  /** Where a walk gets, and the descriptors it visits in turn. */
  datatype Trail = Trail(goal: Goal, seen: seq<u32>)

  /** The index widths TIA, TIB and TIC, levels 1 to 3; level 0 is the function code table. */
  function Field(tc: u32, level: nat): nat {
    match level
    case 1 => tc / 0x1000 % 16
    case 2 => tc / 0x100 % 16
    case 3 => tc / 0x10 % 16
    case _ => 0
  }

  /** The index into the table of a level. */
  function IndexIn(tc: u32, a: Access, level: nat, used: nat): int
    requires used + Field(tc, level) <= 32
  {
    var width := Field(tc, level);
    if level == 0 then a.fc else a.addr / Pow2(32 - used - width) % Pow2(width)
  }

  /** The longword that holds the address of an entry: its first, or the second one in an eight-byte table. */
  function Holder(kind: int, entry: u32): u32 {
    if kind == 2 then entry else Wrap(entry + 4)
  }

  /** Where the descriptor of an entry is: there, but for an entry of level 3 that is a table, which points to it. */
  function Target(m: Memory, kind: int, entry: u32, level: nat): u32 {
    if level == 3 && Number(Read(m, entry)) % 4 >= 2 then Number(Read(m, Holder(kind, entry))) / 4 * 4 else entry
  }

  /** On from a descriptor of type `kind` (0 invalid, 1 page, 2 four-byte and 3 eight-byte table) and the address it
      holds, with `used` address bits consumed. */
  ghost function Follow(tc: u32, m: Memory, a: Access, kind: int, table: u32, level: nat, used: nat): Trail
    decreases 4 - level
  {
    var size, width := tc / 0x100_0000 % 16, Field(tc, level);
    if kind == 0 || used > 32 then Trail(Denied, [])
    else if kind == 1 then Trail(Page(Wrap(table / Pow2(size) * Pow2(size) + a.addr % Pow2(32 - used))), [])
    else if level > 3 || used + width > 32 then Trail(Denied, [])
    else
      var entry := Wrap(table + IndexIn(tc, a, level, used) * if kind == 2 then 4 else 8);
      var at := Target(m, kind, entry, level);
      var e, next := Number(Read(m, at)), Number(Read(m, Holder(kind, at))) / 0x10 * 0x10;
      if (a.write && e % 8 > 4) || (a.fc / 4 % 2 == 0 && kind == 3 && e % 4 != 0 && e / 0x100 % 2 == 1) then
        Trail(Denied, [at])
      else
        var rest := Follow(tc, m, a, e % 4, next, level + 1, used + width);
        Trail(rest.goal, [at] + rest.seen)
  }

  /** The longwords of `m'` that marks may have changed are descriptors, and none of them a page. */
  ghost predicate Ahead(ds: set<u32>, m: Memory, m': Memory, seen: seq<u32>, write: bool) {
    && MarkedBy(m, m', seen, write)
    && (forall q: u32 :: q in seen ==> q in ds && Read(m, q).low % 4 != 1)
  }

  /** A descriptor still ahead of the walk is as it was but for U; pointers and second longwords are untouched. */
  lemma AheadRead(ds: set<u32>, m: Memory, m': Memory, seen: seq<u32>, write: bool, q: u32)
    requires Ahead(ds, m, m', seen, write)
    ensures Read(m', q) == Read(m, q).(used := Read(m', q).used)
    ensures q !in ds ==> Read(m', q) == Read(m, q)
  {
  }

  /** What the entry at `p` leads to. */
  lemma EntryIs(ds: set<u32>, m: Memory, m': Memory, seen: seq<u32>, write: bool, p: u32, short: bool, indirect: bool)
    requires Ahead(ds, m, m', seen, write)
    requires if short then W30.ShortRoles(ds, m', p, indirect) else W30.LongRoles(ds, m', p, indirect)
    ensures var f := if short then W30.FetchShort(m', p, indirect) else W30.FetchLong(m', p, indirect);
            var kind, level := if short then 2 else 3, if indirect then 3 else 0;
            var at := Target(m, kind, p, level);
            && f.at == at && at in ds && f.word == Read(m', at)
            && f.table == Number(Read(m, Holder(kind, at))) / 0x10 * 0x10
  {
    hide Ahead, Pointer, Number, W30.TableAddress, Wrap, Protected;
    var first, second := Read(m, p), Read(m, W30.Second(p));
    AheadRead(ds, m, m', seen, write, p);
    AheadRead(ds, m, m', seen, write, W30.Second(p));
    NumberParts(first);
    NumberParts(second);
    TypeAtLeast(first.low);
    var q := if short then Pointer(first) else Pointer(second);
    AheadRead(ds, m, m', seen, write, q);
    AheadRead(ds, m, m', seen, write, W30.Second(q));
    NumberParts(Read(m, q));
    NumberParts(Read(m, W30.Second(q)));
    TableOf(first, Read(m', p));
    TableOf(Read(m, q), Read(m', q));
  }

  lemma TypeAtLeast(low: int)
    requires 0 <= low < 8
    ensures W30.IsTable(low % 4) <==> low % 4 >= 2
  {
  }

  lemma TableOf(e: Word, e': Word)
    requires e' == e.(used := e'.used)
    ensures W30.TableAddress(e') == W30.TableAddress(e) && Type(e') == Type(e)
  {
  }

  /** The walk has checked its way down to `c`, at a level of the tree, and is not stopped. */
  ghost predicate At(c: W30.Cursor, level: nat, a: Access) {
    && level <= 4 && c.position == 16 - 4 * level && c.level <= W30.LevelsBefore(c.position)
    && !W30.Stopped(c, a) && (c.supervisorOnly ==> UserAccess(a.fc))
  }

  lemma InRange(g: W30.Tables, ds: set<u32>, m: Memory, c: W30.Cursor, a: Access)
    requires W30.RolesFrom(g, ds, m, c, a) && (c.kind == W30.SHORT || c.kind == W30.LONG)
    ensures !W30.OutOfRange(g, c) && W30.Fits(g, c.consumed + W30.Width(g.tc, c.position))
    ensures W30.LevelRoles(g, ds, m, c, a)
  {
    hide W30.LevelRoles, W30.Fetch, W30.Advance, W30.Width, W30.Update;
  }

  /** The index, and the entry it selects. */
  lemma WidthIs(g: W30.Tables, c: W30.Cursor, level: nat, a: Access)
    requires level <= 3 && c.position == 16 - 4 * level && W30.Fits(g, c.consumed + W30.Width(g.tc, c.position))
    ensures W30.Width(g.tc, c.position) == Field(g.tc, level)
    ensures W30.EntryAddress(g, c, a)
         == Wrap(c.table + IndexIn(g.tc, a, level, c.consumed) * if c.kind == 2 then 4 else 8)
  {
    hide Pow2, Wrap, Shifts.Shl, Shifts.Shr;
    if level > 0 {
      W30.IndexIsField(g, c, a);
    }
  }

  /** One level of the walk, in numbers. */
  lemma LevelIs(g: W30.Tables, ds: set<u32>, m: Memory, m': Memory, seen: seq<u32>, c: W30.Cursor, level: nat,
          a: Access)
    requires At(c, level, a) && Ahead(ds, m, m', seen, a.write) && W30.RolesFrom(g, ds, m', c, a)
    requires c.kind == W30.SHORT || c.kind == W30.LONG
    ensures level <= 3 && c.consumed + Field(g.tc, level) <= 32
    ensures var entry := Wrap(c.table + IndexIn(g.tc, a, level, c.consumed) * if c.kind == 2 then 4 else 8);
            var at, f := Target(m, c.kind, entry, level), W30.Fetch(g, m', c, a);
            && f.at == at && at in ds && f.word == Read(m', at)
            && f.table == Number(Read(m, Holder(c.kind, at))) / 0x10 * 0x10
            && W30.Width(g.tc, c.position) == Field(g.tc, level)
  {
    hide Ahead, Number, Pow2, Wrap, W30.EntryAddress, IndexIn, W30.MayBeIndirect, W30.ShortRoles, W30.LongRoles,
         W30.FetchShort, W30.FetchLong, W30.RolesFrom, W30.PageShift, W30.Stopped;
    InRange(g, ds, m', c, a);
    W30.IndirectAtThird(g, c.position);
    WidthIs(g, c, level, a);
    EntryIs(ds, m, m', seen, a.write, W30.EntryAddress(g, c, a), c.kind == W30.SHORT, level == 3);
  }

  /** Marking the descriptor just read. */
  lemma MarkStep(ds: set<u32>, m: Memory, m': Memory, seen: seq<u32>, at: u32, write: bool)
    requires Ahead(ds, m, m', seen, write) && at in ds
    ensures var m2 := W30.Update(m', at, Read(m', at), write);
            && MarkedBy(m, m2, seen + [at], write)
            && (Read(m, at).low % 4 != 1 ==> Ahead(ds, m, m2, seen + [at], write))
  {
    hide Mark;
    var e, e' := Read(m, at), Read(m', at);
    var m2 := W30.Update(m', at, e', write);
    forall q: u32 ensures var w := Read(m, q);
      Read(m2, q) == if q in seen + [at] && w.low % 4 != 0
        then w.(used := true, modified := w.modified || (write && w.low == 1)) else w
    {
      MarkedWord(m', at, e'.low % 4 == 1 && write && e'.low < 4, q);
    }
  }

  /** Whether the descriptor just read stops the walk. */
  lemma StopIs(g: W30.Tables, c: W30.Cursor, level: nat, f: W30.Fetched, e: Word, a: Access)
    requires At(c, level, a) && f.word == e.(used := f.word.used)
    ensures var d, n := W30.Advance(g, c, f, a), Number(e);
            && d.kind == n % 4
            && (W30.Stopped(d, a)
                <==> (a.write && n % 8 > 4) || (a.fc / 4 % 2 == 0 && c.kind == 3 && n % 4 != 0 && n / 0x100 % 2 == 1))
            && (W30.Stopped(d, a) ==> (a.write && d.protected) || d.supervisorOnly)
            && (d.supervisorOnly ==> UserAccess(a.fc))
  {
    hide Number, W30.Width, Pointer, W30.TableAddress;
    NumberParts(e);
    NumberFields(e);
    LowThree(e);
  }

  lemma LowThree(e: Word)
    ensures Number(e) % 8 == e.low
  {
    var r := Low(e);
    DivUnique(Number(e), 8, 4 * e.upper + r / 8, e.low);
  }

  lemma LevelsIs(g: W30.Tables, m: Memory, c: W30.Cursor, level: nat, a: Access)
    requires level <= 3 && c.position == 16 - 4 * level && c.level <= W30.LevelsBefore(c.position)
    ensures var f := W30.Fetch(g, m, c, a); c.level + f.levels <= W30.LevelsBefore(c.position - 4) < W30.LEVEL_LIMIT
  {
    hide W30.MayBeIndirect, W30.EntryAddress, Pointer, W30.TableAddress;
    W30.IndirectAtThird(g, c.position);
  }

  /** The descriptor just read and where it leads, one level on. */
  lemma NextIs(g: W30.Tables, ds: set<u32>, m: Memory, m': Memory, c: W30.Cursor, level: nat, f: W30.Fetched, a: Access)
    requires At(c, level, a) && level <= 3 && f == W30.Fetch(g, m', c, a)
    requires f.word == Read(m, f.at).(used := f.word.used)
    requires W30.Width(g.tc, c.position) == Field(g.tc, level)
    ensures var d := W30.Advance(g, c, f, a);
            && d.table == f.table && d.consumed == c.consumed + Field(g.tc, level)
            && d.kind == Number(Read(m, f.at)) % 4 && 0 <= d.kind < 4
            && d.level < W30.LEVEL_LIMIT && (!W30.Stopped(d, a) ==> At(d, level + 1, a))
  {
    hide Number, W30.Fetch, W30.Stopped, Field, Protected, W30.SupervisorBit;
    LevelsIs(g, m', c, level, a);
    StopIs(g, c, level, f, Read(m, f.at), a);
  }

  /** One turn of the level loop. */
  lemma LoopTurn(g: W30.Tables, ds: set<u32>, m: Memory, c: W30.Cursor, a: Access)
    requires W30.RolesFrom(g, ds, m, c, a) && (c.kind == W30.SHORT || c.kind == W30.LONG)
    requires var f := W30.Fetch(g, m, c, a); W30.Advance(g, c, f, a).level < W30.LEVEL_LIMIT
    ensures var f, o := W30.Fetch(g, m, c, a), W30.Loop(g, m, c, a);
            var n, d := W30.Update(m, f.at, f.word, a.write), W30.Advance(g, c, f, a);
            if W30.Stopped(d, a)
            then o == W30.Outcome(true, d.last, n, false, d.protected, d.supervisorOnly, d.level, true)
            else o == W30.Loop(g, n, d, a) && W30.RolesFrom(g, ds, n, d, a)
  {
    hide W30.Fetch, W30.Update, W30.Advance, W30.Stopped, W30.LevelRoles, W30.Width, W30.PageShift;
  }

  /** One level of the trail. */
  lemma FollowTurn(tc: u32, m: Memory, a: Access, kind: int, table: u32, level: nat, used: nat, at: u32, next: u32)
    requires (kind == 2 || kind == 3) && level <= 3 && used + Field(tc, level) <= 32
    requires at == Target(m, kind, Wrap(table + IndexIn(tc, a, level, used) * if kind == 2 then 4 else 8), level)
    requires next == Number(Read(m, Holder(kind, at))) / 0x10 * 0x10
    ensures var e, t := Number(Read(m, at)), Follow(tc, m, a, kind, table, level, used);
            if (a.write && e % 8 > 4) || (a.fc / 4 % 2 == 0 && kind == 3 && e % 4 != 0 && e / 0x100 % 2 == 1)
            then t == Trail(Denied, [at])
            else
              var rest := Follow(tc, m, a, e % 4, next, level + 1, used + Field(tc, level));
              t == Trail(rest.goal, [at] + rest.seen)
  {
    hide Number, Wrap, Field, Target, IndexIn, Holder, Pow2;
  }

  /** The rest of the walk, from memory `m'` with the marks of `seen`. */
  lemma {:induction false} FollowIs(g: W30.Tables, ds: set<u32>, m: Memory, m': Memory, seen: seq<u32>, c: W30.Cursor,
          level: nat, a: Access)
    requires 8 <= W30.PageShift(g.tc) && W30.RolesFrom(g, ds, m', c, a) && At(c, level, a)
    requires MarkedBy(m, m', seen, a.write) && (c.kind != W30.PAGE ==> Ahead(ds, m, m', seen, a.write))
    requires 0 <= c.kind < 4
    ensures var t, o := Follow(g.tc, m, a, c.kind, c.table, level, c.consumed), W30.Loop(g, m', c, a);
            && (W30.Faults(o, a) <==> t.goal.Denied?) && (t.goal.Page? ==> o.out == t.goal.address)
            && MarkedBy(m, o.memory, seen + t.seen, a.write)
    decreases 4 - level
  {
    hide Ahead, MarkedBy, Number, Pow2, Wrap, W30.Fetch, W30.Advance, W30.Update, Target, IndexIn, W30.Width,
         W30.Stopped, Field, At, UserAccess, Holder, W30.Loop, W30.RolesFrom, Follow, W30.PageShift;
    if c.kind == W30.INVALID || c.kind == W30.PAGE {
      FollowEnds(g, ds, m, m', c, level, a);
      assert seen + [] == seen;
    } else {
      LevelIs(g, ds, m, m', seen, c, level, a);
      var f := W30.Fetch(g, m', c, a);
      AheadRead(ds, m, m', seen, a.write, f.at);
      StopIs(g, c, level, f, Read(m, f.at), a);
      NextIs(g, ds, m, m', c, level, f, a);
      MarkStep(ds, m, m', seen, f.at, a.write);
      LoopTurn(g, ds, m', c, a);
      FollowTurn(g.tc, m, a, c.kind, c.table, level, c.consumed, f.at, f.table);
      var n, d := W30.Update(m', f.at, f.word, a.write), W30.Advance(g, c, f, a);
      if !W30.Stopped(d, a) {
        PageType(Read(m, f.at));
        FollowIs(g, ds, m, n, seen + [f.at], d, level + 1, a);
        var rest := Follow(g.tc, m, a, d.kind, d.table, level + 1, d.consumed);
        assert seen + [f.at] + rest.seen == seen + ([f.at] + rest.seen);
      }
    }
  }

  lemma PageType(e: Word)
    ensures Number(e) % 4 == e.low % 4
  {
    hide Number, Pointer, Protected, W30.TableAddress;
    NumberParts(e);
  }

  lemma FollowEnds(g: W30.Tables, ds: set<u32>, m: Memory, m': Memory, c: W30.Cursor, level: nat, a: Access)
    requires 8 <= W30.PageShift(g.tc) && W30.RolesFrom(g, ds, m', c, a) && At(c, level, a)
    requires c.kind == W30.INVALID || c.kind == W30.PAGE
    ensures var t, o := Follow(g.tc, m, a, c.kind, c.table, level, c.consumed), W30.Loop(g, m', c, a);
            && (W30.Faults(o, a) <==> t.goal.Denied?) && (t.goal.Page? ==> o.out == t.goal.address)
            && t.seen == [] && o.memory == m'
  {
    hide Pow2, Wrap, Shifts.BlockAddress, W30.Fetch, W30.Advance, W30.Update, Field, Number, W30.Width, W30.LevelRoles,
         Target, IndexIn;
    if c.kind == W30.PAGE {
      W30.PageIsBase(g, m', c, a);
      AtPage(c, level, a);
    }
  }

  lemma AtPage(c: W30.Cursor, level: nat, a: Access)
    requires At(c, level, a)
    ensures !(a.write && c.protected) && !c.supervisorOnly
  {
  }

  /** Where a 68030 walk starts: at the supervisor root for supervisor accesses when SRE is set, at the CPU root
      otherwise; with the function code when FCL is set, and with TIA otherwise. */
  ghost function TrailFor(g: W30.Tables, m: Memory, a: Access): Trail {
    var supervisor := g.tc / 0x200_0000 % 2 == 1 && a.fc / 4 % 2 == 1;
    var limit, root := if supervisor then g.srpLimit else g.crpLimit, if supervisor then g.srpAptr else g.crpAptr;
    Follow(g.tc, m, a, Number(limit) % 4, Number(root) / 0x10 * 0x10, if g.tc / 0x100_0000 % 2 == 1 then 0 else 1,
           g.tc / 0x10_0000 % 16)
  }

  lemma Walk030Is(g: W30.Tables, ds: set<u32>, m: Memory, a: Access)
    requires W30.Roles(g, ds, m, a)
    ensures var t, o := TrailFor(g, m, a), W30.Walk(g, m, a);
            && (W30.Faults(o, a) <==> t.goal.Denied?) && (t.goal.Page? ==> o.out == t.goal.address)
            && MarkedBy(m, o.memory, t.seen, a.write)
  {
    hide W30.Loop, W30.RolesFrom, Follow, Number, Pointer, W30.TableAddress;
    NumberParts(if W30.SeparateSupervisorRoot(g.tc) && !UserAccess(a.fc) then g.srpLimit else g.crpLimit);
    NumberParts(if W30.SeparateSupervisorRoot(g.tc) && !UserAccess(a.fc) then g.srpAptr else g.crpAptr);
    var c := W30.Start(g, a.fc);
    FollowIs(g, ds, m, m, [], c, if W30.FunctionCodeLookup(g.tc) then 0 else 1, a);
    assert [] + TrailFor(g, m, a).seen == TrailFor(g, m, a).seen;
  }

  /** The 68030 answers as the tables say, and marks just the descriptors on its way. */
  lemma Answers030(cfg: Config, ds: set<u32>, m: Memory, a: Access)
    requires cfg.Mmu030? && Valid(cfg) && Bypass(cfg, a).None? && Roles(cfg, ds, m, a)
    ensures var t, r := TrailFor(cfg.tables, m, a), Uncached(cfg, m, a);
            && (r.fault <==> t.goal.Denied?) && (t.goal.Page? ==> r.out == t.goal.address)
            && MarkedBy(m, r.memory, t.seen, a.write)
  {
    hide W30.Walk, W30.Roles, TrailFor, MarkedBy, Bypass;
    W30.WalkDefined(cfg.tables, ds, m, a);
    W30.WalkResolves(cfg.tables, m, a);
    Walk030Is(cfg.tables, ds, m, a);
  }

  // ---- transparent translation ---------------------------------------------------------------

  /** Which registers can bypass the tables: the two 68030 ones; on the 68040 those for data in data space and those
      for instructions elsewhere, the first match deciding whether a write faults. */
  lemma BypassedBy(cfg: Config, a: Access)
    ensures a.fc == 7 ==> Bypass(cfg, a) == Some(false)
    ensures cfg.Mmu030? && a.fc != 7 ==>
              var matches := TransparentMatch030(a, cfg.tt0) || TransparentMatch030(a, cfg.tt1);
              Bypass(cfg, a) == if matches then Some(false) else None
    ensures cfg.Mmu040? && a.fc != 7 ==>
              var first := if a.fc % 4 == 1 then cfg.dtt0 else cfg.itt0;
              var second := if a.fc % 4 == 1 then cfg.dtt1 else cfg.itt1;
              && (TransparentMatch(a.addr, a.fc, first) ==> Bypass(cfg, a) == Some(a.write && first / 4 % 2 == 1))
              && (!TransparentMatch(a.addr, a.fc, first) && TransparentMatch(a.addr, a.fc, second) ==>
                    Bypass(cfg, a) == Some(a.write && second / 4 % 2 == 1))
              && (!TransparentMatch(a.addr, a.fc, first) && !TransparentMatch(a.addr, a.fc, second) ==>
                    Bypass(cfg, a) == if cfg.enabled then None else Some(false))
  {
    hide TransparentMatch, TransparentMatch030;
    assert Pow2(2) == 4;
  }
}
