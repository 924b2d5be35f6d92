/** Address translation with and without the ATC, for both MMUs, and the proof that a run of cached
    translations agrees with a run of table walks. */
module Translation {
  import opened Words
  import opened Powers
  import opened Descriptors
  import Atc
  import W30 = Walk030
  import W40 = Walk040
  import P30 = Pack030
  import P40 = Pack040

  /** The registers that stay fixed during a run. */
  datatype Config =
    | Mmu030(tables: W30.Tables, tt0: u32, tt1: u32)
    | Mmu040(tables40: W40.Tables, enabled: bool, itt0: u32, itt1: u32, dtt0: u32, dtt1: u32)

  /** What an access gets: an address, the fault decision, and the memory afterwards. */
  datatype Result = Result(out: u32, fault: bool, memory: Memory)

  // ---- transparent translation ---------------------------------------------------------------

  predicate BitSet(w: int, k: nat) {
    w / Pow2(k) % 2 == 1
  }

  /** Enabled, right privilege, and equal top address bytes outside the mask byte. */
  predicate TransparentMatch(addr: u32, fc: nat, tt: u32) {
    && BitSet(tt, 15)
    && !(tt / 0x2000 % 4 == 0 && !UserAccess(fc))
    && !(tt / 0x2000 % 4 == 1 && UserAccess(fc))
    && (forall k: nat | 16 <= k < 24 :: !BitSet(tt, k) ==> BitSet(addr, k + 8) == BitSet(tt, k + 8))
  }

  /** The 68030 also compares the function code under a mask, and the direction when RWM is set. */
  predicate TransparentMatch030(a: Access, tt: u32) {
    && TransparentMatch(a.addr, a.fc, tt)
    && (forall k: nat | k < 3 :: !BitSet(tt, k) ==> BitSet(a.fc, k) == BitSet(tt, 4 + k))
    && (BitSet(tt, 8) ==> BitSet(tt, 9) == !a.write)
  }

  /** Whether translation is bypassed, and if so whether the access faults. */
  function Bypass(cfg: Config, a: Access): Option<bool> {
    match cfg
    case Mmu030(_, tt0, tt1) =>
      if TransparentMatch030(a, tt0) || TransparentMatch030(a, tt1) || a.fc == 7 then Some(false) else None
    case Mmu040(_, enabled, itt0, itt1, dtt0, dtt1) =>
      var data := a.fc % 2 == 1 && a.fc / 2 % 2 == 0;
      var first, second := if data then dtt0 else itt0, if data then dtt1 else itt1;
      if a.fc == 7 then Some(false)
      else if TransparentMatch(a.addr, a.fc, first) then Some(BitSet(first, 2) && a.write)
      else if TransparentMatch(a.addr, a.fc, second) then Some(BitSet(second, 2) && a.write)
      else if !enabled then Some(false)
      else None
  }

  // ---- the two translators -------------------------------------------------------------------

  /** The page shift of the 68030 path is at least 8; smaller ones shift by a negative count. */
  predicate Valid(cfg: Config) {
    cfg.Mmu030? ==> 8 <= W30.PageShift(cfg.tables.tc)
  }

  /** The 68030 path takes three function code bits. */
  predicate ValidAccess(cfg: Config, a: Access) {
    cfg.Mmu030? ==> a.fc < 8
  }

  function Tag(cfg: Config, a: Access): u32
    requires Valid(cfg)
  {
    if cfg.Mmu030? then P30.Tag(cfg.tables, a) else P40.Tag(cfg.tables40.large, a)
  }

  function Offset(cfg: Config, addr: u32): (o: int)
    ensures 0 <= o < 0x8000
  {
    if cfg.Mmu030? then P30.Offset(cfg.tables, addr) else P40.Offset(cfg.tables40.large, addr)
  }

  /** A table walk, and the data word it leaves in the ATC if any. */
  function WalkFor(cfg: Config, m: Memory, a: Access): (Result, Option<u32>)
    requires Valid(cfg)
  {
    if cfg.Mmu030? then
      var o := W30.Walk(cfg.tables, m, a);
      (Result(o.out, W30.Faults(o, a) || !o.resolved, o.memory),
       Some(P30.FillData(cfg.tables, o, a.write || W30.RootKind(cfg.tables, a.fc) == W30.PAGE)))
    else
      var o := W40.Walk(cfg.tables40, m, a);
      (Result(o.out, o.fault, o.memory),
       if o.page.Some? then Some(P40.FillData(cfg.tables40.large, o.out, a.write, o.page.value)) else None)
  }

  /** Translation by always walking. */
  function Uncached(cfg: Config, m: Memory, a: Access): Result
    requires Valid(cfg)
  {
    if Bypass(cfg, a).Some? then Result(a.addr, Bypass(cfg, a).value, m) else WalkFor(cfg, m, a).0
  }

  datatype State = State(cache: Atc.Cache, memory: Memory)

  /** Translation through the ATC. */
  function Cached(cfg: Config, s: State, a: Access): (r: (State, Result))
    requires Valid(cfg) && Atc.Shaped(s.cache)
    ensures Atc.Shaped(r.0.cache)
  {
    if Bypass(cfg, a).Some? then (s, Result(a.addr, Bypass(cfg, a).value, s.memory))
    else
      var tag := Tag(cfg, a);
      var l := Atc.Lookup(s.cache, tag, a.write, cfg.Mmu030?);
      if l.Hit? then
        (State(l.cache, s.memory),
         Result(Atc.HitAddress(l.data, Offset(cfg, a.addr)), Atc.HitFault(l.data, a.write), s.memory))
      else
        var (r, fill) := WalkFor(cfg, s.memory, a);
        (State(if fill.Some? then Atc.Add(l.cache, tag, fill.value, cfg.Mmu030?) else l.cache, r.memory), r)
  }

  /** PLOAD.  On the 68030 it walks without looking in the ATC and raises no bus error; on the 68040 it is an
      ordinary translation. */
  function Loaded(cfg: Config, s: State, a: Access): (r: State)
    requires Valid(cfg) && Atc.Shaped(s.cache)
    ensures Atc.Shaped(r.cache)
  {
    if cfg.Mmu040? || Bypass(cfg, a).Some? then Cached(cfg, s, a).0
    else
      var (r, fill) := WalkFor(cfg, s.memory, a);
      State(Atc.Add(s.cache, Tag(cfg, a), fill.value, true), r.memory)
  }

  lemma CachedKeepsInv(cfg: Config, s: State, a: Access)
    requires Valid(cfg) && Atc.Inv(s.cache)
    ensures Atc.Inv(Cached(cfg, s, a).0.cache)
  {
    hide Atc.Inv, Atc.Lookup, Atc.Add, Tag, Atc.IsValid, WalkFor;
    Atc.InvShaped(s.cache);
    var tag := Tag(cfg, a);
    var l := Atc.Lookup(s.cache, tag, a.write, cfg.Mmu030?);
    TagIsValid(cfg, a);
    Atc.LookupKeepsInv(s.cache, tag, a.write, cfg.Mmu030?);
    var (_, fill) := WalkFor(cfg, s.memory, a);
    if fill.Some? {
      Atc.AddKeepsInv(l.cache, tag, fill.value, cfg.Mmu030?);
    }
  }

  lemma LoadedKeepsInv(cfg: Config, s: State, a: Access)
    requires Valid(cfg) && Atc.Inv(s.cache)
    ensures Atc.Inv(Loaded(cfg, s, a).cache)
  {
    hide Atc.Inv, Atc.Add, Tag, Atc.IsValid, Cached, Bypass, W30.Walk, W40.Walk, P30.FillData, P40.FillData;
    Atc.InvShaped(s.cache);
    if cfg.Mmu040? || Bypass(cfg, a).Some? {
      CachedKeepsInv(cfg, s, a);
    } else {
      TagIsValid(cfg, a);
      Atc.AddKeepsInv(s.cache, Tag(cfg, a), WalkFor(cfg, s.memory, a).1.value, true);
    }
  }

  lemma TagIsValid(cfg: Config, a: Access)
    requires Valid(cfg)
    ensures Atc.IsValid(Tag(cfg, a))
  {
    if cfg.Mmu030? {
      P30.TagIsValid(cfg.tables, a);
    } else {
      P40.TagIsValid(cfg.tables40.large, a);
    }
  }

  // ---- what makes a cached entry right -------------------------------------------------------

  ghost predicate Roles(cfg: Config, ds: set<u32>, m: Memory, a: Access) {
    if cfg.Mmu030? then W30.Roles(cfg.tables, ds, m, a) else W40.Roles(cfg.tables40, ds, m, a)
  }

  /** Every walk finds each descriptor word in one role. */
  ghost predicate AllRoles(cfg: Config, ds: set<u32>, m: Memory) {
    forall a: Access :: ValidAccess(cfg, a) && Bypass(cfg, a).None? ==> Roles(cfg, ds, m, a)
  }

  /** The walk for `a` leaves an entry that is good to use: on the 68040 the page's attribute bits do
      not disturb its address; on the 68030 it is not a write stopped by write protection alone. */
  ghost predicate Cacheable(cfg: Config, m: Memory, a: Access) {
    if cfg.Mmu030? then
      var o := W30.Walk(cfg.tables, m, a);
      !(a.write && o.protected && !o.supervisorOnly)
    else
      var o := W40.Walk(cfg.tables40, m, a);
      o.page.Some? ==> P40.AttributesHarmless(o.page.value)
  }

  /** The same access as a read. */
  function AsRead(a: Access): Access {
    a.(write := false)
  }

  /** A 68030 write stopped by write protection leaves the page of the protecting descriptor in the ATC.  It
      serves reads when their own walk reaches that page, without a fault and with nothing left to mark. */
  predicate RightStop(cfg: Config, m: Memory, a: Access)
    requires Valid(cfg) && cfg.Mmu030?
  {
    var stop := WalkFor(cfg, m, a).0;
    var r := WalkFor(cfg, stop.memory, AsRead(a)).0;
    var p := Pow2(W30.PageShift(cfg.tables.tc));
    !r.fault && r.memory == stop.memory && r.out / p == stop.out / p
  }

  /** No read ever meets the entry of such a write, or it serves the reads that do. */
  ghost predicate Excused(cfg: Config, ds: set<u32>, m: Memory, a: Access)
    requires Valid(cfg)
  {
    cfg.Mmu030? && (Bypass(cfg, AsRead(a)).None? ==> Roles(cfg, ds, m, AsRead(a)) && RightStop(cfg, m, a))
  }

  ghost predicate Usable(cfg: Config, ds: set<u32>, m: Memory, a: Access)
    requires Valid(cfg)
  {
    Cacheable(cfg, m, a) || Excused(cfg, ds, m, a)
  }

  /** Agreement on the fault decision, and on the address when there is no fault. */
  ghost predicate Agree(x: Result, y: Result) {
    x.fault == y.fault && (!x.fault ==> x.out == y.out) && x.memory == y.memory
  }

  ghost predicate MemoryGrows(cfg: Config, ds: set<u32>, m: Memory, m': Memory) {
    Grows(cfg.Mmu030?, ds, m, m')
  }

  // ---- the facts about walks, for either MMU -------------------------------------------------

  lemma WalkGrows(cfg: Config, ds: set<u32>, m: Memory, a: Access)
    requires Valid(cfg) && Roles(cfg, ds, m, a)
    ensures MemoryGrows(cfg, ds, m, WalkFor(cfg, m, a).0.memory)
  {
    if cfg.Mmu030? {
      W30.WalkGrows(cfg.tables, ds, m, a);
    } else {
      W40.WalkGrows(cfg.tables40, ds, m, a);
    }
  }

  /** Walks keep roles and cacheability. */
  lemma GrownAlike(cfg: Config, ds: set<u32>, m: Memory, m': Memory, a: Access)
    requires Valid(cfg) && Roles(cfg, ds, m, a) && MemoryGrows(cfg, ds, m, m')
    ensures Roles(cfg, ds, m', a)
    ensures Cacheable(cfg, m', a) == Cacheable(cfg, m, a)
    ensures WalkFor(cfg, m', a).0.fault == WalkFor(cfg, m, a).0.fault
    ensures !WalkFor(cfg, m, a).0.fault ==> WalkFor(cfg, m', a).0.out == WalkFor(cfg, m, a).0.out
  {
    if cfg.Mmu030? {
      GrownAlike030(cfg, ds, m, m', a);
    } else {
      GrownAlike040(cfg, ds, m, m', a);
    }
  }

  lemma GrownAlike030(cfg: Config, ds: set<u32>, m: Memory, m': Memory, a: Access)
    requires Valid(cfg) && cfg.Mmu030? && Roles(cfg, ds, m, a) && MemoryGrows(cfg, ds, m, m')
    ensures Roles(cfg, ds, m', a)
    ensures Cacheable(cfg, m', a) == Cacheable(cfg, m, a)
    ensures WalkFor(cfg, m', a).0.fault == WalkFor(cfg, m, a).0.fault
    ensures !WalkFor(cfg, m, a).0.fault ==> WalkFor(cfg, m', a).0.out == WalkFor(cfg, m, a).0.out
  {
    hide W30.Walk, W30.Roles, Grows, Pow2, P30.FillData;
    GrowsRefl(true, ds, m);
    W30.WalkAlike(cfg.tables, ds, m, m, a, a);
    W30.WalkAlike(cfg.tables, ds, m, m', a, a);
    var o, o' := W30.Walk(cfg.tables, m, a), W30.Walk(cfg.tables, m', a);
    if o.resolved && !W30.Faults(o, a) {
      SameAddress(o.out, o'.out, Pow2(W30.PageShift(cfg.tables.tc)));
    }
  }

  lemma GrownAlike040(cfg: Config, ds: set<u32>, m: Memory, m': Memory, a: Access)
    requires cfg.Mmu040? && Roles(cfg, ds, m, a) && MemoryGrows(cfg, ds, m, m')
    ensures Roles(cfg, ds, m', a)
    ensures Cacheable(cfg, m', a) == Cacheable(cfg, m, a)
    ensures WalkFor(cfg, m', a).0.fault == WalkFor(cfg, m, a).0.fault
    ensures !WalkFor(cfg, m, a).0.fault ==> WalkFor(cfg, m', a).0.out == WalkFor(cfg, m, a).0.out
  {
    hide W40.Walk, W40.Roles, Grows, W40.Physical, P40.FillData;
    W40.WalkAlike(cfg.tables40, ds, m, m', a, a);
    W40.WalkPhysical(cfg.tables40, m, a);
    W40.WalkPhysical(cfg.tables40, m', a);
  }

  lemma SameAddress(x: int, y: int, p: int)
    requires p > 0 && x / p == y / p && x % p == y % p
    ensures x == y
  {
    assert x == p * (x / p) + x % p;
    assert y == p * (y / p) + y % p;
  }

  /** A walk only adds status bits to descriptors, and the same walk again writes nothing and gives the
      same address and fault decision. */
  lemma SecondWalk(cfg: Config, ds: set<u32>, m: Memory, a: Access)
    requires Valid(cfg) && Roles(cfg, ds, m, a)
    ensures var first := WalkFor(cfg, m, a).0;
            var second := WalkFor(cfg, first.memory, a).0;
            && MemoryGrows(cfg, ds, m, first.memory) && second.memory == first.memory
            && second.fault == first.fault && (!first.fault ==> second.out == first.out)
  {
    hide WalkFor, Grows;
    WalkGrows(cfg, ds, m, a);
    GrownAlike(cfg, ds, m, WalkFor(cfg, m, a).0.memory, a);
    NothingToMark(cfg, ds, m, a);
  }

  lemma NothingToMark(cfg: Config, ds: set<u32>, m: Memory, a: Access)
    requires Valid(cfg) && Roles(cfg, ds, m, a)
    ensures var first := WalkFor(cfg, m, a).0; WalkFor(cfg, first.memory, a).0.memory == first.memory
  {
    hide W30.Walk, W40.Walk, W30.Roles, W40.Roles, Grows, P30.FillData, P40.FillData;
    var m' := WalkFor(cfg, m, a).0.memory;
    GrowsRefl(cfg.Mmu030?, ds, m');
    if cfg.Mmu030? {
      W30.WalkQuiet(cfg.tables, ds, m, m', a, a);
    } else {
      W40.WalkQuiet(cfg.tables40, ds, m, m', a, a);
    }
  }

  // ---- entries and where they come from ------------------------------------------------------

  /** Access `a0` filled (`tag`, `data`) by walking memory `m0`, and since then walks have only added
      status bits to reach `m`. */
  ghost predicate FilledFrom(cfg: Config, ds: set<u32>, m0: Memory, a0: Access, m: Memory, tag: u32, data: u32)
    requires Valid(cfg)
  {
    && ValidAccess(cfg, a0) && Roles(cfg, ds, m0, a0) && Usable(cfg, ds, m0, a0)
    && Tag(cfg, a0) == tag && WalkFor(cfg, m0, a0).1 == Some(data)
    && MemoryGrows(cfg, ds, WalkFor(cfg, m0, a0).0.memory, m)
  }

  ghost predicate Filled(cfg: Config, ds: set<u32>, m: Memory, tag: u32, data: u32)
    requires Valid(cfg)
  {
    exists m0: Memory, a0: Access :: FilledFrom(cfg, ds, m0, a0, m, tag, data)
  }

  ghost predicate Coherent(cfg: Config, ds: set<u32>, s: State)
    requires Valid(cfg)
  {
    && Atc.Inv(s.cache)
    && (forall tag: u32, data: u32 ::
          Atc.Holds(s.cache, tag, data) && Atc.IsValid(tag) ==> Filled(cfg, ds, s.memory, tag, data))
  }

  /** The result of a hit. */
  function HitResult(cfg: Config, m: Memory, data: u32, a: Access): Result {
    Result(Atc.HitAddress(data, Offset(cfg, a.addr)), Atc.HitFault(data, a.write), m)
  }

  /** A hit does what a walk would: same answer, nothing to write. */
  lemma HitGood(cfg: Config, ds: set<u32>, m: Memory, data: u32, a: Access)
    requires Valid(cfg) && ValidAccess(cfg, a) && Bypass(cfg, a).None?
    requires Filled(cfg, ds, m, Tag(cfg, a), data)
    requires a.write ==> Atc.Flag(data, Atc.MODIFIED)
    ensures Agree(HitResult(cfg, m, data, a), WalkFor(cfg, m, a).0)
  {
    hide Cacheable, Excused, WalkFor, HitResult, Bypass, Roles, MemoryGrows;
    var m0: Memory, a0: Access :| FilledFrom(cfg, ds, m0, a0, m, Tag(cfg, a), data);
    if cfg.Mmu040? {
      HitGood040(cfg, ds, m0, a0, m, data, a);
    } else if Cacheable(cfg, m0, a0) {
      HitGood030(cfg, ds, m0, a0, m, data, a);
    } else {
      HitStopped(cfg, ds, m0, a0, m, data, a);
    }
  }

  lemma HitGood030(cfg: Config, ds: set<u32>, m0: Memory, a0: Access, m: Memory, data: u32, a: Access)
    requires Valid(cfg) && cfg.Mmu030? && ValidAccess(cfg, a) && Cacheable(cfg, m0, a0)
    requires FilledFrom(cfg, ds, m0, a0, m, Tag(cfg, a), data)
    requires a.write ==> Atc.Flag(data, Atc.MODIFIED)
    ensures Agree(HitResult(cfg, m, data, a), WalkFor(cfg, m, a).0)
  {
    hide W30.Walk, W30.Roles, Grows, Pow2, P30.FillData, P30.Tag, Atc.HitAddress, Atc.HitFault, W30.PageShift;
    var g := cfg.tables;
    var o0, o := W30.Walk(g, m0, a0), W30.Walk(g, m, a);
    var asWrite := a0.write || W30.RootKind(g, a0.fc) == W30.PAGE;
    P30.TagSamePage(g, a0, a);
    P30.HitReads(g, o0, asWrite, a.addr, a.write);
    W30.WalkGrows(g, ds, m0, a0);
    GrowsTrans(true, ds, m0, o0.memory, m);
    W30.WalkAlike(g, ds, m0, m, a0, a);
    W30.WalkQuiet(g, ds, m0, m, a0, a);
    W30.WalkResolves(g, m, a);
    if !W30.Faults(o, a) {
      var p := Pow2(W30.PageShift(g.tc));
      Recompose(o.out, o0.out / p, a.addr % p, p);
    }
  }

  lemma Recompose(x: u32, q: int, r: int, p: int)
    requires p > 0 && x / p == q && x % p == r
    ensures Wrap(q * p + r) == x
  {
    assert x == p * q + r;
    assert q * p == p * q;
  }

  lemma BitOfPage(x: u32, y: u32, ps: nat, k: nat)
    requires ps <= k && x / Pow2(ps) == y / Pow2(ps)
    ensures BitSet(x, k) == BitSet(y, k)
  {
    Pow2Add(ps, k - ps);
    DivDiv(x, Pow2(ps), Pow2(k - ps));
    DivDiv(y, Pow2(ps), Pow2(k - ps));
  }

  /** Transparent translation treats a page alike. */
  lemma SamePageBypass(cfg: Config, a0: Access, a: Access)
    requires cfg.Mmu030? && W30.SamePage(cfg.tables, a0, a) && a0.write == a.write
    ensures Bypass(cfg, a0) == Bypass(cfg, a)
  {
    hide BitSet, Pow2;
    SameMatch(cfg.tables, a0, a, cfg.tt0);
    SameMatch(cfg.tables, a0, a, cfg.tt1);
  }

  lemma SameMatch(g: W30.Tables, a0: Access, a: Access, tt: u32)
    requires W30.SamePage(g, a0, a)
    ensures TransparentMatch(a0.addr, a0.fc, tt) == TransparentMatch(a.addr, a.fc, tt)
  {
    hide BitSet, Pow2;
    PageShiftSmall(g);
    forall k: nat | 24 <= k < 32 ensures BitSet(a0.addr, k) == BitSet(a.addr, k) {
      BitOfPage(a0.addr, a.addr, W30.PageShift(g.tc), k);
    }
  }

  lemma PageShiftSmall(g: W30.Tables)
    ensures W30.PageShift(g.tc) <= 15
  {
  }

  /** A stopped write has met no invalid descriptor. */
  lemma StoppedWrite(cfg: Config, m: Memory, a: Access)
    requires cfg.Mmu030? && Valid(cfg) && !Cacheable(cfg, m, a)
    ensures var o := W30.Walk(cfg.tables, m, a);
            a.write && o.protected && !o.supervisorOnly && !o.invalid
  {
    hide W30.Loop;
    W30.InvalidIsAlone(cfg.tables, m, W30.Start(cfg.tables, a.fc), a);
  }

  /** A hit on the entry of a stopped write. */
  lemma HitStopped(cfg: Config, ds: set<u32>, m0: Memory, a0: Access, m: Memory, data: u32, a: Access)
    requires Valid(cfg) && cfg.Mmu030? && ValidAccess(cfg, a) && Bypass(cfg, a).None? && !Cacheable(cfg, m0, a0)
    requires FilledFrom(cfg, ds, m0, a0, m, Tag(cfg, a), data)
    requires a.write ==> Atc.Flag(data, Atc.MODIFIED)
    ensures Agree(HitResult(cfg, m, data, a), WalkFor(cfg, m, a).0)
  {
    hide W30.Walk, W30.Roles, Grows, Pow2, P30.FillData, P30.Tag, Atc.HitAddress, Atc.HitFault, W30.PageShift, Bypass;
    var g, r := cfg.tables, AsRead(a0);
    var stop := W30.Walk(g, m0, a0);
    StoppedWrite(cfg, m0, a0);
    P30.TagSamePage(g, a0, a);
    P30.HitReads(g, stop, true, a.addr, a.write);
    SamePageBypass(cfg, r, a);
    GrownAlike030(cfg, ds, m0, stop.memory, r) by {
      W30.WalkGrows(g, ds, m0, a0);
    }
    var o0, o := W30.Walk(g, stop.memory, r), W30.Walk(g, m, a);
    W30.WalkAlike(g, ds, stop.memory, m, r, a);
    W30.WalkQuiet(g, ds, stop.memory, m, r, a);
    W30.WalkResolves(g, m, a);
    var p := Pow2(W30.PageShift(g.tc));
    Recompose(o.out, stop.out / p, a.addr % p, p);
  }

  /** Usable entries stay usable while walks add marks. */
  lemma UsableGrows(cfg: Config, ds: set<u32>, m: Memory, m': Memory, a: Access)
    requires Valid(cfg) && Roles(cfg, ds, m, a) && Usable(cfg, ds, m, a) && MemoryGrows(cfg, ds, m, m')
    ensures Roles(cfg, ds, m', a) && Usable(cfg, ds, m', a)
  {
    hide Roles, Cacheable, Bypass, MemoryGrows, RightStop;
    GrownAlike(cfg, ds, m, m', a);
    if !Cacheable(cfg, m, a) && Bypass(cfg, AsRead(a)).None? {
      GrownAlike(cfg, ds, m, m', AsRead(a));
      RightStopGrows(cfg, ds, m, m', a);
    }
  }

  lemma RightStopGrows(cfg: Config, ds: set<u32>, m: Memory, m': Memory, a: Access)
    requires Valid(cfg) && cfg.Mmu030? && Roles(cfg, ds, m, a) && Roles(cfg, ds, m, AsRead(a))
    requires !Cacheable(cfg, m, a) && RightStop(cfg, m, a) && MemoryGrows(cfg, ds, m, m')
    ensures RightStop(cfg, m', a)
  {
    hide W30.Walk, W30.Roles, Grows, Pow2, P30.FillData, W30.PageShift;
    var g, r := cfg.tables, AsRead(a);
    var stop, stop' := W30.Walk(g, m, a), W30.Walk(g, m', a);
    W30.WalkMonotone(g, ds, m, m', a);
    W30.WalkGrows(g, ds, m, a);
    GrownAlike030(cfg, ds, m, stop.memory, r);
    W30.WalkAlike(g, ds, stop.memory, stop'.memory, r, r);
    W30.WalkQuiet(g, ds, stop.memory, stop'.memory, r, r);
  }

  lemma HitGood040(cfg: Config, ds: set<u32>, m0: Memory, a0: Access, m: Memory, data: u32, a: Access)
    requires cfg.Mmu040?
    requires FilledFrom(cfg, ds, m0, a0, m, Tag(cfg, a), data)
    requires a.write ==> Atc.Flag(data, Atc.MODIFIED)
    ensures Agree(HitResult(cfg, m, data, a), WalkFor(cfg, m, a).0)
  {
    hide W40.Walk, W40.Roles, Grows, W40.Physical, P40.FillData, P40.Tag, Atc.HitAddress, Atc.Flag;
    var g := cfg.tables40;
    var o0 := W40.Walk(g, m0, a0);
    P40.TagSamePage(g, a0, a);
    W40.WalkPhysical(g, m0, a0);
    P40.FillFlags(g.large, o0.out, a0.write, o0.page.value);
    P40.HitExact(g.large, a0.write, o0.page.value, a0.addr, a.addr);
    W40.WalkGrows(g, ds, m0, a0);
    GrowsTrans(false, ds, m0, o0.memory, m);
    W40.WalkAlike(g, ds, m0, m, a0, a);
    W40.WalkQuiet(g, ds, m0, m, a0, a);
  }

  lemma FilledGrows(cfg: Config, ds: set<u32>, m: Memory, m': Memory, tag: u32, data: u32)
    requires Valid(cfg) && Filled(cfg, ds, m, tag, data) && MemoryGrows(cfg, ds, m, m')
    ensures Filled(cfg, ds, m', tag, data)
  {
    var m0: Memory, a0: Access :| FilledFrom(cfg, ds, m0, a0, m, tag, data);
    GrowsTrans(cfg.Mmu030?, ds, WalkFor(cfg, m0, a0).0.memory, m, m');
    assert FilledFrom(cfg, ds, m0, a0, m', tag, data);
  }

  // ---- one step ------------------------------------------------------------------------------

  /** An access the theorem covers: bypassed, or with every word in one role and an entry that serves
      every access it can meet. */
  ghost predicate Covered(cfg: Config, ds: set<u32>, m: Memory, a: Access)
    requires Valid(cfg)
  {
    ValidAccess(cfg, a) && (Bypass(cfg, a).None? ==> Roles(cfg, ds, m, a) && Usable(cfg, ds, m, a))
  }

  /** One cached translation does what one walk does, and keeps the cache coherent. */
  lemma Step(cfg: Config, ds: set<u32>, s: State, a: Access)
    requires Valid(cfg) && Coherent(cfg, ds, s) && Covered(cfg, ds, s.memory, a)
    ensures Agree(Cached(cfg, s, a).1, Uncached(cfg, s.memory, a))
    ensures Cached(cfg, s, a).0.memory == Uncached(cfg, s.memory, a).memory
    ensures MemoryGrows(cfg, ds, s.memory, Cached(cfg, s, a).0.memory)
    ensures Coherent(cfg, ds, Cached(cfg, s, a).0)
  {
    hide WalkFor, Atc.Lookup, Atc.Add, Atc.Inv, Atc.Holds, Filled, Grows, Tag, Atc.IsValid, Usable, Roles;
    Atc.InvShaped(s.cache);
    GrowsRefl(cfg.Mmu030?, ds, s.memory);
    if Bypass(cfg, a).None? {
      var tag := Tag(cfg, a);
      var l := Atc.Lookup(s.cache, tag, a.write, cfg.Mmu030?);
      TagIsValid(cfg, a);
      Atc.LookupKeepsInv(s.cache, tag, a.write, cfg.Mmu030?);
      LookupCoherent(cfg, ds, s, tag, a.write);
      if l.Hit? {
        Atc.HitHolds(s.cache, tag, a.write, cfg.Mmu030?);
        HitGood(cfg, ds, s.memory, l.data, a);
      } else {
        WalkGrows(cfg, ds, s.memory, a);
        MissCoherent(cfg, ds, State(l.cache, s.memory), a);
      }
    }
  }

  /** PLOAD leaves the memory of one walk and a coherent cache. */
  lemma LoadStep(cfg: Config, ds: set<u32>, s: State, a: Access)
    requires Valid(cfg) && Coherent(cfg, ds, s) && Covered(cfg, ds, s.memory, a)
    ensures Loaded(cfg, s, a).memory == Uncached(cfg, s.memory, a).memory
    ensures cfg.Mmu040? ==> Agree(Cached(cfg, s, a).1, Uncached(cfg, s.memory, a))
    ensures MemoryGrows(cfg, ds, s.memory, Loaded(cfg, s, a).memory)
    ensures Coherent(cfg, ds, Loaded(cfg, s, a))
    ensures cfg.Mmu030? && Bypass(cfg, a).None? ==> Atc.Lookup(Loaded(cfg, s, a).cache, Tag(cfg, a), false, true).Hit?
  {
    hide Coherent, Usable, Roles, Cached, Bypass, Grows, Atc.Add, Atc.Inv, Atc.Lookup, Atc.IsValid, Tag, W30.Walk,
         W40.Walk, P30.FillData, P40.FillData;
    CoherentInv(cfg, ds, s);
    if cfg.Mmu040? || Bypass(cfg, a).Some? {
      Step(cfg, ds, s, a);
    } else {
      WalkGrows(cfg, ds, s.memory, a);
      MissCoherent(cfg, ds, s, a);
      TagIsValid(cfg, a);
      Atc.AddThenLookup(s.cache, Tag(cfg, a), WalkFor(cfg, s.memory, a).1.value, true);
    }
  }

  lemma CoherentInv(cfg: Config, ds: set<u32>, s: State)
    requires Valid(cfg) && Coherent(cfg, ds, s)
    ensures Atc.Shaped(s.cache) && Atc.Inv(s.cache)
  {
  }

  lemma LookupCoherent(cfg: Config, ds: set<u32>, s: State, tag: u32, write: bool)
    requires Valid(cfg) && Coherent(cfg, ds, s) && Atc.IsValid(tag)
    ensures Coherent(cfg, ds, State(Atc.Lookup(s.cache, tag, write, cfg.Mmu030?).cache, s.memory))
  {
    hide Filled, Atc.Lookup, Atc.Inv, Atc.Holds, Atc.IsValid;
    Atc.InvShaped(s.cache);
    var c := Atc.Lookup(s.cache, tag, write, cfg.Mmu030?).cache;
    Atc.LookupKeepsInv(s.cache, tag, write, cfg.Mmu030?);
    forall t: u32, d: u32 | Atc.Holds(c, t, d) && Atc.IsValid(t)
      ensures Filled(cfg, ds, s.memory, t, d)
    {
      Atc.LookupHolds(s.cache, tag, write, cfg.Mmu030?, t, d);
    }
  }

  /** After a miss, the walk's memory and the entry it adds. */
  lemma MissCoherent(cfg: Config, ds: set<u32>, s: State, a: Access)
    requires Valid(cfg) && Coherent(cfg, ds, s) && ValidAccess(cfg, a)
    requires Roles(cfg, ds, s.memory, a) && Usable(cfg, ds, s.memory, a)
    ensures var (r, fill) := WalkFor(cfg, s.memory, a);
            Coherent(cfg, ds, State(if fill.Some? then Atc.Add(s.cache, Tag(cfg, a), fill.value, cfg.Mmu030?)
                                    else s.cache, r.memory))
  {
    hide WalkFor, Atc.Add, Atc.Inv, Atc.Holds, Tag, Grows, Atc.IsValid, Cacheable, Roles;
    Atc.InvShaped(s.cache);
    var (r, fill) := WalkFor(cfg, s.memory, a);
    var tag := Tag(cfg, a);
    WalkGrows(cfg, ds, s.memory, a);
    GrowsRefl(cfg.Mmu030?, ds, r.memory);
    TagIsValid(cfg, a);
    forall t: u32, d: u32 | Atc.Holds(s.cache, t, d) && Atc.IsValid(t)
      ensures Filled(cfg, ds, r.memory, t, d)
    {
      FilledGrows(cfg, ds, s.memory, r.memory, t, d);
    }
    if fill.Some? {
      Atc.AddKeepsInv(s.cache, tag, fill.value, cfg.Mmu030?);
      assert FilledFrom(cfg, ds, s.memory, a, r.memory, tag, fill.value);
      var c := Atc.Add(s.cache, tag, fill.value, cfg.Mmu030?);
      forall t: u32, d: u32 | Atc.Holds(c, t, d) && Atc.IsValid(t)
        ensures Filled(cfg, ds, r.memory, t, d)
      {
        Atc.AddHolds(s.cache, tag, fill.value, cfg.Mmu030?, t, d);
      }
    }
  }
}
