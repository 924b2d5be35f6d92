/** Runs of translations, PLOADs and flushes: the ATC refines the table walk. */
module Runs {
  import opened Words
  import opened Powers
  import opened Descriptors
  import opened Translation
  import Atc
  import W30 = Walk030
  import W40 = Walk040
  import P30 = Pack030
  import P40 = Pack040

  /** PFLUSHA, a flush of the entries a condition selects (every other PFLUSH form), an access, or PLOAD. */
  datatype Op =
    | FlushAll
    | Flush(drop: (int, int) -> bool)
    | Translate(access: Access)
    | Load(access: Access)

  /** The operation walks for an access. */
  predicate Walks(op: Op) {
    op.Translate? || op.Load?
  }

  /** It also gives an address or a bus error, as PLOAD does on the 68040. */
  predicate Answers(cfg: Config, op: Op) {
    op.Translate? || (op.Load? && cfg.Mmu040?)
  }

  function After(cfg: Config, s: State, op: Op): (s': State)
    requires Valid(cfg) && Atc.Shaped(s.cache)
    ensures Atc.Shaped(s'.cache)
  {
    if op.FlushAll? then State(Atc.FlushAll(s.cache), s.memory)
    else if op.Flush? then State(Atc.Flush(s.cache, op.drop), s.memory)
    else if op.Load? then Loaded(cfg, s, op.access)
    else Cached(cfg, s, op.access).0
  }

  /** From cache state `s` and, without a cache, memory `m`, every access of the run gets the same answer and
      leaves the same memory; PLOAD leaves the memory of one walk. */
  ghost predicate Agrees(cfg: Config, s: State, m: Memory, ops: seq<Op>)
    requires Valid(cfg) && Atc.Shaped(s.cache)
    decreases |ops|
  {
    ops == [] ||
    (var op := ops[0];
     var m' := if Walks(op) then Uncached(cfg, m, op.access).memory else m;
     && (Answers(cfg, op) ==> Agree(Cached(cfg, s, op.access).1, Uncached(cfg, m, op.access)))
     && (op.Load? ==> After(cfg, s, op).memory == m')
     && Agrees(cfg, After(cfg, s, op), m', ops[1..]))
  }

  /** Every access and PLOAD of the run is covered in memory `m`. */
  ghost predicate AllCovered(cfg: Config, ds: set<u32>, m: Memory, ops: seq<Op>)
    requires Valid(cfg)
  {
    forall i :: 0 <= i < |ops| && Walks(ops[i]) ==> Covered(cfg, ds, m, ops[i].access)
  }

  function Flushed(m: Memory): State {
    State(Atc.EMPTY, m)
  }

  lemma FlushedCoherent(cfg: Config, ds: set<u32>, m: Memory)
    requires Valid(cfg)
    ensures Coherent(cfg, ds, Flushed(m))
  {
    Atc.EmptyKeepsInv();
    Atc.ZeroIsEmpty();
  }

  lemma AfterFlush(cfg: Config, ds: set<u32>, s: State, op: Op)
    requires Valid(cfg) && Coherent(cfg, ds, s) && !Walks(op)
    ensures Coherent(cfg, ds, After(cfg, s, op))
  {
    hide Atc.Inv, Atc.Holds, Atc.IsValid, Filled, Atc.Flush, Atc.FlushAll;
    Atc.InvShaped(s.cache);
    if op.FlushAll? {
      Atc.FlushAllKeepsInv(s.cache);
    } else {
      Atc.FlushKeepsInv(s.cache, op.drop);
      forall t: u32, d: u32 | Atc.Holds(Atc.Flush(s.cache, op.drop), t, d) && Atc.IsValid(t)
        ensures Filled(cfg, ds, s.memory, t, d)
      {
        Atc.FlushHolds(s.cache, op.drop, t, d);
      }
    }
  }

  lemma CoveredGrows(cfg: Config, ds: set<u32>, m: Memory, m': Memory, ops: seq<Op>)
    requires Valid(cfg) && AllCovered(cfg, ds, m, ops) && MemoryGrows(cfg, ds, m, m')
    ensures AllCovered(cfg, ds, m', ops)
  {
    hide Roles, Usable, Bypass, MemoryGrows;
    forall i | 0 <= i < |ops| && Walks(ops[i])
      ensures Covered(cfg, ds, m', ops[i].access)
    {
      if Bypass(cfg, ops[i].access).None? {
        UsableGrows(cfg, ds, m, m', ops[i].access);
      }
    }
  }

  /** The ATC refines the table walk: from a coherent state, every run of covered accesses and PLOADs and
      any flushes gives the same addresses, fault decisions and memory as always walking. */
  lemma {:induction false} Refines(cfg: Config, ds: set<u32>, s: State, ops: seq<Op>)
    requires Valid(cfg) && Coherent(cfg, ds, s) && AllCovered(cfg, ds, s.memory, ops)
    ensures Agrees(cfg, s, s.memory, ops)
    decreases |ops|
  {
    hide Coherent, Covered, Cached, Loaded, Uncached, MemoryGrows, Atc.Inv;
    if ops != [] {
      var op := ops[0];
      CoherentInv(cfg, ds, s);
      if op.Translate? {
        Step(cfg, ds, s, op.access);
        CoveredGrows(cfg, ds, s.memory, After(cfg, s, op).memory, ops);
      } else if op.Load? {
        LoadStep(cfg, ds, s, op.access);
        CoveredGrows(cfg, ds, s.memory, After(cfg, s, op).memory, ops);
      } else {
        AfterFlush(cfg, ds, s, op);
      }
      CoherentInv(cfg, ds, After(cfg, s, op));
      Refines(cfg, ds, After(cfg, s, op), ops[1..]);
    }
  }

  /** Every covered run from a flushed ATC. */
  lemma RefinesFromFlushed(cfg: Config, ds: set<u32>, m: Memory, ops: seq<Op>)
    requires Valid(cfg) && AllCovered(cfg, ds, m, ops)
    ensures Agrees(cfg, Flushed(m), m, ops)
  {
    FlushedCoherent(cfg, ds, m);
    Refines(cfg, ds, Flushed(m), ops);
  }

  // ---- exactly when the 68040 cache agrees ---------------------------------------------------

  lemma MissOnEmpty(tag: u32, write: bool, touch: bool)
    requires Atc.IsValid(tag)
    ensures Atc.Lookup(Atc.EMPTY, tag, write, touch) == Atc.Miss(Atc.EMPTY)
  {
    Atc.ZeroIsEmpty();
    hide Atc.IsValid;
  }

  /** The 68040 ATC gives the walk's answers on every run exactly when no page's G, U0 or U1 bit falls
      on a clear physical address bit. */
  lemma RefinesExactly040(cfg: Config, ds: set<u32>, m: Memory)
    requires cfg.Mmu040? && AllRoles(cfg, ds, m)
    ensures (forall ops: seq<Op> :: Agrees(cfg, Flushed(m), m, ops))
       <==> (forall a: Access :: Bypass(cfg, a).None? ==> Cacheable(cfg, m, a))
  {
    hide Agrees, Bypass, Cacheable, Roles, Atc.Inv;
    Atc.EmptyKeepsInv();
    if forall a: Access :: Bypass(cfg, a).None? ==> Cacheable(cfg, m, a) {
      forall ops: seq<Op> ensures Agrees(cfg, Flushed(m), m, ops) {
        RefinesFromFlushed(cfg, ds, m, ops);
      }
    } else {
      var a: Access :| Bypass(cfg, a).None? && !Cacheable(cfg, m, a);
      HarmfulAttributes(cfg, ds, m, a);
      assert !Agrees(cfg, Flushed(m), m, [Translate(AsRead(a)), Translate(AsRead(a))]);
    }
  }

  /** A page with a harmful attribute bit is read right once and wrong the second time. */
  lemma HarmfulAttributes(cfg: Config, ds: set<u32>, m: Memory, a: Access)
    requires cfg.Mmu040? && Bypass(cfg, a).None? && Roles(cfg, ds, m, a) && !Cacheable(cfg, m, a)
    ensures !Agrees(cfg, Flushed(m), m, [Translate(AsRead(a)), Translate(AsRead(a))])
  {
    hide W40.Walk, W40.Roles, W40.Physical, P40.FillData, Atc.Inv, Atc.HitAddress, Atc.HitFault, Cached, Grows;
    var g, r := cfg.tables40, AsRead(a);
    BypassAsRead(cfg, a);
    GrowsRefl(false, ds, m);
    W40.WalkPhysical(g, m, a);
    W40.WalkAlike(g, ds, m, m, a, r);
    var o := W40.Walk(g, m, r);
    W40.WalkPhysical(g, m, r);
    W40.WalkGrows(g, ds, m, r);
    W40.WalkAlike(g, ds, m, o.memory, r, r);
    P40.HitExact(g.large, false, o.page.value, r.addr, r.addr);
    P40.FillFlags(g.large, o.out, false, o.page.value);
    FillThenRead(cfg, m, r, r);
    TwoAccesses(cfg, m, r, r);
  }

  lemma BypassAsRead(cfg: Config, a: Access)
    requires cfg.Mmu040? && Bypass(cfg, a).None?
    ensures Bypass(cfg, AsRead(a)).None?
  {
    hide TransparentMatch, BitSet;
  }

  // ---- what the 68030 cache does after a protected write -------------------------------------

  /** A write stopped by write protection alone leaves an entry behind.  A read of the page right after
      it gets the page that holds the protecting descriptor, so the run agrees with walking exactly when
      the walk for the read finds that very page, with nothing left to mark. */
  lemma ProtectedWriteThenRead(cfg: Config, ds: set<u32>, m: Memory, a: Access)
    requires cfg.Mmu030? && Valid(cfg) && ValidAccess(cfg, a) && a.write
    requires Bypass(cfg, a).None? && Bypass(cfg, AsRead(a)).None?
    requires Roles(cfg, ds, m, a) && Roles(cfg, ds, m, AsRead(a)) && !Cacheable(cfg, m, a)
    ensures Agrees(cfg, Flushed(m), m, [Translate(a), Translate(AsRead(a))]) <==> RightStop(cfg, m, a)
  {
    hide W30.Walk, W30.Roles, Grows, Pow2, P30.FillData, Atc.Inv, Atc.HitAddress, Atc.HitFault, Cached, Bypass,
         W30.PageShift;
    var g, r := cfg.tables, AsRead(a);
    var stop := W30.Walk(g, m, a);
    var read := W30.Walk(g, stop.memory, r);
    StoppedWrite(cfg, m, a);
    W30.WalkGrows(g, ds, m, a);
    GrownAlike030(cfg, ds, m, stop.memory, r);
    GrowsRefl(true, ds, stop.memory);
    W30.WalkAlike(g, ds, stop.memory, stop.memory, r, r);
    W30.WalkResolves(g, stop.memory, r);
    FillThenRead(cfg, m, a, r);
    P30.HitReads(g, stop, true, a.addr, false);
    assert WalkFor(cfg, stop.memory, r).0 == Result(read.out, W30.Faults(read, r), read.memory);
    assert WalkFor(cfg, m, a).1 == Some(P30.FillData(g, stop, true)) && WalkFor(cfg, m, a).0.memory == stop.memory;
    hide WalkFor, W30.Faults;
    var k := W30.PageShift(g.tc);
    PageShiftSmall(g);
    InFrame(stop.out, a.addr % Pow2(k), k);
    if !W30.Faults(read, r) && read.out / Pow2(k) == stop.out / Pow2(k) {
      Recompose(read.out, read.out / Pow2(k), a.addr % Pow2(k), Pow2(k));
    }
    TwoAccesses(cfg, m, a, r);
    var hit := HitResult(cfg, stop.memory, P30.FillData(g, stop, true), r);
    assert hit.fault == false;
    assert hit.out == Wrap(stop.out / Pow2(k) * Pow2(k) + a.addr % Pow2(k));
    assert Agree(hit, WalkFor(cfg, stop.memory, r).0)
      <==> !W30.Faults(read, r) && read.memory == stop.memory && read.out / Pow2(k) == stop.out / Pow2(k);
  }

  /** A run of two accesses agrees when both do. */
  lemma TwoAccesses(cfg: Config, m: Memory, a: Access, r: Access)
    requires Valid(cfg)
    ensures var (s1, first) := Cached(cfg, Flushed(m), a);
            Agrees(cfg, Flushed(m), m, [Translate(a), Translate(r)])
            <==>
            && Agree(first, Uncached(cfg, m, a))
            && Agree(Cached(cfg, s1, r).1, Uncached(cfg, Uncached(cfg, m, a).memory, r))
  {
    hide Cached, Uncached;
    var run := [Translate(a), Translate(r)];
    assert run[1..] == [Translate(r)] && [Translate(r)][1..] == [];
    var s1, m1 := Cached(cfg, Flushed(m), a).0, Uncached(cfg, m, a).memory;
    assert Agrees(cfg, s1, m1, [Translate(r)]) <==> Agree(Cached(cfg, s1, r).1, Uncached(cfg, m1, r)) by {
      assert Agrees(cfg, Cached(cfg, s1, r).0, Uncached(cfg, m1, r).memory, []);
    }
  }

  /** Another offset in the page of `x0`. */
  lemma InFrame(x0: u32, off: int, k: nat)
    requires k <= 32 && 0 <= off < Pow2(k)
    ensures Wrap(x0 / Pow2(k) * Pow2(k) + off) / Pow2(k) == x0 / Pow2(k)
  {
    Pow2Add(k, 32 - k);
    Pow2Is32();
    InFrameCore(x0, off, Pow2(k), Pow2(32 - k));
  }

  lemma QuotientNotNegative(x: int, p: int)
    requires x >= 0 && p > 0
    ensures x / p >= 0
  {
  }

  lemma InFrameCore(x0: u32, off: int, p: int, n: int)
    requires p > 0 && 0 <= off < p && p * n == TWO_32
    ensures Wrap(x0 / p * p + off) / p == x0 / p
  {
    var q := x0 / p;
    assert x0 == p * q + x0 % p;
    assert q >= 0 by { QuotientNotNegative(x0, p); }
    if q >= n {
      MulLess(p, n, q + 1);
    }
    MulLess(p, q, n);
    assert q * p == p * q;
    DivUnique(q * p + off, p, q, off);
  }

  /** The accesses and PLOADs of the run are ones the processor makes. */
  predicate AllValid(cfg: Config, ops: seq<Op>) {
    forall i :: 0 <= i < |ops| && Walks(ops[i]) ==> ValidAccess(cfg, ops[i].access)
  }

  /** The walk for `a` may leave an entry in the ATC that a later read meets. */
  predicate Exposed(cfg: Config, a: Access) {
    ValidAccess(cfg, a) && a.write && Bypass(cfg, a).None? && Bypass(cfg, AsRead(a)).None?
  }

  /** The 68030 ATC gives the walk's answers on every run exactly when no write that write protection alone
      stops leaves an entry behind that is wrong for reads. */
  lemma RefinesExactly030(cfg: Config, ds: set<u32>, m: Memory)
    requires cfg.Mmu030? && Valid(cfg) && AllRoles(cfg, ds, m)
    ensures (forall ops: seq<Op> :: AllValid(cfg, ops) ==> Agrees(cfg, Flushed(m), m, ops))
       <==> (forall a: Access :: Exposed(cfg, a) ==> Cacheable(cfg, m, a) || RightStop(cfg, m, a))
  {
    hide Agrees, Bypass, Cacheable, Roles, RightStop, Atc.Inv;
    Atc.EmptyKeepsInv();
    if forall a: Access :: Exposed(cfg, a) ==> Cacheable(cfg, m, a) || RightStop(cfg, m, a) {
      forall ops: seq<Op> | AllValid(cfg, ops) ensures Agrees(cfg, Flushed(m), m, ops) {
        AllUsable(cfg, ds, m, ops);
        RefinesFromFlushed(cfg, ds, m, ops);
      }
    } else {
      var a: Access :| Exposed(cfg, a) && !Cacheable(cfg, m, a) && !RightStop(cfg, m, a);
      ProtectedWriteThenRead(cfg, ds, m, a);
      assert AllValid(cfg, [Translate(a), Translate(AsRead(a))]);
    }
  }

  /** In particular on every run where no descriptor is write protected. */
  lemma UnprotectedRefines(cfg: Config, ds: set<u32>, m: Memory, ops: seq<Op>)
    requires cfg.Mmu030? && Valid(cfg) && AllRoles(cfg, ds, m) && W30.NoneProtected(ds, m) && AllValid(cfg, ops)
    ensures Agrees(cfg, Flushed(m), m, ops)
  {
    hide Agrees, Bypass, W30.NoneProtected, W30.Loop, W30.RolesFrom, RightStop;
    forall i | 0 <= i < |ops| && Walks(ops[i]) ensures Covered(cfg, ds, m, ops[i].access) {
      var a := ops[i].access;
      if Bypass(cfg, a).None? {
        W30.LoopUnprotected(cfg.tables, ds, m, W30.Start(cfg.tables, a.fc), a);
      }
    }
    RefinesFromFlushed(cfg, ds, m, ops);
  }

  lemma AllUsable(cfg: Config, ds: set<u32>, m: Memory, ops: seq<Op>)
    requires cfg.Mmu030? && Valid(cfg) && AllRoles(cfg, ds, m) && AllValid(cfg, ops)
    requires forall a: Access :: Exposed(cfg, a) ==> Cacheable(cfg, m, a) || RightStop(cfg, m, a)
    ensures AllCovered(cfg, ds, m, ops)
  {
    hide Bypass, Roles, RightStop, Cacheable;
    forall i | 0 <= i < |ops| && Walks(ops[i]) ensures Covered(cfg, ds, m, ops[i].access) {
      var a := ops[i].access;
      if Bypass(cfg, a).None? && !Cacheable(cfg, m, a) {
        StoppedWrite(cfg, m, a);
        assert Bypass(cfg, AsRead(a)).None? ==> Exposed(cfg, a);
      }
    }
  }

  /** From a flushed cache, an access and then a read of its page: the read hits the first one's entry. */
  lemma FillThenRead(cfg: Config, m: Memory, a: Access, r: Access)
    requires Valid(cfg) && Bypass(cfg, a).None? && Bypass(cfg, r).None? && r == AsRead(a)
    requires WalkFor(cfg, m, a).1.Some?
    ensures var s1 := Cached(cfg, Flushed(m), a).0;
            && Cached(cfg, Flushed(m), a).1 == WalkFor(cfg, m, a).0
            && s1.memory == WalkFor(cfg, m, a).0.memory
            && Cached(cfg, s1, r).1 == HitResult(cfg, s1.memory, WalkFor(cfg, m, a).1.value, r)
  {
    hide Atc.Inv, Atc.IsValid, Atc.Add, WalkFor, Bypass;
    var tag, d := Tag(cfg, a), WalkFor(cfg, m, a).1.value;
    TagIsValid(cfg, a);
    Atc.EmptyKeepsInv();
    MissOnEmpty(tag, a.write, cfg.Mmu030?);
    Atc.AddKeepsInv(Atc.EMPTY, tag, d, cfg.Mmu030?);
    Atc.AddThenLookup(Atc.EMPTY, tag, d, cfg.Mmu030?);
    hide Atc.Lookup;
  }
}
