/** The MMU as the emulator keeps it: ATC arrays, history, descriptor memory and the bus error
    latch, updated in place.  Every method is proved against the functions of the value model. */
module Mmu {
  import opened Words
  import opened Powers
  import opened Shifts
  import opened Descriptors
  import opened Translation
  import Atc
  import W30 = Walk030
  import W40 = Walk040
  import P30 = Pack030
  import P40 = Pack040
  import Transparent

  class Unit {
    const config: Config
    const tag: array<u32>
    const data: array<u32>
    var history: set<nat>
    var memory: Memory
    /** mmu_tmp_buserror_occurred and the address latched with its first increment. */
    var busErrors: nat
    var busErrorAddress: u32

    ghost predicate Valid()
      reads this
    {
      && tag.Length == data.Length == Atc.ENTRIES && tag != data
      && Translation.Valid(config)
    }

    ghost function Cache(): Atc.Cache
      reads this, tag, data
    {
      Atc.Cache(tag[..], data[..], history)
    }

    ghost function State(): Translation.State
      reads this, tag, data
    {
      Translation.State(Cache(), memory)
    }

    constructor (config: Config, memory: Memory)
      requires Translation.Valid(config)
      ensures Valid() && this.config == config
      ensures State() == Translation.State(Atc.EMPTY, memory) && busErrors == 0
      ensures fresh(tag) && fresh(data)
    {
      this.config := config;
      this.memory := memory;
      tag := new u32[Atc.ENTRIES](_ => 0);
      data := new u32[Atc.ENTRIES](_ => 0);
      history := {};
      busErrors := 0;
      busErrorAddress := 0;
      new;
      assert tag[..] == Atc.Zeros(Atc.ENTRIES) && data[..] == Atc.Zeros(Atc.ENTRIES);
    }

    // ---- bus errors ----------------------------------------------------------------------------

    /** Count a bus error and latch the address of the first. */
    method SetBusError(addr: u32)
      modifies this`busErrors, this`busErrorAddress
      ensures busErrors == old(busErrors) + 1
      ensures busErrorAddress == if old(busErrors) == 0 then addr else old(busErrorAddress)
    {
      busErrors := busErrors + 1;
      if busErrors == 1 {
        busErrorAddress := addr;
      }
    }

    // ---- the ATC -------------------------------------------------------------------------------

    /** After an entry is used its bit is set, another one is clear, and so the next victim is another entry. */
    method UpdateHistory(entry: nat)
      requires entry < Atc.ENTRIES
      modifies this`history
      ensures history == Atc.Touch(old(history), entry)
      ensures entry in history && !Atc.Full(history)
      ensures Atc.Victim(history, 0) !in history && Atc.Victim(history, 0) != entry
    {
      Atc.TouchedIsNotVictim(history, entry);
      history := history + {entry};
      if Atc.Full(history) {
        history := {entry};
      }
    }

    method FindVictim() returns (victim: nat)
      ensures victim == Atc.Victim(history, 0)
    {
      for i := 0 to Atc.ENTRIES
        invariant Atc.Victim(history, 0) == Atc.Victim(history, i)
      {
        if i !in history {
          return i;
        }
      }
      return 0;
    }

    /** Replace the entry for `t`, or fill an empty one, or evict the victim. */
    method Add(t: u32, d: u32, touchReplaced: bool)
      requires Valid() && Atc.Inv(Cache())
      modifies this`history, tag, data
      ensures Cache() == Atc.Add(old(Cache()), t, d, touchReplaced)
    {
      for i := 0 to Atc.ENTRIES
        invariant Cache() == old(Cache())
        invariant Atc.IndexOf(tag[..], t, 0) == Atc.IndexOf(tag[..], t, i)
      {
        if tag[i] == t {
          data[i] := d;
          if touchReplaced {
            UpdateHistory(i);
          }
          return;
        }
      }
      var found := -1;
      for i := 0 to Atc.ENTRIES
        invariant Cache() == old(Cache())
        invariant found == -1 && Atc.FreeSlot(tag[..], 0) == Atc.FreeSlot(tag[..], i)
      {
        if !Atc.IsValid(tag[i]) {
          found := i;
          break;
        }
      }
      if found == -1 {
        found := FindVictim();
      }
      tag[found] := t;
      data[found] := d;
      UpdateHistory(found);
    }

    /** Search for `t`.  An entry met by a write without the modified flag is emptied and the search
        goes on. */
    method Lookup(t: u32, write: bool, touchHit: bool) returns (hit: bool, d: u32)
      requires Valid() && Atc.Inv(Cache()) && Atc.IsValid(t)
      modifies this`history, tag
      ensures Cache() == Atc.Lookup(old(Cache()), t, write, touchHit).cache
      ensures hit == Atc.Lookup(old(Cache()), t, write, touchHit).Hit?
      ensures hit ==> d == Atc.Lookup(old(Cache()), t, write, touchHit).data
    {
      Atc.ZeroIsEmpty();
      ghost var c := Cache();
      ghost var k := Atc.IndexOf(c.tag, t, 0);
      ghost var r := Atc.Lookup(c, t, write, touchHit);
      for i := 0 to Atc.ENTRIES
        invariant i <= k ==> Cache() == c && k == Atc.IndexOf(c.tag, t, i)
        invariant i > k ==> r.Miss? && Cache() == r.cache
      {
        if tag[i] == t {
          if write && !Atc.Flag(data[i], Atc.MODIFIED) {
            tag[i] := 0;
            continue;
          }
          if touchHit {
            UpdateHistory(i);
          }
          return true, data[i];
        }
      }
      return false, 0;
    }

    method FlushAll()
      requires Valid()
      modifies this`history, tag
      ensures Cache() == Atc.FlushAll(old(Cache()))
      ensures history == {} && forall i :: 0 <= i < Atc.ENTRIES ==> tag[i] == 0
    {
      for i := 0 to Atc.ENTRIES
        invariant forall j :: 0 <= j < i ==> tag[j] == 0
        invariant data[..] == old(data[..])
      {
        tag[i] := 0;
      }
      history := {};
      assert tag[..] == Atc.Zeros(Atc.ENTRIES);
    }

    /** Any of the selective PFLUSH forms. */
    method Flush(drop: (int, int) -> bool)
      requires Valid()
      modifies tag
      ensures Cache() == Atc.Flush(old(Cache()), drop)
    {
      for i := 0 to Atc.ENTRIES
        invariant forall j :: 0 <= j < i ==> tag[j] == if drop(old(tag[j]), data[j]) then 0 else old(tag[j])
        invariant forall j :: i <= j < Atc.ENTRIES ==> tag[j] == old(tag[j])
      {
        if drop(tag[i], data[i]) {
          tag[i] := 0;
        }
      }
      assert tag[..] == Atc.Dropped(old(tag[..]), data[..], drop);
    }

    // ---- the 68030 table walk ------------------------------------------------------------------

    /** Set U, or U and M on a write to an unmodified page that may be written. */
    method UpdateDescriptor(p: u32, e: Word, write: bool)
      requires Read(memory, p) == e
      modifies this`memory
      ensures memory == W30.Update(old(memory), p, e, write)
    {
      if Type(e) == W30.PAGE && write && !e.modified && !Protected(e) {
        memory := memory[p := e.(used := true, modified := true)];
      } else if Type(e) != W30.INVALID && !e.used {
        memory := memory[p := e.(used := true)];
      }
    }

    /** Gather a valid descriptor's write protection, and from a long one the supervisor bit for user accesses. */
    static method UpdateSr(e: Word, fc: nat, isLong: bool, wasProtected: bool, wasSupervisorOnly: bool)
      returns (protected: bool, supervisorOnly: bool)
      ensures protected == (wasProtected || (Type(e) != W30.INVALID && Protected(e)))
      ensures supervisorOnly == (wasSupervisorOnly
                                 || (Type(e) != W30.INVALID && isLong && UserAccess(fc) && W30.SupervisorBit(e)))
    {
      protected, supervisorOnly := wasProtected, wasSupervisorOnly;
      if Type(e) == W30.INVALID {
        return;
      }
      if Protected(e) {
        protected := true;
      }
      if isLong && UserAccess(fc) && W30.SupervisorBit(e) {
        supervisorOnly := true;
      }
    }

    /** Read the short or long descriptor for the index bits at the top of `addrIn`. */
    method ReadDescriptor(c: W30.Cursor, addrIn: u32, width: nat, a: Access) returns (f: W30.Fetched)
      requires Valid() && config.Mmu030?
      requires width == W30.Width(config.tables.tc, c.position) && addrIn == Shl(a.addr, c.consumed)
      ensures f == W30.Fetch(config.tables, memory, c, a)
    {
      var index := if c.position == 16 then a.fc else Shr(addrIn, 32 - width);
      var indirect := W30.MayBeIndirect(config.tables, c.position);
      if c.kind == W30.SHORT {
        f := W30.FetchShort(memory, Wrap(c.table + index * 4), indirect);
      } else {
        f := W30.FetchLong(memory, Wrap(c.table + index * 8), indirect);
      }
    }

    /** One level: read the descriptor, gather its status, and write U and M back. */
    method Descend(c: W30.Cursor, addrIn: u32, a: Access) returns (next: W30.Cursor)
      requires Valid() && config.Mmu030? && addrIn == Shl(a.addr, c.consumed)
      modifies this`memory
      ensures var f := W30.Fetch(config.tables, old(memory), c, a);
              memory == W30.Update(old(memory), f.at, f.word, a.write) && next == W30.Advance(config.tables, c, f, a)
    {
      hide W30.Fetch, W30.Update, W30.Width, W30.SupervisorBit, UserAccess, Shl, Protected;
      var g := config.tables;
      var width := W30.Width(g.tc, c.position);
      var f := ReadDescriptor(c, addrIn, width, a);
      W30.FetchedWord(g, memory, c, a);
      var protected, supervisorOnly := UpdateSr(f.word, a.fc, c.kind == W30.LONG, c.protected, c.supervisorOnly);
      UpdateDescriptor(f.at, f.word, a.write);
      next := W30.Cursor(Type(f.word), f.table, c.position - 4, c.consumed + width, c.level + f.levels,
                         protected, supervisorOnly, f.at);
    }

    /** The level loop: shifts the address left as index fields are consumed, and leaves when a page, an
        invalid descriptor or an access violation is met. */
    method WalkTables(a: Access)
      returns (out: u32, invalid: bool, protected: bool, supervisorOnly: bool, level: nat, resolved: bool)
      requires Valid() && config.Mmu030? && W30.Walk(config.tables, memory, a).defined
      modifies this`memory
      ensures W30.Outcome(true, out, memory, invalid, protected, supervisorOnly, level, resolved)
              == W30.Walk(config.tables, old(memory), a)
      ensures resolved && level <= 5
    {
      hide W30.Fetch, W30.Update, Pow2, W30.Width, UserAccess, Shl, Shr, Wrap, W30.PageShift, W30.InitialShift,
           W30.RootKind, W30.RootTable, W30.Loop, ClearLow, Type;
      var g := config.tables;
      ghost var walk := W30.Walk(g, memory, a);
      W30.WalkResolves(g, memory, a);
      var position := if W30.FunctionCodeLookup(g.tc) then 16 else 12;
      var c := W30.Cursor(W30.RootKind(g, a.fc), W30.RootTable(g, a.fc), position, W30.InitialShift(g.tc),
                          0, false, false, 0);
      var addrIn := Shl(a.addr, c.consumed);
      while true
        invariant addrIn == Shl(a.addr, c.consumed)
        invariant W30.Loop(g, memory, c, a) == walk
        decreases c.position
      {
        W30.LoopStep(g, memory, c, a);
        if c.kind == W30.INVALID {
          return c.last, true, false, false, c.level, true;
        }
        if c.kind == W30.PAGE {
          out := Wrap(ClearLow(c.table, W30.PageShift(g.tc)) + Shr(addrIn, c.consumed));
          return out, false, c.protected, c.supervisorOnly, c.level, true;
        }
        var consumed, width := c.consumed, W30.Width(g.tc, c.position);
        c := Descend(c, addrIn, a);
        if (a.write && c.protected) || (UserAccess(a.fc) && c.supervisorOnly) {
          return c.last, false, c.protected, c.supervisorOnly, c.level, true;
        }
        if c.level >= W30.LEVEL_LIMIT {
          return c.last, false, c.protected, c.supervisorOnly, c.level, false;
        }
        ShlMore(a.addr, consumed, width);
        addrIn := Shl(addrIn, width);
      }
    }

    /** Pack the page and the walk's status into a data word and cache it; `read` is the emulator's
        rw argument. */
    method AtcAdd030(a: Access, ghost o: W30.Outcome, physical: u32, read: bool, invalid: bool, protected: bool,
            supervisorOnly: bool)
      requires Valid() && config.Mmu030? && Atc.Inv(Cache())
      requires (o.out, o.invalid, o.protected, o.supervisorOnly) == (physical, invalid, protected, supervisorOnly)
      modifies this`history, tag, data
      ensures Cache() == Atc.Add(old(Cache()), P30.Tag(config.tables, a), P30.FillData(config.tables, o, !read), true)
    {
      var d: int := P30.PageBits(config.tables, physical);
      if invalid || supervisorOnly {
        d := d + Atc.BUSERROR;
      }
      if protected {
        d := d + Atc.WRITE_PR;
      }
      if !read && !protected {
        d := d + Atc.MODIFIED;
      }
      Add(P30.Tag(config.tables, a), d, true);
    }

    // ---- the 68040 table walk ------------------------------------------------------------------

    /** Root, pointer and page lookup.  `page` is the descriptor as written back; a bus error is latched
        otherwise. */
    method Walk040(a: Access) returns (out: u32, page: Option<Word>)
      requires Valid() && config.Mmu040?
      modifies this`memory, this`busErrors, this`busErrorAddress
      ensures W40.Outcome(out, page.None?, memory, page) == W40.Walk(config.tables40, old(memory), a)
      ensures busErrors == old(busErrors) + if page.None? then 1 else 0
      ensures busErrorAddress == if page.None? && old(busErrors) == 0 then a.addr else old(busErrorAddress)
    {
      hide Pointer, W40.PageSlot, W40.PointerSlot, W40.RootSlot, W40.Physical, W40.SupervisorOnly, UserAccess;
      var g := config.tables40;
      var rootPtr: u32 := W40.RootSlot(g, a);
      var rootEntry: Word := Read(memory, rootPtr);
      if !W40.TableValid(rootEntry) {
        SetBusError(a.addr);
        return a.addr, None;
      }
      if !rootEntry.used {
        rootEntry := rootEntry.(used := true);
        memory := memory[rootPtr := rootEntry];
      }
      assert memory == Mark(old(memory), rootPtr, false);
      var pointerPtr: u32 := W40.PointerSlot(rootEntry, a.addr);
      W40.SamePageSlot(g.large, rootEntry, Read(old(memory), rootPtr), a.addr);
      var pointerEntry: Word := Read(memory, pointerPtr);
      ghost var m1, e := memory, pointerEntry;
      if !pointerEntry.used {
        pointerEntry := pointerEntry.(used := true);
        memory := memory[pointerPtr := pointerEntry];
      }
      assert memory == Mark(m1, pointerPtr, false);
      if (Protected(rootEntry) && a.write) || (Protected(pointerEntry) && a.write) {
        SetBusError(a.addr);
        return a.addr, None;
      }
      if !W40.TableValid(pointerEntry) {
        SetBusError(a.addr);
        return a.addr, None;
      }
      W40.SamePageSlot(g.large, pointerEntry, e, a.addr);
      var pagePtr: u32 := W40.PageSlot(g.large, pointerEntry, a.addr);
      out, page := PageLevel(a, pagePtr);
    }

    /** Follow at most four indirect pointers, check the page's protection, and write U and M back. */
    method PageLevel(a: Access, first: u32) returns (out: u32, page: Option<Word>)
      requires Valid() && config.Mmu040?
      modifies this`memory, this`busErrors, this`busErrorAddress
      ensures W40.Outcome(out, page.None?, memory, page)
              == W40.Leaf(config.tables40, old(memory), W40.Resolve(old(memory), first, 0), a)
      ensures busErrors == old(busErrors) + if page.None? then 1 else 0
      ensures busErrorAddress == if page.None? && old(busErrors) == 0 then a.addr else old(busErrorAddress)
    {
      hide Pointer, W40.Physical, W40.SupervisorOnly, UserAccess;
      var pagePtr := first;
      var pageEntry: Word := Read(memory, pagePtr);
      var depth := 0;
      while W40.Indirect(pageEntry) && depth < W40.INDIRECT_LIMIT
        invariant pageEntry == Read(memory, pagePtr) && depth <= W40.INDIRECT_LIMIT
        invariant W40.Resolve(memory, first, 0) == W40.Resolve(memory, pagePtr, depth)
        decreases W40.INDIRECT_LIMIT - depth
      {
        pagePtr := Pointer(pageEntry);
        pageEntry := Read(memory, pagePtr);
        depth := depth + 1;
      }
      if (Protected(pageEntry) && a.write) || (W40.SupervisorOnly(pageEntry) && UserAccess(a.fc)) {
        SetBusError(a.addr);
        return a.addr, None;
      }
      if Type(pageEntry) == 0 || Type(pageEntry) == 2 {
        SetBusError(a.addr);
        return a.addr, None;
      }
      out := W40.Physical(config.tables40.large, pageEntry, a.addr);
      var newEntry := pageEntry.(used := true);
      if a.write {
        newEntry := newEntry.(modified := true);
      }
      if newEntry != pageEntry {
        memory := memory[pagePtr := newEntry];
      }
      return out, Some(newEntry);
    }

    /** Pack the page and its attributes into a data word and cache it. */
    method AtcAdd040(a: Access, physical: u32, e: Word)
      requires Valid() && config.Mmu040? && Atc.Inv(Cache())
      modifies this`history, tag, data
      ensures Cache() == Atc.Add(old(Cache()), P40.Tag(config.tables40.large, a),
                                 P40.FillData(config.tables40.large, physical, a.write, e), false)
    {
      hide P40.Global, P40.UserAttribute0, P40.UserAttribute1, Atc.SetFlag, P40.PageBits;
      var d := P40.PageBits(config.tables40.large, physical);
      if Protected(e) {
        d := d + Atc.WRITE_PR;
      }
      if a.write && !Protected(e) {
        d := d + Atc.MODIFIED;
      }
      if P40.Global(e) {
        d := Atc.SetFlag(d, Atc.GLOBAL);
      }
      if P40.UserAttribute0(e) {
        d := Atc.SetFlag(d, Atc.U0);
      }
      if P40.UserAttribute1(e) {
        d := Atc.SetFlag(d, Atc.U1);
      }
      assert d == P40.FillData(config.tables40.large, physical, a.write, e);
      Add(P40.Tag(config.tables40.large, a), d, false);
    }

    // ---- translation ---------------------------------------------------------------------------

    /** Whether translation is bypassed, and if so whether the access faults. */
    method Bypassed(a: Access) returns (bypass: Option<bool>)
      ensures bypass == Bypass(config, a)
    {
      hide TransparentMatch, TransparentMatch030, BitSet;
      if config.Mmu030? {
        var first := Transparent.Match030(a, config.tt0);
        var second := Transparent.Match030(a, config.tt1);
        return if first || second || a.fc == 7 then Some(false) else None;
      }
      if a.fc == 7 {
        return Some(false);
      }
      var data := a.fc % 2 == 1 && a.fc / 2 % 2 == 0;
      var matched, fault := Transparent.Match040(a, if data then config.dtt0 else config.itt0);
      if matched {
        return Some(fault);
      }
      matched, fault := Transparent.Match040(a, if data then config.dtt1 else config.itt1);
      if matched {
        return Some(fault);
      }
      return if config.enabled then None else Some(false);
    }

    /** Translate one access: transparent translation, the ATC, then the table walk.  The C shifts of a
        68030 walk must be in range. */
    method Translate(a: Access) returns (out: u32)
      requires Valid() && Atc.Inv(Cache())
      requires config.Mmu030? && Bypass(config, a).None? ==> W30.Walk(config.tables, memory, a).defined
      modifies this`history, this`memory, this`busErrors, this`busErrorAddress, tag, data
      ensures Valid() && Atc.Inv(Cache())
      ensures var (s, r) := Cached(config, old(State()), a);
              && State() == s && out == r.out
              && busErrors == old(busErrors) + (if r.fault then 1 else 0)
              && busErrorAddress == if r.fault && old(busErrors) == 0 then a.addr else old(busErrorAddress)
    {
      hide Bypass, W30.Walk, W40.Walk, Atc.Add, Atc.Lookup, Atc.Inv, Translation.Tag, P30.FillData, P40.FillData,
           Atc.HitAddress, Atc.HitFault, W30.RootKind;
      Atc.InvShaped(Cache());
      CachedKeepsInv(config, State(), a);
      var bypass := Bypassed(a);
      if bypass.Some? {
        if bypass.value {
          SetBusError(a.addr);
        }
        return a.addr;
      }
      var t := Translation.Tag(config, a);
      TagIsValid(config, a);
      Atc.LookupKeepsInv(Cache(), t, a.write, config.Mmu030?);
      var hit, d := Lookup(t, a.write, config.Mmu030?);
      if hit {
        if Atc.HitFault(d, a.write) {
          SetBusError(a.addr);
        }
        return Atc.HitAddress(d, Translation.Offset(config, a.addr));
      }
      if config.Mmu030? {
        out := Miss030(a, false);
      } else {
        out := Miss040(a);
      }
    }

    /** PLOAD: on the 68030 no look into the ATC and no bus error, on the 68040 an ordinary translation. */
    method Preload(a: Access)
      requires Valid() && Atc.Inv(Cache())
      requires config.Mmu030? && Bypass(config, a).None? ==> W30.Walk(config.tables, memory, a).defined
      modifies this`history, this`memory, this`busErrors, this`busErrorAddress, tag, data
      ensures Valid() && Atc.Inv(Cache())
      ensures State() == Loaded(config, old(State()), a)
      ensures var r := Cached(config, old(State()), a).1;
              var fault := config.Mmu040? && r.fault;
              && busErrors == old(busErrors) + (if fault then 1 else 0)
              && busErrorAddress == if fault && old(busErrors) == 0 then a.addr else old(busErrorAddress)
    {
      hide Bypass, W30.Walk, W40.Walk, Atc.Add, Atc.Lookup, Atc.Inv, Translation.Tag, P30.FillData, P40.FillData,
           Atc.HitAddress, Atc.HitFault, W30.RootKind;
      Atc.InvShaped(Cache());
      LoadedKeepsInv(config, State(), a);
      if config.Mmu040? {
        var _ := Translate(a);
        return;
      }
      var bypass := Bypassed(a);
      if bypass.None? {
        var _ := Miss030(a, true);
      }
    }

    /** Walk and fill the ATC; PLOAD ignores a fault. */
    method Miss030(a: Access, pload: bool) returns (out: u32)
      requires Valid() && config.Mmu030? && Atc.Inv(Cache()) && W30.Walk(config.tables, memory, a).defined
      modifies this`history, this`memory, this`busErrors, this`busErrorAddress, tag, data
      ensures var (r, fill) := WalkFor(config, old(memory), a);
              var fault := r.fault && !pload;
              && fill.Some? && out == r.out && memory == r.memory
              && Cache() == Atc.Add(old(Cache()), Translation.Tag(config, a), fill.value, true)
              && busErrors == old(busErrors) + (if fault then 1 else 0)
              && busErrorAddress == if fault && old(busErrors) == 0 then a.addr else old(busErrorAddress)
    {
      hide W30.Walk, Atc.Add, Atc.Inv, P30.FillData, P30.Tag, W30.RootKind;
      ghost var o := W30.Walk(config.tables, memory, a);
      var invalid, protected, supervisorOnly, level, resolved;
      out, invalid, protected, supervisorOnly, level, resolved := WalkTables(a);
      if !resolved || invalid || supervisorOnly || (protected && a.write) {
        if !pload {
          SetBusError(a.addr);
        }
      }
      var read := !a.write && W30.RootKind(config.tables, a.fc) != W30.PAGE;
      AtcAdd030(a, o, out, read, invalid, protected, supervisorOnly);
    }

    method Miss040(a: Access) returns (out: u32)
      requires Valid() && config.Mmu040? && Atc.Inv(Cache())
      modifies this`history, this`memory, this`busErrors, this`busErrorAddress, tag, data
      ensures var (r, fill) := WalkFor(config, old(memory), a);
              && out == r.out && memory == r.memory
              && Cache() == (if fill.Some? then Atc.Add(old(Cache()), Translation.Tag(config, a), fill.value, false)
                             else old(Cache()))
              && busErrors == old(busErrors) + (if r.fault then 1 else 0)
              && busErrorAddress == if r.fault && old(busErrors) == 0 then a.addr else old(busErrorAddress)
    {
      hide W40.Walk, Atc.Add, Atc.Inv, P40.FillData, P40.Tag;
      var page;
      out, page := Walk040(a);
      if page.Some? {
        AtcAdd040(a, out, page.value);
      }
    }
  }

  /** Consuming bits in two steps. */
  lemma ShlMore(x: u32, s: nat, w: nat)
    ensures Shl(Shl(x, s), w) == Shl(x, s + w)
  {
    Pow2Add(s, w);
    var y := x * Pow2(s);
    assert x * Pow2(s + w) == y * Pow2(w) by {
      assert x * (Pow2(s) * Pow2(w)) == x * Pow2(s) * Pow2(w);
    }
    ModMul(y, Pow2(w));
  }

  lemma ModMul(y: int, k: int)
    requires 0 <= y && k > 0
    ensures Wrap(Wrap(y) * k) == Wrap(y * k)
  {
    var q, r := y / TWO_32, y % TWO_32;
    assert y * k == TWO_32 * (q * k) + r * k by {
      assert (TWO_32 * q + r) * k == TWO_32 * (q * k) + r * k;
    }
    AddMultiple(r * k, q * k);
  }

  lemma AddMultiple(x: int, n: int)
    ensures Wrap(TWO_32 * n + x) == Wrap(x)
  {
  }
}
