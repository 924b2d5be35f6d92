/** Exception entry with its stack frames, and RTE. */
module Exceptions {
  import opened Words
  import opened Bitwise
  import opened StatusRegister
  import opened Stacks
  import Ram

  // ---- entry ---------------------------------------------------------------------------------

  const AUTOVECTOR: nat := 24
  const UNINITIALIZED: nat := 15
  const PRIVILEGE_VIOLATION: nat := 8
  const FORMAT_ERROR: nat := 14

  type Vector = v: nat | v < 0x100

  /** Turn tracing off and enter supervisor mode. */
  function Init(c: Core): (r: Core)
    requires Valid(c)
    ensures Valid(r)
  {
    SetS(c.(flags := c.flags.(t1 := 0, t0 := 0)))
  }

  function PushFrame(c: Core, sr: Ram.u16, pc: u32): Core {
    Push16(Push32(c, pc), sr)
  }

  /** The normal frame: three words on the 68000, four with format 0 on the others. */
  function Frame0(c: Core, pc: u32, sr: Ram.u16, vector: Vector): Core {
    PushFrame(if c.family.M68000? then c else Push16(c, vector * 4), sr, pc)
  }

  /** The throwaway frame. */
  function Frame1(c: Core, pc: u32, sr: Ram.u16, vector: Vector): Core {
    PushFrame(Push16(c, 0x1000 + vector * 4), sr, pc)
  }

  /** The six-word frame of the traps. */
  function Frame2(c: Core, sr: Ram.u16, vector: Vector): Core {
    PushFrame(Push16(Push32(c, c.ppc), 0x2000 + vector * 4), sr, c.pc)
  }

  function VectorAddress(c: Core, vector: Vector): u32 {
    Ram.Read32(c.memory, c.bus, Wrap(vector * 4 + c.vbr))
  }

  function JumpVector(c: Core, vector: Vector): Core {
    c.(pc := VectorAddress(c, vector))
  }

  /** Exceptions that push a format 0 frame: TRAP #n saves the next instruction's address, illegal
      instructions and the like their own. */
  function Instruction(c: Core, vector: Vector, again: bool): (r: Core)
    requires Valid(c)
    ensures Valid(r)
  {
    Readable(c.family, c.flags);
    JumpVector(Frame0(Init(c), if again then c.ppc else c.pc, GetSr(c.flags), vector), vector)
  }

  /** Zero divide, CHK, TRAPV, trace: a format 2 frame from the 68020 on. */
  function Trap(c: Core, vector: Vector): (r: Core)
    requires Valid(c)
    ensures Valid(r)
  {
    Readable(c.family, c.flags);
    if !c.family.M68020? then Instruction(c, vector, false)
    else JumpVector(Frame2(Init(c), GetSr(c.flags), vector), vector)
  }

  /** `sr | 0x2000`. */
  function WithS(sr: Ram.u16): Ram.u16 {
    if sr / 0x2000 % 2 == 1 then sr else sr + 0x2000
  }

  /** Where an interrupt goes: the uninitialized-interrupt vector when its own is zero. */
  function InterruptTarget(c: Core, vector: Vector): u32 {
    if VectorAddress(c, vector) == 0 then VectorAddress(c, UNINITIALIZED) else VectorAddress(c, vector)
  }

  /** Mask the interrupt's own level. */
  function Raised(c: Core, level: nat): (r: Core)
    requires Valid(c) && level < 8
    ensures Valid(r)
  {
    c.(flags := c.flags.(intMask := level * 0x100))
  }

  /** An autovectored interrupt; a second, throwaway frame goes to the interrupt stack when the
      first one went to the master stack. */
  function Interrupt(c: Core, level: nat): (r: Core)
    requires Valid(c) && level < 8
    ensures Valid(r)
  {
    Readable(c.family, c.flags);
    if c.halted then c.(stopped := false)
    else
      var vector := AUTOVECTOR + level;
      var sr := GetSr(c.flags);
      var c1 := Frame0(Raised(Init(c.(stopped := false)), level), c.pc, sr, vector);
      var c2 := if c1.flags.m != 0 && c.family.M68020? then Frame1(ClearM(c1), c.pc, WithS(sr), vector) else c1;
      c2.(pc := InterruptTarget(c, vector), intLevel := 0)
  }

  predicate Pending(c: Core) {
    c.nmi || c.intLevel > c.flags.intMask
  }

  function CheckInterrupts(c: Core): (r: Core)
    requires Valid(c) && c.intLevel < 0x800
    ensures Valid(r)
  {
    if !Pending(c) then c
    else if c.nmi then Interrupt(c.(nmi := false), 7)
    else Interrupt(c, c.intLevel / 0x100)
  }

  // ---- RTE -----------------------------------------------------------------------------------

  function FormatOf(c: Core): nat {
    Ram.Read16(c.memory, c.bus, c.a7 + 6) / 0x1000
  }

  /** Pull the status register and program counter, and skip `more` bytes. */
  function Resumed(c: Core, more: nat): (r: Core)
    requires Valid(c)
    ensures Valid(r) && r.intLevel == c.intLevel
  {
    var (c1, sr) := Pull16(c);
    var (c2, pc) := Pull32(c1);
    SetSrNoint(Drop(c2, more).(pc := pc), sr)
  }

  function Resume(c: Core, more: nat): (r: Core)
    requires Valid(c) && c.intLevel < 0x800
    ensures Valid(r)
  {
    CheckInterrupts(Resumed(c, more))
  }

  /** Discard a throwaway frame: only its status register counts. */
  function Discard(c: Core): (r: Core)
    requires Valid(c)
    ensures Valid(r)
  {
    var (c1, sr) := Pull16(c);
    SetSrNoint(Drop(Drop(c1, 4), 2), sr)
  }

  /** RTE from the 68020 on; gives up after `limit` throwaway frames. */
  function RteLoop(c: Core, limit: nat): (r: Option<Core>)
    requires Valid(c) && c.intLevel < 0x800
    ensures r.Some? ==> Valid(r.value)
    decreases limit
  {
    if FormatOf(c) == 0 then Some(Resume(c, 2))
    else if FormatOf(c) == 1 then (if limit == 0 then None else RteLoop(Discard(c), limit - 1))
    else if FormatOf(c) == 2 then Some(Resume(c, 6))
    else Some(Instruction(c, FORMAT_ERROR, false))
  }

  function Rte(c: Core, limit: nat): (r: Option<Core>)
    requires Valid(c) && c.intLevel < 0x800
    ensures r.Some? ==> Valid(r.value)
  {
    if c.flags.s == 0 then Some(Instruction(c, PRIVILEGE_VIOLATION, true))
    else if c.family.M68000? then Some(Resume(c, 0))
    else if c.family.M68010? then
      Some(if FormatOf(c) == 0 then Resume(c, 2)
           else if FormatOf(c) == 8 then Resume(c, 52)
           else Instruction(c, FORMAT_ERROR, false))
    else RteLoop(c, limit)
  }

  // ---- what entry leaves on the stack --------------------------------------------------------

  /** The stack pointer a supervisor-mode push would use. */
  function SupervisorPointer(c: Core): u32
    requires Valid(c)
  {
    if c.flags.m == 0 then PointersOf(c).isp else PointersOf(c).msp
  }

  /** A frame's status register and program counter, and its format and vector word when it has one. */
  ghost predicate FrameAt(m: Ram.Memory, bus: Ram.Bus, p: int, sr: nat, pc: u32, word: int) {
    && Ram.Read16(m, bus, p) == sr && Ram.Read32(m, bus, p + 2) == pc
    && (word >= 0 ==> Ram.Read16(m, bus, p + 6) == word)
  }

  lemma PushedFrame(c: Core, sr: Ram.u16, pc: u32)
    ensures var r := PushFrame(c, sr, pc);
            && r == c.(a7 := Wrap(c.a7 - 6), memory := r.memory)
            && FrameAt(r.memory, c.bus, c.a7 - 6, sr, pc, -1)
            && Ram.Read16(r.memory, c.bus, c.a7) == Ram.Read16(c.memory, c.bus, c.a7)
  {
    hide Ram.Read16, Ram.Write16, Ram.Write32, Ram.Read32, Wrap;
    var m, b, p := c.memory, c.bus, c.a7 - 6;
    Ram.WriteOfWrap(m, b, c.a7 - 4, pc);
    var m1 := Ram.Write32(m, b, p + 2, pc);
    WrapAgain(c.a7 - 4, 2);
    Ram.WriteOfWrap(m1, b, p, sr);
    Ram.ReadWrite16(m1, b, p, sr);
    Ram.ReadWrite32(m, b, p + 2, pc);
    Ram.ReadLong16(m1, b, p, sr, p + 2);
    Ram.ReadOther32(m, b, p + 2, pc, c.a7);
    Ram.ReadOther16(m1, b, p, sr, c.a7);
  }

  lemma PushedSame(c: Core, sr: Ram.u16, pc: u32, live: set<int>)
    requires live !! Ram.Cells(c.bus, c.a7 - 6, 6)
    ensures Ram.Same(live, c.memory, PushFrame(c, sr, pc).memory)
  {
    hide Ram.Write16, Ram.Write32, Wrap, Ram.Cells;
    var m, b, p := c.memory, c.bus, c.a7 - 6;
    Ram.WriteOfWrap(m, b, c.a7 - 4, pc);
    var m1 := Ram.Write32(m, b, p + 2, pc);
    WrapAgain(c.a7 - 4, 2);
    Ram.WriteOfWrap(m1, b, p, sr);
    Ram.SubCells(b, p, 6, p, 2);
    Ram.SubCells(b, p, 6, p + 2, 4);
    Ram.WriteKeeps32(m, b, p + 2, pc, live);
    Ram.WriteKeeps16(m1, b, p, sr, live);
  }

  /** A word, then a frame. */
  lemma PushedWordFrame(c: Core, word: Ram.u16, sr: Ram.u16, pc: u32, live: set<int>)
    requires live !! Ram.Cells(c.bus, c.a7 - 8, 8)
    ensures var r := PushFrame(Push16(c, word), sr, pc);
            && r == c.(a7 := Wrap(c.a7 - 8), memory := r.memory)
            && FrameAt(r.memory, c.bus, c.a7 - 8, sr, pc, word)
            && Ram.Same(live, c.memory, r.memory)
  {
    hide Ram.Read16, Ram.Write16, Ram.Read32, Wrap, Ram.Cells, PushFrame;
    var m, b, p := c.memory, c.bus, c.a7 - 8;
    var c1 := Push16(c, word);
    Ram.WriteOfWrap(m, b, c.a7 - 2, word);
    Ram.ReadWrite16(m, b, p + 6, word);
    Ram.SubCells(b, p, 8, p + 6, 2);
    Ram.WriteKeeps16(m, b, p + 6, word, live);
    PushedFrame(c1, sr, pc);
    WrapAgain(c.a7 - 2, 6);
    var r := PushFrame(c1, sr, pc);
    Ram.CellsOfWrap(b, c.a7 - 2, -6, 6);
    Ram.SubCells(b, p, 8, p, 6);
    PushedSame(c1, sr, pc, live);
    Ram.ReadOfWrap(r.memory, b, c.a7 - 2, -6);
    Ram.ReadOfWrap(r.memory, b, c.a7 - 2, -4);
    Ram.ReadOfWrap(r.memory, b, c.a7 - 2, 0);
    Ram.ReadOfWrap(c1.memory, b, c.a7 - 2, 0);
  }

  /** How many bytes a format 0 frame takes. */
  function Size0(family: Family): nat {
    if family.M68000? then 6 else 8
  }

  lemma Framed0(c: Core, pc: u32, sr: Ram.u16, vector: Vector, live: set<int>)
    requires live !! Ram.Cells(c.bus, c.a7 - Size0(c.family), Size0(c.family))
    ensures var r := Frame0(c, pc, sr, vector);
            && r == c.(a7 := Wrap(c.a7 - Size0(c.family)), memory := r.memory)
            && FrameAt(r.memory, c.bus, c.a7 - Size0(c.family), sr, pc, if c.family.M68000? then -1 else vector * 4)
            && Ram.Same(live, c.memory, r.memory)
  {
    hide PushFrame, FrameAt, Ram.Same, Ram.Cells, Push16;
    if c.family.M68000? {
      PushedFrame(c, sr, pc);
      PushedSame(c, sr, pc, live);
    } else {
      PushedWordFrame(c, vector * 4, sr, pc, live);
    }
  }

  lemma Framed2(c: Core, sr: Ram.u16, vector: Vector, live: set<int>)
    requires live !! Ram.Cells(c.bus, c.a7 - 12, 12)
    ensures var r := Frame2(c, sr, vector);
            && r == c.(a7 := Wrap(c.a7 - 12), memory := r.memory)
            && FrameAt(r.memory, c.bus, c.a7 - 12, sr, c.pc, 0x2000 + vector * 4)
            && Ram.Same(live, c.memory, r.memory)
  {
    hide PushFrame, Ram.Cells, Push16, Wrap, Ram.Read16, Ram.Read32, Ram.Write32;
    var b, p := c.bus, c.a7 - 12;
    var c1 := Push32(c, c.ppc);
    Ram.WriteOfWrap(c.memory, b, c.a7 - 4, c.ppc);
    Ram.SubCells(b, p, 12, p + 8, 4);
    Ram.WriteKeeps32(c.memory, b, p + 8, c.ppc, live);
    Ram.CellsOfWrap(b, c.a7 - 4, -8, 8);
    Ram.SubCells(b, p, 12, p, 8);
    PushedWordFrame(c1, 0x2000 + vector * 4, sr, c.pc, live);
    WrapAgain(c.a7 - 4, 8);
    var r := Frame2(c, sr, vector);
    Ram.ReadOfWrap(r.memory, b, c.a7 - 4, -8);
    Ram.ReadOfWrap(r.memory, b, c.a7 - 4, -6);
    Ram.ReadOfWrap(r.memory, b, c.a7 - 4, -2);
  }

  /** What pushing a frame does: the frame is below the old stack pointer, and nothing else has changed. */
  ghost predicate Pushed(c: Core, r: Core, n: nat, sr: nat, pc: u32, word: int)
    requires Valid(c) && Valid(r)
  {
    && PointersOf(r) == Moved(PointersOf(c), c.flags, -(n as int))
    && FrameAt(r.memory, c.bus, c.a7 - n, sr, pc, word)
    && Ram.SameElsewhere(Ram.Cells(c.bus, c.a7 - n, n), c.memory, r.memory)
  }

  lemma Frame0Is(c: Core, pc: u32, sr: Ram.u16, vector: Vector)
    requires Valid(c)
    ensures Pushed(c, Frame0(c, pc, sr, vector), Size0(c.family), sr, pc, if c.family.M68000? then -1 else vector * 4)
  {
    hide Frame0, FrameAt, PointersOf, Moved, Ram.Cells, Ram.Byte;
    var r, n: int := Frame0(c, pc, sr, vector), Size0(c.family);
    Framed0(c, pc, sr, vector, {});
    PointerMoves(c, r, -n);
    forall q: int | q !in Ram.Cells(c.bus, c.a7 as int - n, Size0(c.family))
      ensures Ram.Byte(r.memory, q) == Ram.Byte(c.memory, q)
    {
      Framed0(c, pc, sr, vector, {q});
    }
  }

  lemma Frame1Is(c: Core, pc: u32, sr: Ram.u16, vector: Vector)
    requires Valid(c)
    ensures Pushed(c, Frame1(c, pc, sr, vector), 8, sr, pc, 0x1000 + vector * 4)
  {
    hide PushFrame, Push16, FrameAt, PointersOf, Moved, Ram.Cells, Ram.Byte;
    var r := Frame1(c, pc, sr, vector);
    PushedWordFrame(c, 0x1000 + vector * 4, sr, pc, {});
    PointerMoves(c, r, -8);
    forall q: int | q !in Ram.Cells(c.bus, c.a7 as int - 8, 8) ensures Ram.Byte(r.memory, q) == Ram.Byte(c.memory, q) {
      PushedWordFrame(c, 0x1000 + vector * 4, sr, pc, {q});
    }
  }

  lemma Frame2Is(c: Core, sr: Ram.u16, vector: Vector)
    requires Valid(c)
    ensures Pushed(c, Frame2(c, sr, vector), 12, sr, c.pc, 0x2000 + vector * 4)
    ensures Ram.Read32(Frame2(c, sr, vector).memory, c.bus, c.a7 - 4) == c.ppc
  {
    hide Frame2, FrameAt, PointersOf, Moved, Ram.Cells, Ram.Byte, Ram.Read32;
    var r := Frame2(c, sr, vector);
    Framed2(c, sr, vector, {});
    PointerMoves(c, r, -12);
    Frame2Address(c, sr, vector);
    forall q: int | q !in Ram.Cells(c.bus, c.a7 as int - 12, 12)
      ensures Ram.Byte(r.memory, q) == Ram.Byte(c.memory, q)
    {
      Framed2(c, sr, vector, {q});
    }
  }

  /** The six-word frame ends with the address of the instruction that trapped. */
  lemma Frame2Address(c: Core, sr: Ram.u16, vector: Vector)
    ensures Ram.Read32(Frame2(c, sr, vector).memory, c.bus, c.a7 - 4) == c.ppc
  {
    hide PushFrame, Ram.Cells, Wrap, Ram.Read16, Ram.Read32, Ram.Write32, Push16;
    var b, p: int := c.bus, c.a7 - 4;
    var c1, live := Push32(c, c.ppc), Ram.Cells(b, p, 4);
    Ram.WriteOfWrap(c.memory, b, p, c.ppc);
    Ram.ReadWrite32(c.memory, b, p, c.ppc);
    Ram.CellsOfWrap(b, p, -8, 8);
    Ram.RangesApart(b, p - 8, 8, p, 4);
    PushedWordFrame(c1, 0x2000 + vector * 4, sr, c.pc, live);
    Ram.SameRead32(live, c1.memory, Frame2(c, sr, vector).memory, b, p);
  }

  // ---- entry and return ----------------------------------------------------------------------

  /** Group 2 traps, the other instruction exceptions, and interrupts. */
  datatype Event = InstructionEvent(vector: Vector, again: bool) | TrapEvent(trap: Vector) | InterruptEvent(level: nat)

  /** The event leads to exception processing. */
  predicate Taken(c: Core, e: Event) {
    e.InterruptEvent? ==> 1 <= e.level < 8 && !c.halted
  }

  function Enter(c: Core, e: Event): (r: Core)
    requires Valid(c) && Taken(c, e)
    ensures Valid(r)
  {
    match e
    case InstructionEvent(v, again) => Instruction(c, v, again)
    case TrapEvent(v) => Trap(c, v)
    case InterruptEvent(level) => Interrupt(c, level)
  }

  /** Where the handler's RTE must resume. */
  function ResumePc(c: Core, e: Event): u32 {
    if e.InstructionEvent? && e.again then c.ppc else c.pc
  }

  function VectorOf(e: Event): nat {
    match e
    case InstructionEvent(v, _) => v
    case TrapEvent(v) => v
    case InterruptEvent(level) => AUTOVECTOR + level
  }

  /** The format and vector word of the frame that RTE returns through, if it has one. */
  function FormatWord(c: Core, e: Event): int {
    if c.family.M68000? then -1 else (if FrameSize(c, e) == 12 then 0x2000 else 0) + VectorOf(e) * 4
  }

  function FrameSize(c: Core, e: Event): nat {
    if e.TrapEvent? && c.family.M68020? then 12 else Size0(c.family)
  }

  /** The interrupt takes a second, throwaway frame. */
  predicate Throwaway(c: Core, e: Event) {
    e.InterruptEvent? && c.flags.m != 0
  }

  function MainCells(c: Core, e: Event): set<int>
    requires Valid(c)
  {
    Ram.Cells(c.bus, SupervisorPointer(c) - FrameSize(c, e), FrameSize(c, e))
  }

  function ThrowawayCells(c: Core, e: Event): set<int>
    requires Valid(c)
  {
    if Throwaway(c, e) then Ram.Cells(c.bus, PointersOf(c).isp - 8, 8) else {}
  }

  /** The memory that holds the exception's frames. */
  function FrameCells(c: Core, e: Event): set<int>
    requires Valid(c)
  {
    MainCells(c, e) + ThrowawayCells(c, e)
  }

  /** The frames on the two supervisor stacks do not overlap. */
  predicate Apart(c: Core, e: Event)
    requires Valid(c)
  {
    MainCells(c, e) !! ThrowawayCells(c, e)
  }

  // ---- the state after entry -----------------------------------------------------------------

  /** Supervisor mode without tracing, the active pointer where a supervisor push would go. */
  lemma InitState(c: Core)
    requires Valid(c)
    ensures var r := Init(c);
            && PointersOf(r) == PointersOf(c) && r.a7 == SupervisorPointer(c)
            && r.flags == c.flags.(t1 := 0, t0 := 0, s := 4)
            && r == c.(a7 := r.a7, bank := r.bank, flags := r.flags)
  {
    var f := c.flags.(t1 := 0, t0 := 0);
    SwitchKeepsPointers(c.(flags := f), f.(s := 4));
  }

  /** The pushes of a frame move the supervisor pointer in use. */
  function Lowered(c: Core, n: int): Pointers
    requires Valid(c)
  {
    Moved(PointersOf(c), c.flags.(s := 4), -n)
  }

  lemma LowerActive(c: Core, r: Core, n: int)
    requires Valid(c) && Valid(r) && r.flags.s == 4 && r.bank == c.bank && r.a7 == Wrap(c.a7 - n)
    requires (r.flags.s, r.flags.m) == (c.flags.s, c.flags.m)
    ensures PointersOf(r) == Moved(PointersOf(c), c.flags, -n)
  {
  }

  lemma InstructionState(c: Core, vector: Vector, again: bool, live: set<int>)
    requires Valid(c) && live !! MainCells(c, InstructionEvent(vector, again))
    ensures var r, n := Instruction(c, vector, again), Size0(c.family);
            && (r.family, r.bus) == (c.family, c.bus)
            && r.flags == c.flags.(t1 := 0, t0 := 0, s := 4)
            && PointersOf(r) == Lowered(c, n)
            && FrameAt(r.memory, c.bus, SupervisorPointer(c) - n, GetSr(c.flags), if again then c.ppc else c.pc,
                       if c.family.M68000? then -1 else vector * 4)
            && Ram.Same(live, c.memory, r.memory)
  {
    hide Init, Frame0, FrameAt, PointersOf, Ram.Cells, Ram.Same, SupervisorPointer, GetSr, Moved, VectorAddress;
    Readable(c.family, c.flags);
    InitState(c);
    var pc := if again then c.ppc else c.pc;
    Framed0(Init(c), pc, GetSr(c.flags), vector, live);
    var r := Frame0(Init(c), pc, GetSr(c.flags), vector);
    LowerActive(Init(c), Instruction(c, vector, again), Size0(c.family));
    Moved4(c, Size0(c.family));
  }

  lemma Moved4(c: Core, n: int)
    requires Valid(c)
    ensures Moved(PointersOf(c), c.flags.(t1 := 0, t0 := 0, s := 4), -n) == Lowered(c, n)
  {
  }

  lemma TrapState(c: Core, vector: Vector, live: set<int>)
    requires Valid(c) && c.family.M68020? && live !! MainCells(c, TrapEvent(vector))
    ensures var r := Trap(c, vector);
            && (r.family, r.bus) == (c.family, c.bus)
            && r.flags == c.flags.(t1 := 0, t0 := 0, s := 4)
            && PointersOf(r) == Lowered(c, 12)
            && FrameAt(r.memory, c.bus, SupervisorPointer(c) - 12, GetSr(c.flags), c.pc, 0x2000 + vector * 4)
            && Ram.Same(live, c.memory, r.memory)
  {
    hide Init, Frame2, FrameAt, PointersOf, Ram.Cells, Ram.Same, SupervisorPointer, GetSr, Moved, VectorAddress;
    Readable(c.family, c.flags);
    InitState(c);
    Framed2(Init(c), GetSr(c.flags), vector, live);
    LowerActive(Init(c), Trap(c, vector), 12);
    Moved4(c, 12);
  }

  /** The first half of an interrupt: the frame on the supervisor stack in use. */
  function Interrupted(c: Core, level: nat): (r: Core)
    requires Valid(c) && level < 8
    ensures Valid(r)
  {
    Readable(c.family, c.flags);
    Frame0(Raised(Init(c.(stopped := false)), level), c.pc, GetSr(c.flags), AUTOVECTOR + level)
  }

  lemma InterruptedState(c: Core, level: nat, live: set<int>)
    requires Valid(c) && level < 8 && live !! MainCells(c, InterruptEvent(level))
    ensures var r, n := Interrupted(c, level), Size0(c.family);
            && r.flags == c.flags.(t1 := 0, t0 := 0, s := 4, intMask := level * 0x100)
            && r.family == c.family && r.bus == c.bus
            && PointersOf(r) == Lowered(c, n)
            && FrameAt(r.memory, c.bus, SupervisorPointer(c) - n, GetSr(c.flags), c.pc,
                       if c.family.M68000? then -1 else (AUTOVECTOR + level) * 4)
            && Ram.Same(live, c.memory, r.memory)
  {
    hide Init, Frame0, FrameAt, PointersOf, Ram.Cells, Ram.Same, SupervisorPointer, GetSr, Moved, VectorAddress;
    Readable(c.family, c.flags);
    var c0 := c.(stopped := false);
    StoppedPointers(c);
    InitState(c0);
    var c1 := Raised(Init(c0), level);
    RaisedPointers(Init(c0), level);
    Framed0(c1, c.pc, GetSr(c.flags), AUTOVECTOR + level, live);
    LowerActive(c1, Interrupted(c, level), Size0(c.family));
    var n: int := Size0(c.family);
    MovedByMode(PointersOf(c), c1.flags, c.flags.(s := 4), -n);
  }

  lemma StoppedPointers(c: Core)
    requires Valid(c)
    ensures PointersOf(c.(stopped := false)) == PointersOf(c)
    ensures SupervisorPointer(c.(stopped := false)) == SupervisorPointer(c)
  {
  }

  lemma RaisedPointers(c: Core, level: nat)
    requires Valid(c) && level < 8
    ensures PointersOf(Raised(c, level)) == PointersOf(c)
  {
  }

  lemma MovedByMode(p: Pointers, f: Flags, g: Flags, delta: int)
    requires (f.s, f.m) == (g.s, g.m)
    ensures Moved(p, f, delta) == Moved(p, g, delta)
  {
  }

  /** The second half, when the first frame went to the master stack. */
  lemma ThrowawayState(c: Core, pc: u32, sr: Ram.u16, vector: Vector, live: set<int>)
    requires Valid(c) && c.flags.s == 4 && c.flags.m != 0
    requires live !! Ram.Cells(c.bus, PointersOf(c).isp - 8, 8)
    ensures var r := Frame1(ClearM(c), pc, sr, vector);
            && Valid(r) && r.flags == c.flags.(m := 0) && (r.family, r.bus) == (c.family, c.bus)
            && PointersOf(r) == Moved(PointersOf(c), c.flags.(m := 0), -8)
            && FrameAt(r.memory, c.bus, PointersOf(c).isp - 8, sr, pc, 0x1000 + vector * 4)
            && Ram.Same(live, c.memory, r.memory)
  {
    hide PushFrame, Push16, FrameAt, Ram.Cells, Ram.Same, Moved;
    SwitchKeepsPointers(c, c.flags.(m := 0));
    PushedWordFrame(ClearM(c), 0x1000 + vector * 4, sr, pc, live);
    LowerActive(ClearM(c), Frame1(ClearM(c), pc, sr, vector), 8);
  }

  // ---- the state after a return --------------------------------------------------------------

  /** The program counter and the implemented bits of the status register come from the stack. */
  lemma ResumedIs(h: Core, more: nat)
    requires Valid(h) && h.flags.s == 4
    ensures var r := Resumed(h, more);
            && r.pc == Ram.Read32(h.memory, h.bus, h.a7 + 2)
            && GetSr(r.flags) == And(Ram.Read16(h.memory, h.bus, h.a7), Mask(h.family)) && r.memory == h.memory
            && PointersOf(r) == Moved(PointersOf(h), h.flags, 6 + more)
            && (r.family, r.bus, r.intLevel, r.nmi) == (h.family, h.bus, h.intLevel, h.nmi)
  {
    hide Ram.Read16, Ram.Read32, GetSr, SetSr, Wrap, And, Moved, PointersOf, Mask;
    Ram.ReadOfWrap(h.memory, h.bus, h.a7 + 2, -2);
    WrapAgain(h.a7 + 2, 4);
    Ram.ReadOfWrap(h.memory, h.bus, h.a7 + 6, -4);
    WrapAgain(h.a7 + 6, more);
    var sr := Ram.Read16(h.memory, h.bus, h.a7);
    GetAfterSet(h.family, h.flags, sr);
    var lowered := Drop(Pull32(Pull16(h).0).0, more).(pc := Ram.Read32(h.memory, h.bus, h.a7 + 2));
    PointerMoves(h, lowered, 6 + more);
    SwitchKeepsPointers(lowered, SetSr(h.family, h.flags, sr));
  }

  /** What RTE makes of a frame that holds the status register of legal flags `f`. */
  lemma ResumedState(h: Core, f: Flags, pc: u32, more: nat)
    requires Valid(h) && h.flags.s == 4 && Legal(h.family, f)
    requires FrameAt(h.memory, h.bus, h.a7, GetSr(f), pc, -1)
    ensures var r := Resumed(h, more);
            && r.pc == pc && GetSr(r.flags) == GetSr(f) && r.memory == h.memory
            && PointersOf(r) == Moved(PointersOf(h), h.flags, 6 + more)
            && (r.family, r.bus, r.intLevel, r.nmi) == (h.family, h.bus, h.intLevel, h.nmi)
  {
    hide Ram.Read16, Ram.Read32, GetSr, Resumed, And, Moved, PointersOf, Mask;
    Readable(h.family, f);
    ResumedIs(h, more);
  }

  // ---- a handler between entry and return ----------------------------------------------------

  /** What a handler that entered in state `c1` must leave to its RTE in state `h`: the mode, the stack
      pointers and the frame cells as it found them.  Everything else is its own. */
  ghost predicate Balanced(c1: Core, h: Core, cells: set<int>) {
    && Valid(c1) && Valid(h) && h.intLevel < 0x800
    && (h.family, h.bus) == (c1.family, c1.bus)
    && (h.flags.s, h.flags.m) == (c1.flags.s, c1.flags.m)
    && PointersOf(h) == PointersOf(c1)
    && Ram.Same(cells, c1.memory, h.memory)
  }

  lemma FrameKept(live: set<int>, m: Ram.Memory, m': Ram.Memory, bus: Ram.Bus, p: int, n: nat, sr: nat, pc: u32,
          word: int)
    requires Ram.Same(live, m, m') && Ram.Cells(bus, p, n) <= live && FrameAt(m, bus, p, sr, pc, word)
    requires n >= if word >= 0 then 8 else 6
    ensures FrameAt(m', bus, p, sr, pc, word) && FrameAt(m', bus, Wrap(p), sr, pc, word)
  {
    hide Ram.Read16, Ram.Read32, Ram.Cells, Ram.Same;
    Ram.SubCells(bus, p, n, p, 2);
    Ram.SubCells(bus, p, n, p + 2, 4);
    Ram.SameRead16(live, m, m', bus, p);
    Ram.SameRead32(live, m, m', bus, p + 2);
    if word >= 0 {
      Ram.SubCells(bus, p, n, p + 6, 2);
      Ram.SameRead16(live, m, m', bus, p + 6);
    }
    Ram.ReadOfWrap(m', bus, p, 0);
    Ram.ReadOfWrap(m', bus, p, 2);
    Ram.ReadOfWrap(m', bus, p, 6);
  }

  lemma MovedBack(p: Pointers, f: Flags, g: Flags, n: int)
    requires (f.s, f.m) == (g.s, g.m)
    ensures Moved(Moved(p, f, -n), g, n) == p
  {
    hide Wrap;
    BackUp(p.usp, n);
    BackUp(p.isp, n);
    BackUp(p.msp, n);
  }

  /** Where the active pointer is after `n` bytes were pushed in supervisor mode. */
  lemma ActivePointer(c: Core, h: Core, n: int)
    requires Valid(c) && Valid(h) && PointersOf(h) == Lowered(c, n) && h.flags.s == 4 && h.flags.m == c.flags.m
    ensures h.a7 == Wrap(SupervisorPointer(c) - n)
  {
  }

  /** The state RTE leaves, before it looks at pending interrupts. */
  function Returned(h: Core, c: Core, e: Event): (r: Core)
    requires Valid(h)
    ensures Valid(r) && r.intLevel == h.intLevel
  {
    Resumed(if Throwaway(c, e) then Discard(h) else h, FrameSize(c, e) - 6)
  }

  /** Program counter, status register and stack pointers are those the event interrupted. */
  ghost predicate Restored(c: Core, e: Event, r: Core) {
    && Valid(c) && Valid(r) && r.pc == ResumePc(c, e) && GetSr(r.flags) == GetSr(c.flags)
    && PointersOf(r) == PointersOf(c) && (r.family, r.bus) == (c.family, c.bus)
  }

  lemma ReturnSingle(c: Core, e: Event, h: Core, limit: nat)
    requires Valid(c) && Taken(c, e) && !Throwaway(c, e)
    requires Balanced(Enter(c, e), h, FrameCells(c, e))
    ensures Rte(h, limit) == Some(CheckInterrupts(Returned(h, c, e)))
    ensures Restored(c, e, Returned(h, c, e)) && Returned(h, c, e).memory == h.memory
  {
    hide FrameAt, Ram.Same, Ram.Cells, Moved, Instruction, Trap, Interrupt, Resumed, CheckInterrupts, GetSr,
         Lowered, SupervisorPointer, PointersOf, Wrap, Legal;
    var n: int := FrameSize(c, e);
    var word := FormatWord(c, e);
    EnteredSingle(c, e, {});
    var p := SupervisorPointer(c) - n;
    FrameKept(FrameCells(c, e), Enter(c, e).memory, h.memory, c.bus, p, n, GetSr(c.flags), ResumePc(c, e), word);
    ActivePointer(c, h, n);
    ReadFormat(h, GetSr(c.flags), ResumePc(c, e), word);
    ResumedState(h, c.flags, ResumePc(c, e), n - 6);
    LowerBack(c, h, n);
  }

  /** The state after an event with one frame. */
  lemma EnteredSingle(c: Core, e: Event, live: set<int>)
    requires Valid(c) && Taken(c, e) && !Throwaway(c, e) && live !! FrameCells(c, e)
    ensures var r, n: int := Enter(c, e), FrameSize(c, e);
            && (r.family, r.bus) == (c.family, c.bus)
            && r.flags.s == 4 && r.flags.m == c.flags.m
            && PointersOf(r) == Lowered(c, n)
            && FrameAt(r.memory, c.bus, SupervisorPointer(c) - n, GetSr(c.flags), ResumePc(c, e), FormatWord(c, e))
            && Ram.Same(live, c.memory, r.memory)
  {
    hide FrameAt, Ram.Same, Ram.Cells, Moved, Lowered, SupervisorPointer, PointersOf, GetSr, VectorAddress, Frame0,
         Frame2, Init, Frame1;
    match e
    case InstructionEvent(v, again) => InstructionState(c, v, again, live);
    case TrapEvent(v) =>
      if c.family.M68020? {
        TrapState(c, v, live);
      } else {
        InstructionState(c, v, false, live);
      }
    case InterruptEvent(level) =>
      InterruptedState(c, level, live);
      InterruptIs(c, level);
  }

  lemma InterruptIs(c: Core, level: nat)
    requires Valid(c) && level < 8 && !c.halted && c.flags.m == 0
    ensures var i := Interrupted(c, level);
            Interrupt(c, level) == i.(pc := InterruptTarget(c, AUTOVECTOR + level), intLevel := 0)
    ensures PointersOf(Interrupt(c, level)) == PointersOf(Interrupted(c, level))
  {
    hide GetSr, InterruptTarget, Ram.Write16, Ram.Write32;
  }

  lemma ReadFormat(h: Core, sr: nat, pc: u32, word: int)
    requires FrameAt(h.memory, h.bus, h.a7, sr, pc, word)
    ensures FrameAt(h.memory, h.bus, h.a7, sr, pc, -1)
    ensures word >= 0 ==> FormatOf(h) == word / 0x1000
  {
  }

  lemma LowerBack(c: Core, h: Core, n: int)
    requires Valid(c) && h.flags.s == 4 && h.flags.m == c.flags.m
    ensures Moved(Lowered(c, n), h.flags, n) == PointersOf(c)
  {
    hide Moved, PointersOf;
    MovedBack(PointersOf(c), c.flags.(s := 4), h.flags, n);
  }

  // ---- the pair of frames --------------------------------------------------------------------

  /** Where the throwaway frame of an interrupt starts from. */
  lemma EnteredPair(c: Core, level: nat, live: set<int>)
    requires Valid(c) && 1 <= level < 8 && !c.halted && c.flags.m != 0
    requires Apart(c, InterruptEvent(level)) && live !! FrameCells(c, InterruptEvent(level))
    ensures var r, e := Interrupt(c, level), InterruptEvent(level);
            && (r.family, r.bus) == (c.family, c.bus)
            && r.flags.s == 4 && r.flags.m == 0
            && PointersOf(r) == Pointers(PointersOf(c).usp, Wrap(PointersOf(c).isp - 8), Wrap(PointersOf(c).msp - 8))
            && FrameAt(r.memory, c.bus, PointersOf(c).isp - 8, GetSr(c.flags.(s := 4)), c.pc, 0x1000 + VectorOf(e) * 4)
            && FrameAt(r.memory, c.bus, PointersOf(c).msp - 8, GetSr(c.flags), c.pc, VectorOf(e) * 4)
            && Ram.Same(live, c.memory, r.memory)
  {
    hide FrameAt, Ram.Same, Ram.Cells, GetSr, VectorAddress, Frame0, Frame1, Init, PointersOf;
    var e := InterruptEvent(level);
    var isp: int, msp: int := PointersOf(c).isp, PointersOf(c).msp;
    var main, thrown := MainCells(c, e), ThrowawayCells(c, e);
    Readable(c.family, c.flags);
    WithSIs(c.family, c.flags);
    var i, sr := Interrupted(c, level), WithS(GetSr(c.flags));
    InterruptedState(c, level, live);
    InterruptedState(c, level, thrown);
    assert PointersOf(i).isp == isp;
    ThrowawayState(i, c.pc, sr, AUTOVECTOR + level, live);
    ThrowawayState(i, c.pc, sr, AUTOVECTOR + level, main);
    var r := Frame1(ClearM(i), c.pc, sr, AUTOVECTOR + level);
    PairIs(c, level);
    SameTrans(live, c.memory, i.memory, r.memory);
    FrameKept(main, i.memory, r.memory, c.bus, msp - 8, 8, GetSr(c.flags), c.pc, VectorOf(e) * 4);
  }

  lemma PairIs(c: Core, level: nat)
    requires Valid(c) && 1 <= level < 8 && !c.halted && c.flags.m != 0
    ensures var i := Interrupted(c, level);
            && GetSr(c.flags) < 0x1_0000
            && i.flags.s == 4 && i.flags.m != 0
            && var r := Frame1(ClearM(i), c.pc, WithS(GetSr(c.flags)), AUTOVECTOR + level);
               && Interrupt(c, level) == r.(pc := InterruptTarget(c, AUTOVECTOR + level), intLevel := 0)
               && PointersOf(Interrupt(c, level)) == PointersOf(r)
  {
    hide GetSr, InterruptTarget, Ram.Write16, Ram.Write32;
    Readable(c.family, c.flags);
  }

  lemma SameTrans(live: set<int>, a: Ram.Memory, b: Ram.Memory, c: Ram.Memory)
    requires Ram.Same(live, a, b) && Ram.Same(live, b, c)
    ensures Ram.Same(live, a, c)
  {
  }

  /** The throwaway frame's status register is the interrupted one with S set. */
  lemma WithSIs(family: Family, f: Flags)
    requires Legal(family, f)
    ensures GetSr(f) < 0x1_0000 && GetSr(f.(s := 4)) < 0x1_0000
    ensures WithS(GetSr(f)) == GetSr(f.(s := 4))
  {
    hide GetCcr;
    CcrRange(f);
    SameCcr(f);
    Digit(GetSr(f), 0x2000, 2, f.t1 / 0x4000 + f.t0 / 0x4000, f.s / 4, f.m * 0x800 + f.intMask + GetCcr(f));
  }

  lemma SameCcr(f: Flags)
    ensures GetCcr(f.(s := 4)) == GetCcr(f)
  {
  }

  // ---- RTE undoes entry ----------------------------------------------------------------------

  /** Of a throwaway frame only the status register counts. */
  lemma DiscardIs(h: Core)
    requires Valid(h) && h.flags.s == 4
    ensures var r := Discard(h);
            && GetSr(r.flags) == And(Ram.Read16(h.memory, h.bus, h.a7), Mask(h.family)) && r.memory == h.memory
            && PointersOf(r) == Moved(PointersOf(h), h.flags, 8)
            && (r.family, r.bus, r.intLevel, r.nmi) == (h.family, h.bus, h.intLevel, h.nmi)
  {
    hide Ram.Read16, Ram.Read32, GetSr, SetSr, Wrap, And, Moved, PointersOf, Mask;
    Ram.ReadOfWrap(h.memory, h.bus, h.a7 + 2, -2);
    WrapAgain(h.a7 + 2, 4);
    WrapAgain(h.a7 + 6, 2);
    var sr := Ram.Read16(h.memory, h.bus, h.a7);
    GetAfterSet(h.family, h.flags, sr);
    var lowered := Drop(Drop(Pull16(h).0, 4), 2);
    PointerMoves(h, lowered, 8);
    SwitchKeepsPointers(lowered, SetSr(h.family, h.flags, sr));
  }

  /** Discarding a throwaway frame restores the mode it holds. */
  lemma DiscardState(h: Core, f: Flags, pc: u32)
    requires Valid(h) && h.flags.s == 4 && Legal(h.family, f)
    requires FrameAt(h.memory, h.bus, h.a7, GetSr(f), pc, -1)
    ensures var r := Discard(h);
            && (r.flags.s, r.flags.m) == (f.s, f.m) && r.memory == h.memory
            && PointersOf(r) == Moved(PointersOf(h), h.flags, 8)
            && (r.family, r.bus, r.intLevel, r.nmi) == (h.family, h.bus, h.intLevel, h.nmi)
  {
    hide Ram.Read16, Ram.Read32, GetSr, Discard, And, Moved, PointersOf, Legal, Mask;
    Readable(h.family, f);
    DiscardIs(h);
    SrDetermines(h.family, f, Discard(h).flags);
  }

  /** Frame addresses seen from the two lowered stack pointers. */
  lemma PairPointers(p: Pointers, q: Pointers, f: Flags, g: Flags)
    requires q == Pointers(p.usp, Wrap(p.isp - 8), Wrap(p.msp - 8))
    requires f.s == 4 && f.m == 0 && g.s == 4 && g.m != 0
    ensures Moved(q, f, 8).msp == Wrap(p.msp - 8)
    ensures Moved(Moved(q, f, 8), g, 8) == p
  {
    BackUp(p.isp, 8);
    BackUp(p.msp, 8);
  }

  lemma ReturnPair(c: Core, level: nat, h: Core, limit: nat)
    requires Valid(c) && 1 <= level < 8 && !c.halted && c.flags.m != 0 && limit > 0
    requires Apart(c, InterruptEvent(level))
    requires Balanced(Interrupt(c, level), h, FrameCells(c, InterruptEvent(level)))
    ensures var e := InterruptEvent(level);
            && Rte(h, limit) == Some(CheckInterrupts(Returned(h, c, e)))
            && Restored(c, e, Returned(h, c, e)) && Returned(h, c, e).memory == h.memory
  {
    hide FrameAt, Ram.Same, Ram.Cells, Interrupt, Resumed, CheckInterrupts, GetSr, Wrap, Discard, SetSrNoint, FormatOf,
         Moved;
    var e, f := InterruptEvent(level), c.flags.(s := 4);
    var isp: int, msp: int := PointersOf(c).isp, PointersOf(c).msp;
    var live := FrameCells(c, e);
    EnteredPair(c, level, {});
    var r := Interrupt(c, level);
    FrameKept(live, r.memory, h.memory, c.bus, isp - 8, 8, GetSr(f), c.pc, 0x1000 + VectorOf(e) * 4);
    FrameKept(live, r.memory, h.memory, c.bus, msp - 8, 8, GetSr(c.flags), c.pc, VectorOf(e) * 4);
    ReadFormat(h, GetSr(f), c.pc, 0x1000 + VectorOf(e) * 4);
    DiscardState(h, f, c.pc);
    var d := Discard(h);
    PairPointers(PointersOf(c), PointersOf(h), h.flags, d.flags);
    ReadFormat(d, GetSr(c.flags), c.pc, VectorOf(e) * 4);
    assert c.family.M68020?;
    assert RteLoop(d, limit - 1) == Some(Resume(d, 2));
    assert RteLoop(h, limit) == RteLoop(d, limit - 1);
    ResumedState(d, c.flags, c.pc, 2);
  }

  /** RTE undoes exception entry.  Whatever the handler does, if it leaves the frames, the mode and the
      stack pointers as it found them, its RTE brings back program counter, status register and all
      three stack pointers, and only then looks at pending interrupts. */
  lemma RteUndoesEntry(c: Core, e: Event, h: Core, limit: nat)
    requires Valid(c) && Valid(h) && h.intLevel < 0x800
    requires Taken(c, e) && Apart(c, e) && (Throwaway(c, e) ==> limit > 0)
    requires Balanced(Enter(c, e), h, FrameCells(c, e))
    ensures Rte(h, limit) == Some(CheckInterrupts(Returned(h, c, e)))
    ensures Restored(c, e, Returned(h, c, e)) && Returned(h, c, e).memory == h.memory
  {
    if Throwaway(c, e) {
      ReturnPair(c, e.level, h, limit);
    } else {
      ReturnSingle(c, e, h, limit);
    }
  }

  /** With nothing pending above the restored mask, RTE itself restores them. */
  lemma RteRestores(c: Core, e: Event, h: Core, limit: nat)
    requires Valid(c) && Valid(h) && h.intLevel < 0x800
    requires Taken(c, e) && Apart(c, e) && (Throwaway(c, e) ==> limit > 0)
    requires Balanced(Enter(c, e), h, FrameCells(c, e))
    requires !h.nmi && h.intLevel <= c.flags.intMask
    ensures Rte(h, limit).Some? && Restored(c, e, Rte(h, limit).value)
    ensures Rte(h, limit).value.memory == h.memory && Rte(h, limit).value.intLevel == h.intLevel
  {
    hide Rte, Resumed, Enter, Discard, Balanced, Apart, FrameCells, PointersOf, GetSr, Legal, Interrupt;
    RteUndoesEntry(c, e, h, limit);
    SrDetermines(c.family, c.flags, Returned(h, c, e).flags);
    SamePending(h, c, e);
  }

  lemma SamePending(h: Core, c: Core, e: Event)
    requires Valid(h)
    ensures (Returned(h, c, e).nmi, Returned(h, c, e).intLevel) == (h.nmi, h.intLevel)
  {
    hide SetSr, Ram.Read16, Ram.Read32, Wrap;
  }

  /** Nothing is pending that was not before, and the frames are all that has changed in memory. */
  lemma EntryLeaves(c: Core, e: Event)
    requires Valid(c) && Taken(c, e) && Apart(c, e)
    ensures var r := Enter(c, e);
            && r.nmi == c.nmi && r.intLevel == (if e.InterruptEvent? then 0 else c.intLevel)
            && Ram.SameElsewhere(FrameCells(c, e), c.memory, r.memory)
  {
    hide Enter, Apart, FrameCells, Ram.Byte;
    EntryPending(c, e);
    forall q: int | q !in FrameCells(c, e) ensures Ram.Byte(Enter(c, e).memory, q) == Ram.Byte(c.memory, q) {
      EntryKeeps(c, e, {q});
    }
  }

  lemma EntryPending(c: Core, e: Event)
    requires Valid(c) && Taken(c, e)
    ensures Enter(c, e).nmi == c.nmi && Enter(c, e).intLevel == (if e.InterruptEvent? then 0 else c.intLevel)
  {
    hide Instruction, Trap, Interrupt;
    match e
    case InstructionEvent(v, again) => InstructionPending(c, v, again);
    case TrapEvent(v) => TrapPending(c, v);
    case InterruptEvent(level) => InterruptPending(c, level);
  }

  lemma InstructionPending(c: Core, vector: Vector, again: bool)
    requires Valid(c)
    ensures var r := Instruction(c, vector, again); (r.nmi, r.intLevel) == (c.nmi, c.intLevel)
  {
    hide GetSr, VectorAddress, Ram.Write16, Ram.Write32, Wrap, Legal;
  }

  lemma TrapPending(c: Core, vector: Vector)
    requires Valid(c)
    ensures var r := Trap(c, vector); (r.nmi, r.intLevel) == (c.nmi, c.intLevel)
  {
    hide GetSr, VectorAddress, Ram.Write16, Ram.Write32, Wrap, Legal, Instruction;
    InstructionPending(c, vector, false);
  }

  lemma InterruptPending(c: Core, level: nat)
    requires Valid(c) && level < 8 && !c.halted
    ensures var r := Interrupt(c, level); (r.nmi, r.intLevel) == (c.nmi, 0)
  {
    hide GetSr, VectorAddress, Ram.Write16, Ram.Write32, Wrap, Legal, WithS;
  }

  /** A handler that does nothing but return is balanced. */
  lemma AtOnce(c: Core, e: Event)
    requires Valid(c) && Taken(c, e) && Enter(c, e).intLevel < 0x800
    ensures Balanced(Enter(c, e), Enter(c, e), FrameCells(c, e))
  {
    hide Enter, FrameCells, PointersOf;
  }

  // ---- where entry leads ---------------------------------------------------------------------

  /** The cells an exception's vector is read from. */
  function VectorCells(c: Core, e: Event): set<int> {
    Ram.Cells(c.bus, Wrap(VectorOf(e) * 4 + c.vbr), 4)
  }

  /** The handler starts where the vector table sends it: always for an interrupt, which reads its vector before
      it pushes a frame and goes to the uninitialized-interrupt vector when its own is zero, and otherwise unless
      the frame falls on the vector.  It runs in supervisor mode without tracing; an interrupt masks its own level
      and leaves the master stack. */
  lemma EntryGoesToVector(c: Core, e: Event)
    requires Valid(c) && Taken(c, e) && (e.InterruptEvent? || VectorCells(c, e) !! FrameCells(c, e))
    ensures var r := Enter(c, e);
            && (e.InstructionEvent? ==> r.pc == Ram.Read32(c.memory, c.bus, e.vector * 4 + c.vbr))
            && (e.TrapEvent? ==> r.pc == Ram.Read32(c.memory, c.bus, e.trap * 4 + c.vbr))
            && (e.InterruptEvent? ==>
                  var own := Ram.Read32(c.memory, c.bus, (24 + e.level) * 4 + c.vbr);
                  r.pc == if own != 0 then own else Ram.Read32(c.memory, c.bus, 60 + c.vbr))
            && r.flags == c.flags.(t1 := 0, t0 := 0, s := 4, m := if e.InterruptEvent? then 0 else c.flags.m,
                                   intMask := if e.InterruptEvent? then e.level * 0x100 else c.flags.intMask)
            && (e.InterruptEvent? ==> r.intLevel == 0 && !r.stopped)
  {
    hide FrameAt, Ram.Same, Ram.Cells, GetSr, Frame0, Frame1, Frame2, Init, PointersOf, Ram.Read32,
         Lowered, ThrowawayCells, SupervisorPointer;
    match e
    case InstructionEvent(v, again) =>
      InstructionState(c, v, again, VectorCells(c, e));
      InstructionPc(c, v, again);
      VectorKept(c, Instruction(c, v, again), v);
      VectorIs(c, v);
    case TrapEvent(v) =>
      VectorIs(c, v);
      if c.family.M68020? {
        TrapState(c, v, VectorCells(c, e));
        TrapPc(c, v);
        VectorKept(c, Trap(c, v), v);
      } else {
        InstructionState(c, v, false, VectorCells(c, e));
        InstructionPc(c, v, false);
        VectorKept(c, Instruction(c, v, false), v);
      }
    case InterruptEvent(level) => InterruptLeads(c, level);
  }

  lemma VectorIs(c: Core, vector: Vector)
    ensures VectorAddress(c, vector) == Ram.Read32(c.memory, c.bus, vector * 4 + c.vbr)
  {
    hide Ram.Read32, Ram.Read16, Wrap;
    Ram.ReadOfWrap(c.memory, c.bus, vector * 4 + c.vbr, 0);
  }

  lemma VectorKept(c: Core, r: Core, vector: Vector)
    requires Ram.Same(Ram.Cells(c.bus, Wrap(vector * 4 + c.vbr), 4), c.memory, r.memory)
    requires r.bus == c.bus && r.vbr == c.vbr
    ensures VectorAddress(r, vector) == VectorAddress(c, vector)
  {
    hide Ram.Cells, Ram.Read32;
    Ram.SameRead32(Ram.Cells(c.bus, Wrap(vector * 4 + c.vbr), 4), c.memory, r.memory, c.bus, Wrap(vector * 4 + c.vbr));
  }

  lemma InstructionPc(c: Core, vector: Vector, again: bool)
    requires Valid(c)
    ensures Instruction(c, vector, again).pc == VectorAddress(Instruction(c, vector, again), vector)
    ensures Instruction(c, vector, again).vbr == c.vbr
  {
    hide GetSr, Ram.Write16, Ram.Write32, Ram.Read32;
  }

  lemma TrapPc(c: Core, vector: Vector)
    requires Valid(c) && c.family.M68020?
    ensures Trap(c, vector).pc == VectorAddress(Trap(c, vector), vector)
    ensures Trap(c, vector).vbr == c.vbr
  {
    hide GetSr, Ram.Write16, Ram.Write32, Ram.Read32;
  }

  lemma InterruptLeads(c: Core, level: nat)
    requires Valid(c) && level < 8 && !c.halted
    ensures var r, own := Interrupt(c, level), Ram.Read32(c.memory, c.bus, (24 + level) * 4 + c.vbr);
            && r.pc == (if own != 0 then own else Ram.Read32(c.memory, c.bus, 60 + c.vbr))
            && r.flags == c.flags.(t1 := 0, t0 := 0, s := 4, m := 0, intMask := level * 0x100)
            && r.intLevel == 0 && !r.stopped
  {
    VectorIs(c, 24 + level);
    VectorIs(c, 15);
    hide GetSr, VectorAddress, Ram.Write16, Ram.Write32, WithS, Ram.Read32;
  }

  /** A pending NMI starts at vector 31, else a pending level above the mask at its own vector. */
  lemma PendingGoesToVector(c: Core)
    requires Valid(c) && !c.halted && c.intLevel < 0x800 && c.intLevel % 0x100 == 0
    ensures var level := if c.nmi then 7 else c.intLevel / 0x100;
            var own := Ram.Read32(c.memory, c.bus, (24 + level) * 4 + c.vbr);
            var r := CheckInterrupts(c);
            if c.nmi || c.intLevel > c.flags.intMask
            then
              && r.pc == (if own != 0 then own else Ram.Read32(c.memory, c.bus, 60 + c.vbr))
              && r.flags.intMask == level * 0x100 && !r.nmi && r.intLevel == 0
            else r == c
  {
    hide Interrupt, Ram.Read32;
    if c.nmi {
      InterruptLeads(c.(nmi := false), 7);
      InterruptPending(c.(nmi := false), 7);
    } else if c.intLevel > c.flags.intMask {
      InterruptLeads(c, c.intLevel / 0x100);
      InterruptPending(c, c.intLevel / 0x100);
    }
  }

  /** A trap's frame ends with the address of the instruction that trapped. */
  lemma TrapKeepsAddress(c: Core, vector: Vector)
    requires Valid(c) && c.family.M68020?
    ensures Ram.Read32(Trap(c, vector).memory, c.bus, SupervisorPointer(c) - 4) == c.ppc
  {
    hide Frame2, Ram.Read32, GetSr, Init, SupervisorPointer, VectorAddress;
    Readable(c.family, c.flags);
    InitState(c);
    Frame2Address(Init(c), GetSr(c.flags), vector);
  }

  /** Entry writes the frames and nothing else. */
  lemma EntryKeeps(c: Core, e: Event, live: set<int>)
    requires Valid(c) && Taken(c, e) && Apart(c, e) && live !! FrameCells(c, e)
    ensures Ram.Same(live, c.memory, Enter(c, e).memory)
    ensures (Enter(c, e).family, Enter(c, e).bus) == (c.family, c.bus)
  {
    hide Instruction, Trap, Interrupt, FrameCells, Apart, FrameAt, Ram.Same, PointersOf, Legal;
    if Throwaway(c, e) {
      EnteredPair(c, e.level, live);
    } else {
      EnteredSingle(c, e, live);
    }
  }

  // ---- frames and returns, word by word ------------------------------------------------------

  /** What each exception leaves on the supervisor stack in use: status register, program counter, and from the
      68010 on the format and vector; the trap frame ends with the trapping instruction's address, and an interrupt
      from the master stack leaves a second frame on the interrupt stack. */
  lemma FramesAre(c: Core, e: Event)
    requires Valid(c) && Taken(c, e) && Apart(c, e)
    ensures var r, bus := Enter(c, e), c.bus;
            var sp: int, isp: int := if c.flags.m != 0 then PointersOf(c).msp else PointersOf(c).isp, PointersOf(c).isp;
            var pc := if e.InstructionEvent? && e.again then c.ppc else c.pc;
            var vector := if e.InstructionEvent? then e.vector else if e.TrapEvent? then e.trap else 24 + e.level;
            var offset := vector * 4;
            var n := if c.family.M68000? then 6 else if c.family.M68020? && e.TrapEvent? then 12 else 8;
            && Ram.Read16(r.memory, bus, sp - n) == GetSr(c.flags)
            && Ram.Read32(r.memory, bus, sp - n + 2) == pc
            && (n == 8 ==> Ram.Read16(r.memory, bus, sp - 2) == offset)
            && (n == 12 ==> Ram.Read16(r.memory, bus, sp - 6) == 0x2000 + offset
                            && Ram.Read32(r.memory, bus, sp - 4) == c.ppc)
            && (e.InterruptEvent? && c.flags.m != 0 ==>
                  && Ram.Read16(r.memory, bus, isp - 8) == GetSr(c.flags.(s := 4))
                  && Ram.Read32(r.memory, bus, isp - 6) == c.pc
                  && Ram.Read16(r.memory, bus, isp - 2) == 0x1000 + offset)
  {
    hide GetSr, PointersOf, Ram.Read16, Ram.Read32, Instruction, Trap, Interrupt, Ram.Cells, Ram.Same, Lowered;
    if Throwaway(c, e) {
      EnteredPair(c, e.level, {});
    } else {
      EnteredSingle(c, e, {});
      if e.TrapEvent? && c.family.M68020? {
        TrapKeepsAddress(c, e.trap);
      }
    }
  }

  /** The supervisor pointer in use moved by `n` bytes, and the other two pointers as they were. */
  ghost predicate SupervisorMoved(h: Core, r: Core, n: int)
    requires Valid(h) && Valid(r)
  {
    var p := PointersOf(h);
    PointersOf(r) == if h.flags.m == 0 then p.(isp := Wrap(p.isp + n)) else p.(msp := Wrap(p.msp + n))
  }

  /** RTE in user mode is a privilege violation: the frame holds the address of the RTE itself and vector 8. */
  lemma RteInUserMode(h: Core, limit: nat)
    requires Valid(h) && h.intLevel < 0x800 && h.flags.s == 0
    ensures Rte(h, limit).Some?
    ensures RaisedFrom(h, Rte(h, limit).value, h.ppc, 8)
  {
    hide Instruction, RaisedFrom, GetSr;
    RaisesFrame(h, 8, true);
  }

  /** A format the processor does not know is a format error: the program counter and vector 14. */
  lemma RteFormatError(h: Core, limit: nat)
    requires Valid(h) && h.intLevel < 0x800 && h.flags.s == 4
    requires var format := Ram.Read16(h.memory, h.bus, h.a7 + 6) / 0x1000;
             (h.family.M68010? && format !in {0, 8}) || (h.family.M68020? && format !in {0, 1, 2})
    ensures Rte(h, limit).Some?
    ensures RaisedFrom(h, Rte(h, limit).value, h.pc, 14)
  {
    hide Instruction, RaisedFrom, GetSr, Ram.Read16;
    RaisesFrame(h, 14, false);
  }

  /** A frame with status register, program counter `pc` and vector lies below the supervisor pointer of `h`, and
      the handler starts at the longword of the vector. */
  ghost predicate RaisedFrom(h: Core, r: Core, pc: u32, vector: Vector) {
    && Valid(h) && Valid(r)
    && var n, p := if h.family.M68000? then 6 else 8, PointersOf(h);
    && var sp: int := if h.flags.m != 0 then p.msp else p.isp;
    && Ram.Read16(r.memory, h.bus, sp - n) == GetSr(h.flags)
    && Ram.Read32(r.memory, h.bus, sp - n + 2) == pc
    && (n == 8 ==> Ram.Read16(r.memory, h.bus, sp - 2) == vector * 4)
    && SupervisorMoved(h, r, -n)
    && r.pc == Ram.Read32(r.memory, h.bus, vector * 4 + h.vbr)
    && r.flags == h.flags.(t1 := 0, t0 := 0, s := 4)
  }

  lemma RaisesFrame(h: Core, vector: Vector, again: bool)
    requires Valid(h)
    ensures RaisedFrom(h, Instruction(h, vector, again), if again then h.ppc else h.pc, vector)
  {
    hide GetSr, PointersOf, Ram.Read16, Ram.Read32, Instruction, Ram.Cells, Ram.Same, Legal;
    InstructionState(h, vector, again, {});
    InstructionPc(h, vector, again);
    VectorIs(Instruction(h, vector, again), vector);
  }

  /** How many bytes the frame at the stack pointer takes, if RTE returns through it: three words on the 68000,
      format 0 and the 29 words of format 8 on the 68010, formats 0 and 2 from the 68020 on. */
  function ReturnSize(family: Family, format: nat): Option<nat> {
    match family
    case M68000 => Some(6)
    case M68010 => if format == 0 then Some(8) else if format == 8 then Some(58) else None
    case M68020 => if format == 0 then Some(8) else if format == 2 then Some(12) else None
  }

  /** RTE takes the status register and program counter from the frame and the frame off the stack, and then looks
      at interrupts. */
  lemma RteResumes(h: Core, limit: nat) returns (r: Core)
    requires Valid(h) && h.intLevel < 0x800 && h.flags.s == 4
    requires ReturnSize(h.family, Ram.Read16(h.memory, h.bus, h.a7 + 6) / 0x1000).Some?
    ensures Valid(r) && r.intLevel == h.intLevel && Rte(h, limit) == Some(CheckInterrupts(r))
    ensures r.pc == Ram.Read32(h.memory, h.bus, h.a7 + 2) && r.memory == h.memory
    ensures GetSr(r.flags)
         == And(Ram.Read16(h.memory, h.bus, h.a7), if h.family.M68020? then 0xF71F else 0xA71F)
    ensures SupervisorMoved(h, r, ReturnSize(h.family, Ram.Read16(h.memory, h.bus, h.a7 + 6) / 0x1000).value)
  {
    hide Resumed, CheckInterrupts, Ram.Read16, Ram.Read32, GetSr, And, PointersOf, Legal;
    var more: nat := ReturnSize(h.family, Ram.Read16(h.memory, h.bus, h.a7 + 6) / 0x1000).value - 6;
    ResumedIs(h, more);
    r := Resumed(h, more);
  }

  /** A throwaway frame gives the mode to go on in: RTE starts again at the stack pointer that mode selects. */
  lemma RteDiscards(h: Core, limit: nat) returns (d: Core)
    requires Valid(h) && h.intLevel < 0x800 && h.flags.s == 4 && h.family.M68020? && limit > 0
    requires Ram.Read16(h.memory, h.bus, h.a7 + 6) / 0x1000 == 1
    ensures Valid(d) && d.intLevel == h.intLevel && Rte(h, limit) == RteLoop(d, limit - 1)
    ensures GetSr(d.flags) == And(Ram.Read16(h.memory, h.bus, h.a7), 0xF71F) && d.memory == h.memory
    ensures SupervisorMoved(h, d, 8)
  {
    hide Discard, Ram.Read16, Ram.Read32, GetSr, And, PointersOf, Legal, Resume;
    DiscardIs(h);
    d := Discard(h);
    assert RteLoop(h, limit) == RteLoop(d, limit - 1);
  }
}
