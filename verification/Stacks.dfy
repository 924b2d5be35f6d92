/** The processor state that exceptions touch, with its one active and three banked stack pointers. */
module Stacks {
  import opened Words
  import opened StatusRegister
  import Ram

  /** `a7` is the active stack pointer; `bank` saves the others at index 0 (USP), 4 (ISP) and 6 (MSP).
      `intLevel` is the pending interrupt level times 0x100, as the interrupt mask is kept. */
  datatype Core = Core(family: Family, bus: Ram.Bus, a7: u32, bank: seq<u32>, pc: u32, ppc: u32, vbr: u32,
                       flags: Flags, intLevel: nat, nmi: bool, stopped: bool, halted: bool, memory: Ram.Memory)

  predicate Valid(c: Core) {
    |c.bank| == 7 && Legal(c.family, c.flags)
  }

  /** Where the bank keeps the stack pointer the S and M flags select. */
  function Active(f: Flags): nat {
    if f.s == 4 then 4 + f.m else 0
  }

  /** The stack pointers a program sees. */
  datatype Pointers = Pointers(usp: u32, isp: u32, msp: u32)

  function PointersOf(c: Core): Pointers
    requires Valid(c)
  {
    Pointers(if c.flags.s != 0 then c.bank[0] else c.a7,
             if c.flags.s != 0 && c.flags.m == 0 then c.a7 else c.bank[4],
             if c.flags.s != 0 && c.flags.m != 0 then c.a7 else c.bank[6])
  }

  /** Save the active pointer, change the flags, load the pointer they select. */
  function Switch(c: Core, f: Flags): (r: Core)
    requires Valid(c) && Legal(c.family, f)
    ensures Valid(r)
  {
    var bank := c.bank[Active(c.flags) := c.a7];
    c.(bank := bank, a7 := bank[Active(f)], flags := f)
  }

  function SetS(c: Core): (r: Core)
    requires Valid(c)
    ensures Valid(r)
  {
    Switch(c, c.flags.(s := 4))
  }

  function ClearM(c: Core): (r: Core)
    requires Valid(c)
    ensures Valid(r)
  {
    Switch(c, c.flags.(m := 0))
  }

  function SetSrNoint(c: Core, sr: Ram.u16): (r: Core)
    requires Valid(c)
    ensures Valid(r)
  {
    GetAfterSet(c.family, c.flags, sr);
    Switch(c, SetSr(c.family, c.flags, sr))
  }

  function Push16(c: Core, v: Ram.u16): Core {
    var a7 := Wrap(c.a7 - 2);
    c.(a7 := a7, memory := Ram.Write16(c.memory, c.bus, a7, v))
  }

  function Push32(c: Core, v: u32): Core {
    var a7 := Wrap(c.a7 - 4);
    c.(a7 := a7, memory := Ram.Write32(c.memory, c.bus, a7, v))
  }

  function Pull16(c: Core): (Core, Ram.u16) {
    var a7 := Wrap(c.a7 + 2);
    (c.(a7 := a7), Ram.Read16(c.memory, c.bus, a7 - 2))
  }

  function Pull32(c: Core): (Core, u32) {
    var a7 := Wrap(c.a7 + 4);
    (c.(a7 := a7), Ram.Read32(c.memory, c.bus, a7 - 4))
  }

  /** Pull `n` bytes without reading them. */
  function Drop(c: Core, n: nat): Core {
    c.(a7 := Wrap(c.a7 + n))
  }

  // ---- banking is invisible ------------------------------------------------------------------

  /** Switching stacks moves no stack pointer. */
  lemma SwitchKeepsPointers(c: Core, f: Flags)
    requires Valid(c) && Legal(c.family, f)
    ensures PointersOf(Switch(c, f)) == PointersOf(c)
  {
  }

  /** Everything that moves stack pointers, and every way to change S and M. */
  datatype Op = PushWord(w: Ram.u16) | PushLong(l: u32) | PullWord | PullLong | DropBytes(n: nat)
              | WriteSr(sr: Ram.u16) | EnterSupervisor | LeaveMaster

  function Step(c: Core, op: Op): (r: Core)
    requires Valid(c)
    ensures Valid(r)
  {
    match op
    case PushWord(w) => Push16(c, w)
    case PushLong(l) => Push32(c, l)
    case PullWord => Pull16(c).0
    case PullLong => Pull32(c).0
    case DropBytes(n) => Drop(c, n)
    case WriteSr(sr) => SetSrNoint(c, sr)
    case EnterSupervisor => SetS(c)
    case LeaveMaster => ClearM(c)
  }

  function Run(c: Core, ops: seq<Op>): (r: Core)
    requires Valid(c)
    ensures Valid(r)
    decreases |ops|
  {
    if ops == [] then c else Run(Step(c, ops[0]), ops[1..])
  }

  /** How far an operation moves the stack pointer in use. */
  function Moves(op: Op): int {
    match op
    case PushWord(_) => -2
    case PushLong(_) => -4
    case PullWord => 2
    case PullLong => 4
    case DropBytes(n) => n
    case _ => 0
  }

  /** Three separate stack pointers and no bank: an operation moves the one the mode selects. */
  function Moved(p: Pointers, f: Flags, delta: int): Pointers {
    if f.s == 0 then p.(usp := Wrap(p.usp + delta))
    else if f.m == 0 then p.(isp := Wrap(p.isp + delta))
    else p.(msp := Wrap(p.msp + delta))
  }

  function ModeAfter(family: Family, f: Flags, op: Op): Flags {
    match op
    case WriteSr(sr) => SetSr(family, f, sr)
    case EnterSupervisor => f.(s := 4)
    case LeaveMaster => f.(m := 0)
    case _ => f
  }

  function MovedAll(family: Family, p: Pointers, f: Flags, ops: seq<Op>): Pointers
    decreases |ops|
  {
    if ops == [] then p
    else MovedAll(family, Moved(p, f, Moves(ops[0])), ModeAfter(family, f, ops[0]), ops[1..])
  }

  /** Over every run of pushes, pulls and mode changes the banked stack pointers behave as three
      independent ones: each changes only by the pushes and pulls made while it was selected. */
  lemma {:induction false} BankingIsInvisible(c: Core, ops: seq<Op>)
    requires Valid(c)
    ensures PointersOf(Run(c, ops)) == MovedAll(c.family, PointersOf(c), c.flags, ops)
    decreases |ops|
  {
    hide SetSr, Legal;
    if ops != [] {
      StepMoves(c, ops[0]);
      BankingIsInvisible(Step(c, ops[0]), ops[1..]);
    }
  }

  lemma StepMoves(c: Core, op: Op)
    requires Valid(c)
    ensures PointersOf(Step(c, op)) == Moved(PointersOf(c), c.flags, Moves(op))
    ensures Step(c, op).flags == ModeAfter(c.family, c.flags, op) && Step(c, op).family == c.family
  {
    hide SetSr, Ram.Read16, Ram.Read32, Ram.Write16, Ram.Write32, PointersOf, Moved;
    PointerMoves(c, Step(c, op), Moves(op));
    match op
    case WriteSr(sr) =>
      GetAfterSet(c.family, c.flags, sr);
      SwitchKeepsPointers(c, SetSr(c.family, c.flags, sr));
    case EnterSupervisor => SwitchKeepsPointers(c, c.flags.(s := 4));
    case LeaveMaster => SwitchKeepsPointers(c, c.flags.(m := 0));
    case _ =>
  }

  lemma PointerMoves(c: Core, r: Core, delta: int)
    requires Valid(c) && Valid(r)
    ensures Moved(PointersOf(c), c.flags, 0) == PointersOf(c)
    ensures r.flags == c.flags && r.bank == c.bank && r.a7 == Wrap(c.a7 + delta)
      ==> PointersOf(r) == Moved(PointersOf(c), c.flags, delta)
  {
  }

  // ---- pushes and pulls ----------------------------------------------------------------------

  /** A push moves the pointer in use, puts the value where it then points, and changes nothing else. */
  lemma PushWordIs(c: Core, v: Ram.u16)
    requires Valid(c)
    ensures var r := Push16(c, v);
            && PointersOf(r) == Moved(PointersOf(c), c.flags, -2)
            && Ram.Read16(r.memory, c.bus, r.a7) == v
            && Ram.SameElsewhere(Ram.Cells(c.bus, r.a7, 2), c.memory, r.memory)
            && Pull16(r) == (c.(memory := r.memory), v)
  {
    hide Ram.Read16, Ram.Write16, Ram.Cells, Wrap, PointersOf, Moved, Ram.SameElsewhere;
    var r := Push16(c, v);
    PointerMoves(c, r, -2);
    Ram.ReadWrite16(c.memory, c.bus, r.a7, v);
    Ram.WriteElsewhere16(c.memory, c.bus, r.a7, v);
    BackUp(c.a7, 2);
    Ram.ReadOfWrap(r.memory, c.bus, r.a7 + 2, -2);
  }

  lemma PushLongIs(c: Core, v: u32)
    requires Valid(c)
    ensures var r := Push32(c, v);
            && PointersOf(r) == Moved(PointersOf(c), c.flags, -4)
            && Ram.Read32(r.memory, c.bus, r.a7) == v
            && Ram.SameElsewhere(Ram.Cells(c.bus, r.a7, 4), c.memory, r.memory)
            && Pull32(r) == (c.(memory := r.memory), v)
  {
    hide Ram.Read16, Ram.Read32, Ram.Write32, Ram.Cells, Wrap, PointersOf, Moved, Ram.SameElsewhere;
    var r := Push32(c, v);
    PointerMoves(c, r, -4);
    Ram.ReadWrite32(c.memory, c.bus, r.a7, v);
    Ram.WriteElsewhere32(c.memory, c.bus, r.a7, v);
    BackUp(c.a7, 4);
    Ram.ReadOfWrap(r.memory, c.bus, r.a7 + 4, -4);
  }

  lemma BackUp(a: u32, n: int)
    ensures Wrap(Wrap(a - n) + n) == a
  {
    WrapAgain(a - n, n);
  }

  /** A pull reads where the pointer in use points, and moves it past. */
  lemma PullIs(c: Core)
    requires Valid(c)
    ensures Pull16(c).1 == Ram.Read16(c.memory, c.bus, c.a7)
    ensures Pull32(c).1 == Ram.Read32(c.memory, c.bus, c.a7)
    ensures PointersOf(Pull16(c).0) == Moved(PointersOf(c), c.flags, 2)
    ensures PointersOf(Pull32(c).0) == Moved(PointersOf(c), c.flags, 4)
  {
    hide Ram.Read16, Ram.Read32, Wrap, PointersOf, Moved;
    PointerMoves(c, Pull16(c).0, 2);
    PointerMoves(c, Pull32(c).0, 4);
    Ram.ReadOfWrap(c.memory, c.bus, c.a7 + 2, -2);
    Ram.ReadOfWrap(c.memory, c.bus, c.a7 + 4, -4);
  }
}
