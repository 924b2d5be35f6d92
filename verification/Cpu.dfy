/** The processor object: status register, stacks, exception entry and RTE as the emulator runs them,
    each tied to its specification on values. */
module Cpu {
  import opened Words
  import opened Bitwise
  import opened StatusRegister
  import opened Stacks
  import E = Exceptions
  import Ram

  class Processor {
    const family: Family
    const bus: Ram.Bus
    const bank: array<u32>
    var a7: u32
    var pc: u32
    var ppc: u32
    var vbr: u32
    var flags: Flags
    var intLevel: nat
    var nmi: bool
    var stopped: bool
    var halted: bool
    var memory: Ram.Memory

    function State(): Core
      reads this, bank
    {
      Core(family, bus, a7, bank[..], pc, ppc, vbr, flags, intLevel, nmi, stopped, halted, memory)
    }

    predicate Valid()
      reads this, bank
    {
      bank.Length == 7 && Stacks.Valid(State())
    }

    // ---- stack pointers and flags --------------------------------------------------------------

    /** Enter supervisor mode; no stack pointer a program sees moves. */
    method SetSFlag(value: nat)
      requires Valid() && value == 4
      modifies this`a7, this`flags, bank
      ensures Valid() && State() == SetS(old(State()))
      ensures flags == old(flags).(s := 4) && PointersOf(State()) == PointersOf(old(State()))
    {
      hide PointersOf;
      SwitchKeepsPointers(State(), flags.(s := value));
      bank[if flags.s == 4 then 4 + flags.m else 0] := a7;
      flags := flags.(s := value);
      a7 := bank[if flags.s == 4 then 4 + flags.m else 0];
    }

    /** Change the mode; no stack pointer a program sees moves. */
    method SetSmFlag(s: nat, m: nat)
      requires Valid() && Legal(family, flags.(s := s, m := m))
      modifies this`a7, this`flags, bank
      ensures Valid() && State() == Switch(old(State()), old(flags).(s := s, m := m))
      ensures flags == old(flags).(s := s, m := m) && PointersOf(State()) == PointersOf(old(State()))
    {
      hide PointersOf, GetSr;
      SwitchKeepsPointers(State(), flags.(s := s, m := m));
      bank[if flags.s == 4 then 4 + flags.m else 0] := a7;
      flags := flags.(s := s, m := m);
      a7 := bank[if flags.s == 4 then 4 + flags.m else 0];
    }

    method WriteSrNoint(sr: Ram.u16)
      requires Valid()
      modifies this`a7, this`flags, bank
      ensures Valid() && State() == SetSrNoint(old(State()), sr)
    {
      hide And;
      GetAfterSet(family, flags, sr);
      var value := And(sr, Mask(family));
      ghost var was := flags;
      flags := flags.(t1 := Bit(value, 0x8000), t0 := Bit(value, 0x4000), intMask := value / 0x100 % 8 * 0x100);
      flags := SetCcr(flags, value);
      assert flags.(s := value / 0x800 / 4 % 2 * 4, m := value / 0x800 / 2 % 2 * 2) == SetSr(family, was, sr);
      SetSmFlag(value / 0x800 / 4 % 2 * 4, value / 0x800 / 2 % 2 * 2);
    }

    /** The value is where the pointer in use now points; that pointer has moved, and no other byte. */
    method Push16(value: Ram.u16)
      requires Valid()
      modifies this`a7, this`memory
      ensures Valid() && State() == Stacks.Push16(old(State()), value)
      ensures Ram.Read16(memory, bus, a7) == value
      ensures PointersOf(State()) == Moved(PointersOf(old(State())), flags, -2)
      ensures Ram.SameElsewhere(Ram.Cells(bus, a7, 2), old(memory), memory)
    {
      hide PointersOf, Moved, Ram.Read16, Ram.Cells, Ram.SameElsewhere, Stacks.Pull16;
      PushWordIs(State(), value);
      a7 := Wrap(a7 - 2);
      memory := Ram.Write16(memory, bus, a7, value);
    }

    method Push32(value: u32)
      requires Valid()
      modifies this`a7, this`memory
      ensures Valid() && State() == Stacks.Push32(old(State()), value)
      ensures Ram.Read32(memory, bus, a7) == value
      ensures PointersOf(State()) == Moved(PointersOf(old(State())), flags, -4)
      ensures Ram.SameElsewhere(Ram.Cells(bus, a7, 4), old(memory), memory)
    {
      hide PointersOf, Moved, Ram.Read32, Ram.Cells, Ram.SameElsewhere, Stacks.Pull32;
      PushLongIs(State(), value);
      a7 := Wrap(a7 - 4);
      memory := Ram.Write32(memory, bus, a7, value);
    }

    /** The value the pointer in use pointed at; that pointer has moved past it. */
    method Pull16() returns (value: Ram.u16)
      requires Valid()
      modifies this`a7
      ensures Valid() && (State(), value) == Stacks.Pull16(old(State()))
      ensures value == Ram.Read16(memory, bus, old(a7))
      ensures PointersOf(State()) == Moved(PointersOf(old(State())), flags, 2)
    {
      hide PointersOf, Moved, Ram.Read16;
      PullIs(State());
      a7 := Wrap(a7 + 2);
      value := Ram.Read16(memory, bus, a7 - 2);
    }

    method Pull32() returns (value: u32)
      requires Valid()
      modifies this`a7
      ensures Valid() && (State(), value) == Stacks.Pull32(old(State()))
      ensures value == Ram.Read32(memory, bus, old(a7))
      ensures PointersOf(State()) == Moved(PointersOf(old(State())), flags, 4)
    {
      hide PointersOf, Moved, Ram.Read32;
      PullIs(State());
      a7 := Wrap(a7 + 4);
      value := Ram.Read32(memory, bus, a7 - 4);
    }

    method FakePull(n: nat)
      modifies this`a7
      ensures State() == Stacks.Drop(old(State()), n)
    {
      a7 := Wrap(a7 + n);
    }

    // ---- exception entry -----------------------------------------------------------------------

    method InitException() returns (sr: Ram.u16)
      requires Valid()
      modifies this`a7, this`flags, bank
      ensures Valid() && State() == E.Init(old(State())) && sr == GetSr(old(flags))
    {
      hide GetSr;
      Readable(family, flags);
      sr := GetSr(flags);
      flags := flags.(t1 := 0, t0 := 0);
      SetSFlag(4);
    }

    method StackFrame3Word(pc: u32, sr: Ram.u16)
      requires Valid()
      modifies this`a7, this`memory
      ensures Valid() && State() == E.PushFrame(old(State()), sr, pc)
    {
      hide PointersOf, Moved, Ram.Read16, Ram.Read32, Ram.Cells, Ram.SameElsewhere;
      Push32(pc);
      Push16(sr);
    }

    /** The frame lies below the old stack pointer: three words on the 68000, and else with its vector word. */
    method StackFrame0000(pc: u32, sr: Ram.u16, vector: E.Vector)
      requires Valid()
      modifies this`a7, this`memory
      ensures Valid() && State() == E.Frame0(old(State()), pc, sr, vector)
      ensures E.Pushed(old(State()), State(), E.Size0(family), sr, pc, if family == M68000 then -1 else vector * 4)
    {
      hide PointersOf, Moved, Ram.Read16, Ram.Cells, Ram.SameElsewhere, E.Pushed, E.PushFrame;
      E.Frame0Is(State(), pc, sr, vector);
      if family == M68000 {
        StackFrame3Word(pc, sr);
        return;
      }
      Push16(vector * 4);
      StackFrame3Word(pc, sr);
    }

    method StackFrame0001(pc: u32, sr: Ram.u16, vector: E.Vector)
      requires Valid()
      modifies this`a7, this`memory
      ensures Valid() && State() == E.Frame1(old(State()), pc, sr, vector)
      ensures E.Pushed(old(State()), State(), 8, sr, pc, 0x1000 + vector * 4)
    {
      hide PointersOf, Moved, Ram.Read16, Ram.Cells, Ram.SameElsewhere, E.Pushed, E.PushFrame;
      E.Frame1Is(State(), pc, sr, vector);
      Push16(0x1000 + vector * 4);
      StackFrame3Word(pc, sr);
    }

    /** Above the vector word, the address of the instruction that trapped. */
    method StackFrame0010(sr: Ram.u16, vector: E.Vector)
      requires Valid()
      modifies this`a7, this`memory
      ensures Valid() && State() == E.Frame2(old(State()), sr, vector)
      ensures E.Pushed(old(State()), State(), 12, sr, pc, 0x2000 + vector * 4)
      ensures Ram.Read32(memory, bus, old(a7) - 4) == ppc
    {
      hide PointersOf, Moved, Ram.Read16, Ram.Read32, Ram.Cells, Ram.SameElsewhere, E.Pushed, E.PushFrame;
      E.Frame2Is(State(), sr, vector);
      Push32(ppc);
      Push16(0x2000 + vector * 4);
      StackFrame3Word(pc, sr);
    }

    method JumpVector(vector: E.Vector)
      modifies this`pc
      ensures State() == E.JumpVector(old(State()), vector)
    {
      pc := Wrap(vector * 4 + vbr);
      pc := Ram.Read32(memory, bus, pc);
    }

    /** TRAP #n, illegal and privileged instructions, format errors. */
    method ExceptionInstruction(vector: E.Vector, again: bool)
      requires Valid()
      modifies this`a7, this`flags, this`memory, this`pc, bank
      ensures Valid() && State() == E.Instruction(old(State()), vector, again)
    {
      hide GetSr, E.Init, E.Frame0, Ram.Read32, E.Pushed, PointersOf;
      Readable(family, flags);
      var sr := InitException();
      StackFrame0000(if again then ppc else pc, sr, vector);
      JumpVector(vector);
    }

    method ExceptionTrap(vector: E.Vector)
      requires Valid()
      modifies this`a7, this`flags, this`memory, this`pc, bank
      ensures Valid() && State() == E.Trap(old(State()), vector)
    {
      hide GetSr, E.Init, E.Frame0, E.Frame2, Ram.Read32, E.Pushed, PointersOf;
      Readable(family, flags);
      var sr := InitException();
      if family != M68020 {
        StackFrame0000(pc, sr, vector);
      } else {
        StackFrame0010(sr, vector);
      }
      JumpVector(vector);
    }

    method ExceptionInterrupt(level: nat)
      requires Valid() && level < 8
      modifies this`a7, this`flags, this`memory, this`pc, this`stopped, this`intLevel, bank
      ensures Valid() && State() == E.Interrupt(old(State()), level)
      ensures var own := Ram.Read32(old(memory), bus, (24 + level) * 4 + vbr);
              !halted ==> pc == if own != 0 then own else Ram.Read32(old(memory), bus, 60 + vbr)
    {
      hide GetSr, E.Frame0, E.Frame1, E.Init, ClearM, E.InterruptTarget, E.WithS, E.Pushed, PointersOf, Ram.Read32;
      if !halted {
        E.InterruptLeads(State(), level);
      }
      Readable(family, flags);
      SameTarget(State(), E.AUTOVECTOR + level);
      stopped := false;
      if halted {
        return;
      }
      var vector := E.AUTOVECTOR + level;
      var sr := InitException();
      flags := flags.(intMask := level * 0x100);
      var newPc := InterruptTarget(vector);
      StackFrame0000(pc, sr, vector);
      if flags.m != 0 && family == M68020 {
        ThrowawayFrame(sr, vector);
      }
      pc := newPc;
      intLevel := 0;
    }

    method InterruptTarget(vector: E.Vector) returns (newPc: u32)
      ensures newPc == E.InterruptTarget(State(), vector)
    {
      newPc := Ram.Read32(memory, bus, Wrap(vector * 4 + vbr));
      if newPc == 0 {
        newPc := Ram.Read32(memory, bus, Wrap(E.UNINITIALIZED * 4 + vbr));
      }
    }

    /** Move to the interrupt stack and push the throwaway frame there. */
    method ThrowawayFrame(sr: Ram.u16, vector: E.Vector)
      requires Valid()
      modifies this`a7, this`flags, this`memory, bank
      ensures Valid() && State() == E.Frame1(ClearM(old(State())), old(pc), E.WithS(sr), vector)
    {
      SetSmFlag(flags.s, 0);
      StackFrame0001(pc, E.WithS(sr), vector);
    }

    method CheckInterrupts()
      requires Valid() && intLevel < 0x800
      modifies this`a7, this`flags, this`memory, this`pc, this`stopped, this`intLevel, this`nmi, bank
      ensures Valid() && State() == E.CheckInterrupts(old(State()))
    {
      hide E.Interrupt;
      if nmi {
        nmi := false;
        ExceptionInterrupt(7);
      } else if intLevel > flags.intMask {
        ExceptionInterrupt(intLevel / 0x100);
      }
    }

    // ---- RTE -----------------------------------------------------------------------------------

    /** Pull a frame and resume; `more` bytes follow its program counter. */
    method Resume(more: nat)
      requires Valid() && intLevel < 0x800
      modifies this`a7, this`flags, this`memory, this`pc, this`stopped, this`intLevel, this`nmi, bank
      ensures Valid() && State() == E.Resume(old(State()), more)
    {
      hide E.CheckInterrupts, SetSrNoint, Ram.Read16, Ram.Read32;
      var newSr := Pull16();
      var newPc := Pull32();
      FakePull(more);
      pc := newPc;
      WriteSrNoint(newSr);
      CheckInterrupts();
    }

    /** RTE; `done` is false when more than `limit` throwaway frames follow one another. */
    method Rte(limit: nat) returns (done: bool)
      requires Valid() && intLevel < 0x800
      modifies this`a7, this`flags, this`memory, this`pc, this`stopped, this`intLevel, this`nmi, bank
      ensures Valid()
      ensures E.Rte(old(State()), limit) == if done then Some(State()) else None
      ensures old(flags.s) == 0 ==> done && E.RaisedFrom(old(State()), State(), old(ppc), 8)
    {
      hide E.Resume, E.Instruction, E.FormatOf, E.RteLoop, Legal, E.RaisedFrom;
      if flags.s == 0 {
        E.RteInUserMode(State(), limit);
        ExceptionInstruction(E.PRIVILEGE_VIOLATION, true);
        return true;
      }
      if family == M68000 {
        Resume(0);
        return true;
      }
      if family == M68010 {
        var formatWord := ReadFormat();
        if formatWord == 0 {
          Resume(2);
        } else if formatWord == 8 {
          Resume(52);
        } else {
          ExceptionInstruction(E.FORMAT_ERROR, false);
        }
        return true;
      }
      done := RteLoop(limit);
    }

    /** RTE from the 68020 on, through any throwaway frames. */
    method RteLoop(limit: nat) returns (done: bool)
      requires Valid() && intLevel < 0x800
      modifies this`a7, this`flags, this`memory, this`pc, this`stopped, this`intLevel, this`nmi, bank
      ensures Valid()
      ensures E.RteLoop(old(State()), limit) == if done then Some(State()) else None
    {
      hide E.Resume, E.Instruction, E.FormatOf, Stacks.Pull16, SetSrNoint, Legal, PointersOf, Moved, Ram.Read16;
      var left: nat := limit;
      while true
        invariant Valid() && intLevel < 0x800 && left <= limit
        invariant E.RteLoop(State(), left) == E.RteLoop(old(State()), limit)
        decreases left
      {
        var formatWord := ReadFormat();
        if formatWord == 0 {
          Resume(2);
          return true;
        } else if formatWord == 1 {
          if left == 0 {
            return false;
          }
          var newSr := Pull16();
          FakePull(4);
          FakePull(2);
          WriteSrNoint(newSr);
          left := left - 1;
        } else if formatWord == 2 {
          Resume(6);
          return true;
        } else {
          ExceptionInstruction(E.FORMAT_ERROR, false);
          return true;
        }
      }
    }

    method ReadFormat() returns (format: nat)
      ensures format == E.FormatOf(State())
    {
      format := Ram.Read16(memory, bus, a7 + 6) / 0x1000;
    }

    // ---- entry and return ----------------------------------------------------------------------

    /** Take an exception. */
    method Take(e: E.Event)
      requires Valid() && E.Taken(State(), e)
      modifies this`a7, this`flags, this`memory, this`pc, this`stopped, this`intLevel, bank
      ensures Valid() && State() == E.Enter(old(State()), e)
    {
      hide E.Instruction, E.Trap, E.Interrupt;
      match e {
        case InstructionEvent(vector, again) => ExceptionInstruction(vector, again);
        case TrapEvent(vector) => ExceptionTrap(vector);
        case InterruptEvent(level) => ExceptionInterrupt(level);
      }
    }

    /** RTE at the end of a handler that `e` entered from state `c` and that has left frames, mode and stack
        pointers as it found them, with nothing pending above the mask of `c`: program counter, status
        register and all three stack pointers are those of `c`. */
    method ReturnFrom(ghost c: Core, ghost e: E.Event, limit: nat) returns (done: bool)
      requires Stacks.Valid(c) && E.Taken(c, e) && E.Apart(c, e) && (E.Throwaway(c, e) ==> limit > 0)
      requires Valid() && intLevel < 0x800 && !nmi && intLevel <= c.flags.intMask
      requires E.Balanced(E.Enter(c, e), State(), E.FrameCells(c, e))
      modifies this`a7, this`flags, this`memory, this`pc, this`stopped, this`intLevel, this`nmi, bank
      ensures done && Valid() && E.Restored(c, e, State()) && memory == old(memory)
    {
      hide E.Rte, E.Enter, E.Balanced, E.Apart, E.FrameCells, E.Restored, E.Throwaway, PointersOf, Legal;
      E.RteRestores(c, e, State(), limit);
      done := Rte(limit);
    }

    /** An exception and its return at once: nothing but the frames is left of it. */
    method TakeAndReturn(e: E.Event)
      requires Valid() && intLevel < 0x800 && E.Taken(State(), e) && E.Apart(State(), e)
      requires !nmi && (e.InterruptEvent? || intLevel <= flags.intMask)
      modifies this`a7, this`flags, this`memory, this`pc, this`stopped, this`intLevel, this`nmi, bank
      ensures Valid() && E.Restored(old(State()), e, State())
      ensures Ram.SameElsewhere(E.FrameCells(old(State()), e), old(memory), memory)
    {
      hide E.Enter, E.Apart, E.FrameCells, E.Restored, E.Throwaway, PointersOf, Legal, E.Taken, Ram.Byte;
      ghost var c := State();
      Take(e);
      E.EntryLeaves(c, e);
      E.AtOnce(c, e);
      var _ := ReturnFrom(c, e, 1);
    }
  }

  /** Neither the mode switch nor the mask changes where an interrupt goes. */
  lemma SameTarget(c: Core, vector: E.Vector)
    requires Stacks.Valid(c)
    ensures forall level: nat | level < 8 ::
      E.InterruptTarget(E.Raised(E.Init(c.(stopped := false)), level), vector) == E.InterruptTarget(c, vector)
  {
    hide Ram.Read32;
  }
}
