/** Exceptions inside exception handlers, to any depth. */
module Nesting {
  import opened StatusRegister
  import opened Stacks
  import opened Exceptions
  import opened Words
  import Ram

  /** What the processor does: `Own` code leads to state `next`; an exception's handler ends with RTE.  An interrupt
      that RTE lets in before the interrupted code goes on is the first thing in `rest`. */
  datatype Run = Done | Own(next: Core, rest: Run) | Exception(event: Event, handler: Run, rest: Run)

  predicate Ready(c: Core) {
    Valid(c) && c.intLevel < 0x800 && c.intLevel % 0x100 == 0 && !c.halted
  }

  /** Taking a level 7 interrupt clears a pending NMI. */
  function Acknowledged(c: Core, e: Event): (r: Core)
    requires Valid(c)
    ensures Valid(r)
  {
    if e == InterruptEvent(7) then c.(nmi := false) else c
  }

  /** The interrupt that is pending. */
  function Due(c: Core): (e: Event)
    requires Ready(c) && Pending(c)
    ensures Taken(c, e)
  {
    InterruptEvent(if c.nmi then 7 else c.intLevel / 0x100)
  }

  /** Looking at interrupts enters the pending one. */
  function Checked(c: Core): Core
    requires Ready(c)
  {
    if Pending(c) then Enter(Acknowledged(c, Due(c)), Due(c)) else c
  }

  lemma CheckedIs(c: Core)
    requires Ready(c)
    ensures CheckInterrupts(c) == Checked(c)
  {
    hide Interrupt;
  }

  lemma EnterReady(c: Core, e: Event)
    requires Ready(c) && Taken(c, e)
    ensures Ready(Enter(c, e))
  {
    hide GetSr, VectorAddress, Ram.Write16, Ram.Write32, Legal;
  }

  /** A pending interrupt comes first. */
  predicate Follows(c: Core, run: Run)
    requires Ready(c)
  {
    Pending(c) ==> run.Exception? && run.event == Due(c)
  }

  /** The run's final state; None when RTE does not return to `back` and let in what is pending there. */
  function Exec(c: Core, run: Run): (r: Option<Core>)
    requires Ready(c)
    ensures r.Some? ==> Ready(r.value)
    decreases run
  {
    match run
    case Done => Some(c)
    case Own(next, rest) => if Ready(next) then Exec(next, rest) else None
    case Exception(e, handler, rest) =>
      if !Taken(c, e) then None
      else
        var c0 := Acknowledged(c, e);
        EnterReady(c0, e);
        var h := Exec(Enter(c0, e), handler);
        if h.None? then None
        else
          var back := Returned(h.value, c0, e);
          if Ready(back) && Rte(h.value, 1) == Some(Checked(back)) && Follows(back, rest) then Exec(back, rest)
          else None
  }

  /** Mode and stack pointers are as on entry to the handler. */
  predicate Level(c1: Core, h: Core) {
    && Valid(c1) && Valid(h)
    && (h.flags.s, h.flags.m) == (c1.flags.s, c1.flags.m) && PointersOf(h) == PointersOf(c1)
  }

  /** Code keeps the cells `live`; no exception's frames fall on cells still in use; a handler comes to its
      RTE with mode and stack pointers as it got them, and what is then pending is what happens next. */
  ghost predicate Orderly(c: Core, run: Run, live: set<int>)
    requires Ready(c)
    decreases run
  {
    match run
    case Done => true
    case Own(next, rest) =>
      && Ready(next) && (next.family, next.bus) == (c.family, c.bus)
      && Ram.Same(live, c.memory, next.memory) && Orderly(next, rest, live)
    case Exception(e, handler, rest) =>
      && Taken(c, e)
      && var c0 := Acknowledged(c, e);
      && Apart(c0, e) && live !! FrameCells(c0, e)
      && Ready(Enter(c0, e)) && Orderly(Enter(c0, e), handler, live + FrameCells(c0, e))
      && var h := Exec(Enter(c0, e), handler);
         (h.Some? ==>
            && Level(Enter(c0, e), h.value)
            && var back := Returned(h.value, c0, e);
               (Ready(back) ==> Follows(back, rest) && Orderly(back, rest, live)))
  }

  /** Every RTE of the run, at every depth, restores what its exception interrupted, and goes on there or, with an
      interrupt pending, in the handler of that interrupt. */
  ghost predicate AllRestored(c: Core, run: Run)
    requires Ready(c)
    decreases run
  {
    match run
    case Done => true
    case Own(next, rest) => Ready(next) && AllRestored(next, rest)
    case Exception(e, handler, rest) =>
      && Taken(c, e)
      && var c0 := Acknowledged(c, e);
      && Ready(Enter(c0, e)) && AllRestored(Enter(c0, e), handler)
      && var h := Exec(Enter(c0, e), handler);
      && h.Some?
      && var back := Returned(h.value, c0, e);
      && Ready(back) && Restored(c, e, back) && Rte(h.value, 1) == Some(Checked(back))
      && AllRestored(back, rest)
  }

  /** However deep exceptions nest, every orderly run gets through, each RTE restores the program counter,
      status register and stack pointers its exception interrupted, and live memory is untouched. */
  lemma {:induction false} NestedReturns(c: Core, run: Run, live: set<int>)
    requires Ready(c) && Orderly(c, run, live)
    ensures AllRestored(c, run) && Exec(c, run).Some?
    ensures var f := Exec(c, run).value;
            (f.family, f.bus) == (c.family, c.bus) && Ram.Same(live, c.memory, f.memory)
    decreases run
  {
    hide Enter, Rte, Restored, Apart, FrameCells, Ram.Same, Level, Legal, PointersOf, Returned, Checked, Pending;
    match run
    case Done => SameRefl(live, c.memory);
    case Own(next, rest) =>
      NestedReturns(next, rest, live);
      SameTrans(live, c.memory, next.memory, Exec(next, rest).value.memory);
    case Exception(e, handler, rest) =>
      var c0 := Acknowledged(c, e);
      var c1, cells := Enter(c0, e), FrameCells(c0, e);
      NestedReturns(c1, handler, live + cells);
      var h := Exec(c1, handler).value;
      EntryKeeps(c0, e, live);
      SameParts(live, cells, c1.memory, h.memory);
      IsBalanced(c1, h, cells);
      RteUndoesEntry(c0, e, h, 1);
      var back := Returned(h, c0, e);
      ReturnedReady(h, c0, e);
      CheckedIs(back);
      RestoredParts(c, e, back);
      NestedReturns(back, rest, live);
      SameTrans(live, c.memory, c1.memory, h.memory);
      SameTrans(live, c.memory, back.memory, Exec(back, rest).value.memory);
  }

  lemma SameRefl(live: set<int>, m: Ram.Memory)
    ensures Ram.Same(live, m, m)
  {
  }

  lemma SameParts(a: set<int>, b: set<int>, m: Ram.Memory, m': Ram.Memory)
    requires Ram.Same(a + b, m, m')
    ensures Ram.Same(a, m, m') && Ram.Same(b, m, m')
  {
  }

  lemma IsBalanced(c1: Core, h: Core, cells: set<int>)
    requires Ready(c1) && Ready(h) && Level(c1, h) && (h.family, h.bus) == (c1.family, c1.bus)
    requires Ram.Same(cells, c1.memory, h.memory)
    ensures Balanced(c1, h, cells)
  {
  }

  lemma ReturnedReady(h: Core, c: Core, e: Event)
    requires Ready(h)
    ensures Ready(Returned(h, c, e))
  {
    hide SetSr, Ram.Read16, Ram.Read32, Wrap, Legal;
  }

  lemma RestoredParts(c: Core, e: Event, back: Core)
    requires Valid(c) && Restored(Acknowledged(c, e), e, back)
    ensures Restored(c, e, back) && (back.family, back.bus) == (c.family, c.bus)
  {
    hide GetSr, Legal;
  }
}
