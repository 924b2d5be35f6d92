/** The memory forms of ADDX.L, SUBX.L, ABCD and SBCD, and runs of them over two buffers. */
module ChainRuns {
  import opened Words
  import opened Registers
  import opened Chains
  import Ram

  /** Address registers, condition codes and memory. */
  datatype State = State(a: seq<u32>, ccr: Ccr, memory: Ram.Memory)

  function ReadOperand(op: Op, m: Ram.Memory, bus: Ram.Bus, ea: int): (w: u32)
    ensures InWidth(op, w)
  {
    if Size(op) == 4 then Ram.Read32(m, bus, ea) else Ram.At(m, bus, ea)
  }

  function WriteOperand(op: Op, m: Ram.Memory, bus: Ram.Bus, ea: int, w: u32): Ram.Memory
    requires InWidth(op, w)
  {
    if Size(op) == 4 then Ram.Write32(m, bus, ea, w) else Ram.Put(m, bus, ea, w)
  }

  /** One instruction `op -(Ay),-(Ax)`. */
  function Step(op: Op, bus: Ram.Bus, st: State, ry: nat, rx: nat): (r: State)
    requires |st.a| == 8 && ry < 8 && rx < 8
    ensures |r.a| == 8
  {
    var a1 := st.a[ry := Wrap(st.a[ry] - Size(op))];
    var src := ReadOperand(op, st.memory, bus, a1[ry]);
    var a2 := a1[rx := Wrap(a1[rx] - Size(op))];
    var g := DigitOf(op, src, ReadOperand(op, st.memory, bus, a2[rx]), st.ccr.x);
    State(a2, CodesAfter(st.ccr, g), WriteOperand(op, st.memory, bus, a2[rx], g.result))
  }

  function Run(op: Op, bus: Ram.Bus, st: State, ry: nat, rx: nat, n: nat): (r: State)
    requires |st.a| == 8 && ry < 8 && rx < 8
    ensures |r.a| == 8
    decreases n
  {
    if n == 0 then st else Run(op, bus, Step(op, bus, st, ry, rx), ry, rx, n - 1)
  }

  // ---- the handlers --------------------------------------------------------------------------

  function StateOf(r: Machine): State
    reads r, r.a
  {
    State(r.a[..], r.ccr, r.memory)
  }

  /** A longword predecrement, done as two word steps. */
  method PredecrementLong(r: Machine, k: nat)
    requires r.Valid() && k < 8
    modifies r.a
    ensures r.a[..] == old(r.a[..])[k := Minus(old(r.a[k]), 4)]
  {
    MinusTwice(r.a[k]);
    r.a[k] := Minus(r.a[k], 2);
    r.a[k] := Minus(r.a[k], 2);
  }

  lemma MinusTwice(a: u32)
    ensures Minus(Minus(a, 2), 2) == Minus(a, 4)
  {
    var n: int := a;
    WrapAgain(n - 2, 2);
  }

  /** The longword ADDX computes, and its codes. */
  method AddLong(src: u32, dst: u32, x: bool) returns (g: Digit)
    ensures g == AddxDigit(src, dst, x) && LongResult(Addx, src, dst, x, g)
  {
    hide Msb, Wrap, LongResult;
    LongIs(Addx, src, dst, x);
    var res := Wrap(src as int + dst + Bit(x));
    var carry := (Msb(src) && Msb(dst)) || (!Msb(res) && (Msb(src) || Msb(dst)));
    g := Digit(res, Msb(res), Msb(src) != Msb(res) && Msb(dst) != Msb(res), carry);
  }

  /** The longword SUBX computes, and its codes. */
  method SubtractLong(src: u32, dst: u32, x: bool) returns (g: Digit)
    ensures g == SubxDigit(src, dst, x) && LongResult(Subx, src, dst, x, g)
  {
    hide Msb, Wrap, LongResult;
    LongIs(Subx, src, dst, x);
    var res := Wrap(dst as int - src - Bit(x));
    var borrow := (Msb(src) && Msb(res)) || (!Msb(dst) && (Msb(src) || Msb(res)));
    g := Digit(res, Msb(res), Msb(src) != Msb(dst) && Msb(res) != Msb(dst), borrow);
  }

  /** ADDX.L and SUBX.L. */
  method ExtendLong(r: Machine, op: Op, ry: nat, rx: nat)
    requires r.Valid() && ry < 8 && rx < 8 && !Decimal(op)
    modifies r`ccr, r`memory, r.a
    ensures StateOf(r) == Step(op, r.bus, old(StateOf(r)), ry, rx)
  {
    hide Ram.Read32, Ram.Write32, Wrap, AddxDigit, SubxDigit, LongResult;
    PredecrementLong(r, ry);
    var src := Ram.Read32(r.memory, r.bus, r.a[ry]);
    PredecrementLong(r, rx);
    var ea := r.a[rx];
    var dst := Ram.Read32(r.memory, r.bus, ea);
    var g;
    if op == Addx {
      g := AddLong(src, dst, r.ccr.x);
    } else {
      g := SubtractLong(src, dst, r.ccr.x);
    }
    r.ccr := Ccr(g.c, g.n, r.ccr.z && g.result == 0, g.v, g.c);
    r.memory := Ram.Write32(r.memory, r.bus, ea, g.result);
  }

  /** The byte ABCD computes, and its codes. */
  method AddDecimalByte(src: Ram.u8, dst: Ram.u8, x: bool) returns (g: Digit)
    ensures g == AbcdDigit(src, dst, x) && DecimalResult(Abcd, src, dst, x, g)
  {
    hide Bit7, DecimalResult;
    DecimalIs(Abcd, src, dst, x);
    var newLow := src % 16 + dst % 16 + Bit(x);
    var res := src / 16 * 16 + dst / 16 * 16 + newLow;
    var unadjusted := res;
    if newLow > 9 {
      res := res + 6;
    }
    var carry := res / 16 % 64 * 16 > 0x90;
    if carry {
      res := res + 0x60;
    }
    g := Digit(res % 0x100, Bit7(res), !Bit7(unadjusted) && Bit7(res), carry);
  }

  /** The byte SBCD computes, and its codes. */
  method SubtractDecimalByte(src: Ram.u8, dst: Ram.u8, x: bool) returns (g: Digit)
    ensures g == SbcdDigit(src, dst, x) && DecimalResult(Sbcd, src, dst, x, g)
  {
    hide Bit7, Wrap, DecimalResult;
    DecimalIs(Sbcd, src, dst, x);
    var newLow := Wrap(dst % 16 - src % 16 - Bit(x));
    var res := Plus(Wrap(dst / 16 * 16 - src / 16 * 16), newLow);
    var unadjusted := res;
    var bcd := 0;
    if newLow / 16 % 16 != 0 {
      res := Minus(res, 6);
      bcd := 6;
    } else {
      WrapAgain(Wrap(dst / 16 * 16 - src / 16 * 16) + newLow, 0);
    }
    if Wrap(dst - src - Bit(x)) / 0x100 % 2 == 1 {
      res := Minus(res, 0x60);
    }
    var borrow := Wrap(dst - src - bcd - Bit(x)) / 0x100 % 4 * 0x100 > 0xFF;
    res := res % 0x100;
    g := Digit(res, Bit7(res), Bit7(unadjusted) && !Bit7(res), borrow);
  }

  /** ABCD and SBCD. */
  method ExtendDecimal(r: Machine, op: Op, ry: nat, rx: nat)
    requires r.Valid() && ry < 8 && rx < 8 && Decimal(op)
    modifies r`ccr, r`memory, r.a
    ensures StateOf(r) == Step(op, r.bus, old(StateOf(r)), ry, rx)
  {
    hide Ram.Put, AbcdDigit, SbcdDigit, Wrap, DecimalResult;
    r.a[ry] := Minus(r.a[ry], 1);
    var src: Ram.u8 := Ram.At(r.memory, r.bus, r.a[ry]);
    r.a[rx] := Minus(r.a[rx], 1);
    var ea := r.a[rx];
    var dst: Ram.u8 := Ram.At(r.memory, r.bus, ea);
    var g;
    if op == Abcd {
      g := AddDecimalByte(src, dst, r.ccr.x);
    } else {
      g := SubtractDecimalByte(src, dst, r.ccr.x);
    }
    assert g == DigitOf(op, src, dst, r.ccr.x);
    r.ccr := Ccr(g.c, g.n, r.ccr.z && g.result == 0, g.v, g.c);
    r.memory := Ram.Put(r.memory, r.bus, ea, g.result);
  }

  // ---- runs over buffers ---------------------------------------------------------------------

  /** The `n` operands below `end`, the nearest (least significant) first. */
  function Operands(op: Op, m: Ram.Memory, bus: Ram.Bus, end: int, n: nat): (ds: seq<u32>)
    ensures |ds| == n && AllInWidth(op, ds)
    decreases n
  {
    if n == 0 then []
    else [ReadOperand(op, m, bus, end - Size(op))] + Operands(op, m, bus, end - Size(op), n - 1)
  }

  /** The cells of those operands. */
  function BufferCells(op: Op, bus: Ram.Bus, end: int, n: nat): set<int> {
    Ram.Cells(bus, end - Size(op) * n, Size(op) * n)
  }

  lemma ReadKept(op: Op, live: set<int>, m: Ram.Memory, m': Ram.Memory, bus: Ram.Bus, ea: int)
    requires Ram.Same(live, m, m') && Ram.Cells(bus, ea, Size(op)) <= live
    ensures ReadOperand(op, m', bus, ea) == ReadOperand(op, m, bus, ea)
  {
    if Size(op) == 4 {
      Ram.SameRead32(live, m, m', bus, ea);
    } else {
      assert Ram.Cell(bus, ea) in Ram.Cells(bus, ea, 1);
    }
  }

  lemma {:induction false} OperandsKept(op: Op, live: set<int>, m: Ram.Memory, m': Ram.Memory, bus: Ram.Bus, end: int,
          n: nat)
    requires Ram.Same(live, m, m') && BufferCells(op, bus, end, n) <= live
    ensures Operands(op, m', bus, end, n) == Operands(op, m, bus, end, n)
    decreases n
  {
    hide Ram.Same, Ram.Cells, ReadOperand;
    if n > 0 {
      var k := Size(op);
      assert k * n == k * (n - 1) + k;
      Ram.SubCells(bus, end - k * n, k * n, end - k, k);
      Ram.SubCells(bus, end - k * n, k * n, end - k - k * (n - 1), k * (n - 1));
      ReadKept(op, live, m, m', bus, end - k);
      OperandsKept(op, live, m, m', bus, end - k, n - 1);
    }
  }

  lemma {:induction false} OperandsOfWrap(op: Op, m: Ram.Memory, bus: Ram.Bus, end: int, delta: int, n: nat)
    ensures Operands(op, m, bus, Wrap(end) + delta, n) == Operands(op, m, bus, end + delta, n)
    decreases n
  {
    hide Wrap, Ram.Read32, Ram.Cell;
    if n > 0 {
      ReadOfWrapped(op, m, bus, end, delta - Size(op));
      OperandsOfWrap(op, m, bus, end, delta - Size(op), n - 1);
    }
  }

  lemma ReadOfWrapped(op: Op, m: Ram.Memory, bus: Ram.Bus, ea: int, delta: int)
    ensures ReadOperand(op, m, bus, Wrap(ea) + delta) == ReadOperand(op, m, bus, ea + delta)
  {
    hide Wrap, Ram.Read32, Ram.Cell;
    Ram.ReadOfWrap(m, bus, ea, delta);
    Ram.CellOfWrap(bus, ea, delta);
  }

  /** Writing an operand: it reads back, and nothing else changes. */
  lemma Written(op: Op, m: Ram.Memory, bus: Ram.Bus, ea: int, w: u32, live: set<int>)
    requires InWidth(op, w) && live !! Ram.Cells(bus, ea, Size(op))
    ensures var m' := WriteOperand(op, m, bus, Wrap(ea), w);
            ReadOperand(op, m', bus, ea) == w && Ram.Same(live, m, m')
  {
    hide Wrap, Ram.Read32, Ram.Write32, Ram.Write16;
    if Size(op) == 4 {
      Ram.WriteOfWrap(m, bus, ea, w);
      Ram.ReadWrite32(m, bus, ea, w);
      Ram.WriteKeeps32(m, bus, ea, w, live);
    } else {
      Ram.CellOfWrap(bus, ea, 0);
      assert Ram.Cell(bus, ea) in Ram.Cells(bus, ea, 1);
    }
  }

  /** The step on the operands nearest to two ends. */
  lemma StepAt(op: Op, bus: Ram.Bus, st: State, ry: nat, rx: nat, live: set<int>)
    requires |st.a| == 8 && ry < 8 && rx < 8 && ry != rx
    requires live !! Ram.Cells(bus, st.a[rx] - Size(op), Size(op))
    ensures var k: int, r := Size(op), Step(op, bus, st, ry, rx);
            var g := DigitOf(op, ReadOperand(op, st.memory, bus, st.a[ry] - k),
                             ReadOperand(op, st.memory, bus, st.a[rx] - k), st.ccr.x);
            && r.a == st.a[ry := Wrap(st.a[ry] - k)][rx := Wrap(st.a[rx] - k)]
            && r.ccr == CodesAfter(st.ccr, g)
            && ReadOperand(op, r.memory, bus, st.a[rx] - k) == g.result
            && Ram.Same(live, st.memory, r.memory)
  {
    hide Wrap, DigitOf, ReadOperand, WriteOperand, Ram.Cells, Ram.Same, InWidth;
    var k: int := Size(op);
    ReadOfWrapped(op, st.memory, bus, st.a[ry] - k, 0);
    ReadOfWrapped(op, st.memory, bus, st.a[rx] - k, 0);
    var src, dst := ReadOperand(op, st.memory, bus, st.a[ry] - k), ReadOperand(op, st.memory, bus, st.a[rx] - k);
    var g := DigitOf(op, src, dst, st.ccr.x);
    Written(op, st.memory, bus, st.a[rx] - k, g.result, live);
  }

  /** A buffer is its nearest operand and the rest. */
  lemma BufferParts(op: Op, bus: Ram.Bus, end: int, n: nat)
    requires n > 0 && Size(op) * n <= bus
    ensures Size(op) * (n - 1) <= bus
    ensures Ram.Cells(bus, end - Size(op), Size(op)) <= BufferCells(op, bus, end, n)
    ensures BufferCells(op, bus, Wrap(end - Size(op)), n - 1) <= BufferCells(op, bus, end, n)
    ensures Ram.Cells(bus, end - Size(op), Size(op)) !! BufferCells(op, bus, Wrap(end - Size(op)), n - 1)
  {
    hide Ram.Cells, Wrap;
    var k := Size(op);
    assert k * n == k * (n - 1) + k;
    var rest := end - k * n;
    Ram.CellsOfWrap(bus, end - k, -(k * (n - 1)), k * (n - 1));
    Ram.SubCells(bus, rest, k * n, end - k, k);
    Ram.SubCells(bus, rest, k * n, rest, k * (n - 1));
    Ram.RangesApart(bus, rest, k * (n - 1), end - k, k);
  }

  /** The buffers do not overlap and fit on the bus. */
  predicate Disjoint(op: Op, bus: Ram.Bus, st: State, ry: nat, rx: nat, n: nat) {
    && |st.a| == 8 && ry < 8 && rx < 8 && ry != rx && Size(op) * n <= bus
    && BufferCells(op, bus, st.a[ry], n) !! BufferCells(op, bus, st.a[rx], n)
  }

  lemma OperandsUnfold(op: Op, m: Ram.Memory, bus: Ram.Bus, end: int, n: nat)
    requires n > 0
    ensures var ds := Operands(op, m, bus, end, n);
            ds[0] == ReadOperand(op, m, bus, end - Size(op)) && ds[1..] == Operands(op, m, bus, end - Size(op), n - 1)
  {
    hide ReadOperand, InWidth;
  }

  /** What is left to do after one step. */
  lemma AfterStep(op: Op, bus: Ram.Bus, st: State, ry: nat, rx: nat, n: nat, live: set<int>)
    requires n > 0 && Disjoint(op, bus, st, ry, rx, n)
    requires live !! BufferCells(op, bus, st.a[rx], n)
    ensures var st1, y: int, x: int := Step(op, bus, st, ry, rx), st.a[ry], st.a[rx];
            var s, d := Operands(op, st.memory, bus, y, n), Operands(op, st.memory, bus, x, n);
            var g := DigitOf(op, s[0], d[0], st.ccr.x);
            && st1.a == st.a[ry := Wrap(y - Size(op))][rx := Wrap(x - Size(op))]
            && st1.ccr == CodesAfter(st.ccr, g)
            && ReadOperand(op, st1.memory, bus, x - Size(op)) == g.result
            && Operands(op, st1.memory, bus, st1.a[ry], n - 1) == s[1..]
            && Operands(op, st1.memory, bus, st1.a[rx], n - 1) == d[1..]
            && Ram.Same(live, st.memory, st1.memory)
            && Disjoint(op, bus, st1, ry, rx, n - 1)
            && live !! BufferCells(op, bus, st1.a[rx], n - 1)
            && Ram.Cells(bus, x - Size(op), Size(op)) !! BufferCells(op, bus, st1.a[rx], n - 1)
  {
    hide Step, DigitOf, ReadOperand, Ram.Cells, Ram.Same, BufferCells, Wrap, CodesAfter, Operands, InWidth, AllInWidth,
         Size;
    var k: int, y: int, x: int := Size(op), st.a[ry], st.a[rx];
    BufferParts(op, bus, y, n);
    BufferParts(op, bus, x, n);
    OperandsUnfold(op, st.memory, bus, y, n);
    OperandsUnfold(op, st.memory, bus, x, n);
    var st1 := Step(op, bus, st, ry, rx);
    var ySet, xSet := BufferCells(op, bus, Wrap(y - k), n - 1), BufferCells(op, bus, Wrap(x - k), n - 1);
    StepAt(op, bus, st, ry, rx, live + ySet + xSet);
    Parts3(live, ySet, xSet, st.memory, st1.memory);
    OperandsKept(op, ySet, st.memory, st1.memory, bus, Wrap(y - k), n - 1);
    OperandsKept(op, xSet, st.memory, st1.memory, bus, Wrap(x - k), n - 1);
    OperandsOfWrap(op, st.memory, bus, y - k, 0, n - 1);
    OperandsOfWrap(op, st.memory, bus, x - k, 0, n - 1);
  }

  /** The registers after a step and the rest of the run. */
  lemma BothLowered(a: seq<u32>, a1: seq<u32>, a2: seq<u32>, ry: nat, rx: nat, k: int, n: nat)
    requires |a| == 8 && ry < 8 && rx < 8 && ry != rx && n > 0
    requires a1 == a[ry := Wrap(a[ry] - k)][rx := Wrap(a[rx] - k)]
    requires a2 == a1[ry := Wrap(a1[ry] - k * (n - 1))][rx := Wrap(a1[rx] - k * (n - 1))]
    ensures a2 == a[ry := Wrap(a[ry] - k * n)][rx := Wrap(a[rx] - k * n)]
  {
    hide Wrap;
    LowerMore(a[ry], k, n);
    LowerMore(a[rx], k, n);
  }

  lemma ChainCons(op: Op, s: seq<u32>, d: seq<u32>, ccr: Ccr)
    requires |s| == |d| > 0 && AllInWidth(op, s) && AllInWidth(op, d)
    ensures AllInWidth(op, s[1..]) && AllInWidth(op, d[1..])
    ensures var g := DigitOf(op, s[0], d[0], ccr.x);
            var (rest, last) := Chain(op, s[1..], d[1..], CodesAfter(ccr, g));
            Chain(op, s, d, ccr) == ([g.result] + rest, last)
  {
    hide DigitOf, InWidth, CodesAfter;
  }

  /** `r` is what `n` instructions make of `st`: the chain of its operands in the destination buffer, both
      registers below the buffers, and the cells `live` as before. */
  ghost predicate Computes(op: Op, bus: Ram.Bus, st: State, r: State, ry: nat, rx: nat, n: nat, live: set<int>)
    requires |st.a| == 8 && ry < 8 && rx < 8
  {
    && (Operands(op, r.memory, bus, st.a[rx], n), r.ccr)
       == Chain(op, Operands(op, st.memory, bus, st.a[ry], n), Operands(op, st.memory, bus, st.a[rx], n), st.ccr)
    && r.a == st.a[ry := Wrap(st.a[ry] - Size(op) * n)][rx := Wrap(st.a[rx] - Size(op) * n)]
    && Ram.Same(live, st.memory, r.memory)
  }

  /** A step and the rest of the run. */
  lemma RunStep(op: Op, bus: Ram.Bus, st: State, r: State, ry: nat, rx: nat, n: nat, live: set<int>)
    requires n > 0 && |st.a| == 8 && ry < 8 && rx < 8
    requires Disjoint(op, bus, st, ry, rx, n) && live !! BufferCells(op, bus, st.a[rx], n)
    requires Computes(op, bus, Step(op, bus, st, ry, rx), r, ry, rx, n - 1, live)
    requires Ram.Same(Ram.Cells(bus, st.a[rx] - Size(op), Size(op)), Step(op, bus, st, ry, rx).memory, r.memory)
    ensures Computes(op, bus, st, r, ry, rx, n, live)
  {
    hide Step, DigitOf, ReadOperand, Ram.Cells, Ram.Same, BufferCells, Wrap, CodesAfter, InWidth, Size, Chain, Operands,
         AllInWidth, Disjoint;
    TwoRegisters(op, bus, st, ry, rx, n);
    var k: int, x: int := Size(op), st.a[rx];
    AfterStep(op, bus, st, ry, rx, n, live);
    ChainCons(op, Operands(op, st.memory, bus, st.a[ry], n), Operands(op, st.memory, bus, x, n), st.ccr);
    var st1 := Step(op, bus, st, ry, rx);
    OperandsOfWrap(op, r.memory, bus, x - k, 0, n - 1);
    ReadKept(op, Ram.Cells(bus, x - k, k), st1.memory, r.memory, bus, x - k);
    OperandsAre(op, r.memory, bus, x, n);
    SameThen(live, st.memory, st1.memory, r.memory);
    BothLowered(st.a, st1.a, r.a, ry, rx, k, n);
  }

  lemma TwoRegisters(op: Op, bus: Ram.Bus, st: State, ry: nat, rx: nat, n: nat)
    requires Disjoint(op, bus, st, ry, rx, n)
    ensures ry != rx
  {
  }

  lemma OperandsAre(op: Op, m: Ram.Memory, bus: Ram.Bus, end: int, n: nat)
    requires n > 0
    ensures Operands(op, m, bus, end, n)
            == [ReadOperand(op, m, bus, end - Size(op))] + Operands(op, m, bus, end - Size(op), n - 1)
  {
  }

  /** A run over two buffers that do not overlap computes the chain of their operands. */
  lemma {:induction false} RunIsChain(op: Op, bus: Ram.Bus, st: State, ry: nat, rx: nat, n: nat, live: set<int>)
    requires Disjoint(op, bus, st, ry, rx, n)
    requires live !! BufferCells(op, bus, st.a[rx], n)
    ensures Computes(op, bus, st, Run(op, bus, st, ry, rx, n), ry, rx, n, live)
    decreases n
  {
    hide Step, Ram.Cells, Ram.Same, BufferCells, Computes, Operands, Chain;
    if n == 0 {
      EmptyRun(op, bus, st, ry, rx, live);
    } else {
      var top := Ram.Cells(bus, st.a[rx] as int - Size(op), Size(op));
      AfterStep(op, bus, st, ry, rx, n, live);
      var st1 := Step(op, bus, st, ry, rx);
      RunIsChain(op, bus, st1, ry, rx, n - 1, live);
      RunIsChain(op, bus, st1, ry, rx, n - 1, top);
      OnlySame(op, bus, st1, Run(op, bus, st1, ry, rx, n - 1), ry, rx, n - 1, top);
      RunStep(op, bus, st, Run(op, bus, st1, ry, rx, n - 1), ry, rx, n, live);
    }
  }

  lemma OnlySame(op: Op, bus: Ram.Bus, st: State, r: State, ry: nat, rx: nat, n: nat, live: set<int>)
    requires |st.a| == 8 && ry < 8 && rx < 8 && Computes(op, bus, st, r, ry, rx, n, live)
    ensures Ram.Same(live, st.memory, r.memory)
  {
  }

  lemma EmptyRun(op: Op, bus: Ram.Bus, st: State, ry: nat, rx: nat, live: set<int>)
    requires |st.a| == 8 && ry < 8 && rx < 8
    ensures Computes(op, bus, st, st, ry, rx, 0, live)
  {
  }

  lemma Parts3(a: set<int>, b: set<int>, c: set<int>, m: Ram.Memory, m': Ram.Memory)
    requires Ram.Same(a + b + c, m, m')
    ensures Ram.Same(a, m, m') && Ram.Same(b, m, m') && Ram.Same(c, m, m')
  {
  }

  lemma SameThen(live: set<int>, a: Ram.Memory, b: Ram.Memory, c: Ram.Memory)
    requires Ram.Same(live, a, b) && Ram.Same(live, b, c)
    ensures Ram.Same(live, a, c)
  {
  }

  lemma LowerMore(end: int, k: int, n: nat)
    requires n > 0
    ensures Wrap(Wrap(end - k) - k * (n - 1)) == Wrap(end - k * n)
  {
    WrapAgain(end - k, k * (n - 1));
    assert k * n == k * (n - 1) + k;
  }

  // ---- the main results ----------------------------------------------------------------------

  /** `n` instructions from X clear and Z set over buffers that do not overlap: the destination buffer
      gets the exact sum or difference modulo base^n, X and C the carry or borrow out, and Z says whether
      the whole number is zero.  Operands are longwords, or packed decimal bytes, which stay so. */
  lemma RunComputes(op: Op, bus: Ram.Bus, st: State, ry: nat, rx: nat, n: nat)
    requires Disjoint(op, bus, st, ry, rx, n) && !st.ccr.x && st.ccr.z
    requires AllDigits(op, Operands(op, st.memory, bus, st.a[ry], n))
        && AllDigits(op, Operands(op, st.memory, bus, st.a[rx], n))
    ensures var r := Run(op, bus, st, ry, rx, n);
            var s, d := Operands(op, st.memory, bus, st.a[ry], n), Operands(op, st.memory, bus, st.a[rx], n);
            var result := Operands(op, r.memory, bus, st.a[rx], n);
            var exact, power := Value(op, d) + Sign(op) * Value(op, s), Power(Base(op), n);
            && AllDigits(op, result) && power > 0
            && Value(op, result) == exact % power
            && (r.ccr.x <==> !(0 <= exact < power)) && (n > 0 ==> r.ccr.c == r.ccr.x)
            && (r.ccr.z <==> exact % power == 0)
            && Operands(op, r.memory, bus, st.a[ry], n) == s
  {
    hide Ram.Same, Ram.Cells, Value, Power, Base, Chain, AllDigits, BufferCells, Sign, Operands, Run, InWidth, Size;
    var source := BufferCells(op, bus, st.a[ry], n);
    RunIsChain(op, bus, st, ry, rx, n, source);
    var s, d := Operands(op, st.memory, bus, st.a[ry], n), Operands(op, st.memory, bus, st.a[rx], n);
    ChainResult(op, s, d, st.ccr);
    OperandsKept(op, source, st.memory, Run(op, bus, st, ry, rx, n).memory, bus, st.a[ry], n);
  }

  /** The `n` bytes from `a` as one number, most significant first. */
  function BigEndian(m: Ram.Memory, bus: Ram.Bus, a: int, n: nat): nat {
    if n == 0 then 0 else BigEndian(m, bus, a, n - 1) * 0x100 + Ram.At(m, bus, a + n - 1)
  }

  /** The same with two decimal digits to the byte. */
  function PackedDecimal(m: Ram.Memory, bus: Ram.Bus, a: int, n: nat): nat {
    if n == 0 then 0
    else
      var b := Ram.At(m, bus, a + n - 1);
      PackedDecimal(m, bus, a, n - 1) * 100 + b / 16 * 10 + b % 16
  }

  /** The numbers that runs add and subtract are those the bytes of the buffers make. */
  lemma {:induction false} BufferNumber(op: Op, m: Ram.Memory, bus: Ram.Bus, end: int, n: nat)
    ensures Value(op, Operands(op, m, bus, end, n))
         == if Decimal(op) then PackedDecimal(m, bus, end - n, n) else BigEndian(m, bus, end - 4 * n, 4 * n)
    decreases n
  {
    hide Ram.At, Ram.Read32, Operands, Value, BigEndian, PackedDecimal;
    if n == 0 {
      NoNumber(op, m, bus, end);
    } else {
      OperandsAre(op, m, bus, end, n);
      var first, rest := ReadOperand(op, m, bus, end - Size(op)), Operands(op, m, bus, end - Size(op), n - 1);
      FirstDigit(op, first, rest);
      BufferNumber(op, m, bus, end - Size(op), n - 1);
      if Decimal(op) {
        LastByte(m, bus, end - n, n);
      } else {
        LastLong(m, bus, end - 4 * n, 4 * (n - 1));
      }
    }
  }

  lemma NoNumber(op: Op, m: Ram.Memory, bus: Ram.Bus, end: int)
    ensures Value(op, Operands(op, m, bus, end, 0)) == 0
    ensures PackedDecimal(m, bus, end, 0) == 0 && BigEndian(m, bus, end, 0) == 0
  {
  }

  lemma FirstDigit(op: Op, first: u32, rest: seq<u32>)
    ensures Value(op, [first] + rest) == DigitValue(op, first) + Base(op) * Value(op, rest)
  {
    assert ([first] + rest)[1..] == rest;
  }

  lemma LastByte(m: Ram.Memory, bus: Ram.Bus, a: int, n: nat)
    requires n > 0
    ensures var b := Ram.At(m, bus, a + n - 1);
            PackedDecimal(m, bus, a, n) == PackedDecimal(m, bus, a, n - 1) * 100 + b / 16 * 10 + b % 16
  {
    hide Ram.At;
  }

  lemma LastLong(m: Ram.Memory, bus: Ram.Bus, a: int, k: nat)
    ensures BigEndian(m, bus, a, k + 4) == BigEndian(m, bus, a, k) * 0x1_0000_0000 + Ram.Read32(m, bus, a + k)
  {
    hide Ram.At;
    assert BigEndian(m, bus, a, k + 1) == BigEndian(m, bus, a, k) * 0x100 + Ram.At(m, bus, a + k);
    assert BigEndian(m, bus, a, k + 2) == BigEndian(m, bus, a, k + 1) * 0x100 + Ram.At(m, bus, a + k + 1);
    assert BigEndian(m, bus, a, k + 3) == BigEndian(m, bus, a, k + 2) * 0x100 + Ram.At(m, bus, a + k + 2);
  }

  /** N and V after a chain of ADDX.L or SUBX.L are those of the whole signed result. */
  lemma RunSigns(op: Op, bus: Ram.Bus, st: State, ry: nat, rx: nat, n: nat)
    requires 0 < n && !Decimal(op) && Disjoint(op, bus, st, ry, rx, n) && !st.ccr.x
    ensures var r := Run(op, bus, st, ry, rx, n);
            var s, d := Operands(op, st.memory, bus, st.a[ry], n), Operands(op, st.memory, bus, st.a[rx], n);
            var result := Operands(op, r.memory, bus, st.a[rx], n);
            && (r.ccr.n <==> SignedValue(op, result) < 0)
            && (r.ccr.v <==> SignedValue(op, result) != SignedValue(op, d) + Sign(op) * SignedValue(op, s))
  {
    hide Ram.Same, Ram.Cells, Value, Power, Base, Chain, BufferCells, Sign, Msb, SignedValue, Operands, Run;
    RunIsChain(op, bus, st, ry, rx, n, {});
    var s, d := Operands(op, st.memory, bus, st.a[ry], n), Operands(op, st.memory, bus, st.a[rx], n);
    ChainSigns(op, s, d, st.ccr);
    SignOf(op, Chain(op, s, d, st.ccr).0);
  }

  /** The sign of a number is its top bit. */
  lemma SignOf(op: Op, ds: seq<u32>)
    requires !Decimal(op) && ds != []
    ensures SignedValue(op, ds) < 0 <==> Msb(ds[|ds| - 1])
  {
    hide Value, Power, Msb;
    ValueRange(op, ds);
  }
}
