/** FMOVEM.X to a predecremented and from a postincremented address register. */
module Fmovem {
  import opened Words
  import opened RegisterLists
  import Ram

  type u64 = w: int | 0 <= w < 0x1_0000_0000_0000_0000

  /** An extended-precision register, bit for bit. */
  datatype Extended = Extended(high: Ram.u16, low: u64)

  function Load(m: Ram.Memory, bus: Ram.Bus, ea: int): Extended {
    Extended(Ram.Read16(m, bus, ea), Ram.Read32(m, bus, ea + 4) * TWO_32 + Ram.Read32(m, bus, ea + 8))
  }

  function StoreHigh(m: Ram.Memory, bus: Ram.Bus, ea: int, high: Ram.u16): Ram.Memory {
    Ram.Write16(Ram.Write16(m, bus, ea, high), bus, ea + 2, 0)
  }

  /** Twelve bytes: sign and exponent, two bytes of zero, and the mantissa. */
  function Store(m: Ram.Memory, bus: Ram.Bus, ea: int, v: Extended): Ram.Memory {
    Ram.Write32(Ram.Write32(StoreHigh(m, bus, ea, v.high), bus, ea + 4, v.low / TWO_32), bus, ea + 8, v.low % TWO_32)
  }

  // ---- twelve bytes hold a register ----------------------------------------------------------

  lemma StoredElsewhere(m: Ram.Memory, bus: Ram.Bus, ea: int, v: Extended)
    ensures Ram.SameElsewhere(Ram.Cells(bus, ea, 12), m, Store(m, bus, ea, v))
  {
    hide Ram.Cells, Ram.SameElsewhere, Ram.Write32, Ram.Write16;
    var m1 := StoreHigh(m, bus, ea, v.high);
    var m2 := Ram.Write32(m1, bus, ea + 4, v.low / TWO_32);
    HighElsewhere(m, bus, ea, v.high);
    Widen(bus, ea, ea, m, m1);
    Ram.WriteElsewhere32(m1, bus, ea + 4, v.low / TWO_32);
    Widen(bus, ea, ea + 4, m1, m2);
    Ram.WriteElsewhere32(m2, bus, ea + 8, v.low % TWO_32);
    Widen(bus, ea, ea + 8, m2, Store(m, bus, ea, v));
    SameTwice(Ram.Cells(bus, ea, 12), m, m1, m2);
    SameTwice(Ram.Cells(bus, ea, 12), m, m2, Store(m, bus, ea, v));
  }

  lemma HighElsewhere(m: Ram.Memory, bus: Ram.Bus, ea: int, high: Ram.u16)
    ensures Ram.SameElsewhere(Ram.Cells(bus, ea, 4), m, StoreHigh(m, bus, ea, high))
  {
    hide Ram.Cell;
    assert Ram.Cell(bus, ea) in Ram.Cells(bus, ea, 4) && Ram.Cell(bus, ea + 1) in Ram.Cells(bus, ea, 4);
    assert Ram.Cell(bus, ea + 2) in Ram.Cells(bus, ea, 4) && Ram.Cell(bus, ea + 3) in Ram.Cells(bus, ea, 4);
  }

  lemma Widen(bus: Ram.Bus, ea: int, p: int, m: Ram.Memory, m': Ram.Memory)
    requires ea <= p <= ea + 8 && Ram.SameElsewhere(Ram.Cells(bus, p, 4), m, m')
    ensures Ram.SameElsewhere(Ram.Cells(bus, ea, 12), m, m')
  {
    hide Ram.Cells, Ram.SameElsewhere;
    Ram.SubCells(bus, ea, 12, p, 4);
    Ram.ElsewhereWider(Ram.Cells(bus, p, 4), Ram.Cells(bus, ea, 12), m, m');
  }

  lemma SameTwice(area: set<int>, a: Ram.Memory, b: Ram.Memory, c: Ram.Memory)
    requires Ram.SameElsewhere(area, a, b) && Ram.SameElsewhere(area, b, c)
    ensures Ram.SameElsewhere(area, a, c)
  {
  }

  /** Sign and exponent first, then two bytes of zero, then the mantissa's high and low longword. */
  lemma StoreLayout(m: Ram.Memory, bus: Ram.Bus, ea: int, v: Extended)
    ensures var s := Store(m, bus, ea, v);
            && Ram.Read16(s, bus, ea) == v.high && Ram.Read16(s, bus, ea + 2) == 0
            && Ram.Read32(s, bus, ea + 4) == v.low / 0x1_0000_0000
            && Ram.Read32(s, bus, ea + 8) == v.low % 0x1_0000_0000
  {
    hide Ram.Read16, Ram.Read32, Ram.Write16, Ram.Write32;
    var hi, lo := v.low / TWO_32, v.low % TWO_32;
    var m0 := Ram.Write16(m, bus, ea, v.high);
    var m1 := Ram.Write16(m0, bus, ea + 2, 0);
    var m2 := Ram.Write32(m1, bus, ea + 4, hi);
    Ram.ReadWrite16(m, bus, ea, v.high);
    Ram.ReadOther16(m0, bus, ea + 2, 0, ea);
    Ram.ReadWrite16(m0, bus, ea + 2, 0);
    ReadBelow16(m1, bus, ea + 4, hi, ea);
    ReadBelow16(m2, bus, ea + 8, lo, ea);
    ReadBelow16(m1, bus, ea + 4, hi, ea + 2);
    ReadBelow16(m2, bus, ea + 8, lo, ea + 2);
    Ram.ReadWrite32(m1, bus, ea + 4, hi);
    ReadBelow32(m2, bus, ea + 8, lo, ea + 4);
    Ram.ReadWrite32(m2, bus, ea + 8, lo);
  }

  lemma LoadStored(m: Ram.Memory, bus: Ram.Bus, ea: int, v: Extended)
    ensures Load(Store(m, bus, ea, v), bus, ea) == v
  {
    hide Ram.Read16, Ram.Read32, Store;
    StoreLayout(m, bus, ea, v);
  }

  /** A longword write does not disturb what lies just below it. */
  lemma ReadBelow16(m: Ram.Memory, bus: Ram.Bus, p: int, w: u32, q: int)
    requires q + 2 <= p <= q + 16
    ensures Ram.Read16(Ram.Write32(m, bus, p, w), bus, q) == Ram.Read16(m, bus, q)
  {
    hide Ram.Read16, Ram.Write32, Ram.Cells, Ram.Same;
    Ram.RangesApart(bus, q, 2, p, 4);
    Ram.WriteKeeps32(m, bus, p, w, Ram.Cells(bus, q, 2));
    Ram.SameRead16(Ram.Cells(bus, q, 2), m, Ram.Write32(m, bus, p, w), bus, q);
  }

  lemma ReadBelow32(m: Ram.Memory, bus: Ram.Bus, p: int, w: u32, q: int)
    requires q + 4 <= p <= q + 16
    ensures Ram.Read32(Ram.Write32(m, bus, p, w), bus, q) == Ram.Read32(m, bus, q)
  {
    hide Ram.Read16, Ram.Write32;
    ReadBelow16(m, bus, p, w, q);
    ReadBelow16(m, bus, p, w, q + 2);
  }

  lemma LoadKept(live: set<int>, m: Ram.Memory, m': Ram.Memory, bus: Ram.Bus, ea: int)
    requires Ram.Same(live, m, m') && Ram.Cells(bus, ea, 12) <= live
    ensures Load(m', bus, ea) == Load(m, bus, ea)
  {
    hide Ram.Read16, Ram.Read32, Ram.Cells, Ram.Same;
    Ram.SubCells(bus, ea, 12, ea, 2);
    Ram.SubCells(bus, ea, 12, ea + 4, 4);
    Ram.SubCells(bus, ea, 12, ea + 8, 4);
    Ram.SameRead16(live, m, m', bus, ea);
    Ram.SameRead32(live, m, m', bus, ea + 4);
    Ram.SameRead32(live, m, m', bus, ea + 8);
  }

  lemma LoadOfWrap(m: Ram.Memory, bus: Ram.Bus, a: int, i: int)
    ensures Load(m, bus, Wrap(a) + i) == Load(m, bus, a + i)
  {
    hide Ram.Read16, Ram.Read32, Wrap;
    Ram.ReadOfWrap(m, bus, a, i);
    Ram.ReadOfWrap(m, bus, a, i + 4);
    Ram.ReadOfWrap(m, bus, a, i + 8);
  }

  lemma StoreOfWrap(m: Ram.Memory, bus: Ram.Bus, a: int, v: Extended)
    ensures Store(m, bus, Wrap(a), v) == Store(m, bus, a, v)
  {
    hide Wrap, Ram.Cell;
    Ram.CellOfWrap(bus, a, 0);
    Ram.CellOfWrap(bus, a, 1);
    Ram.CellOfWrap(bus, a, 2);
    Ram.CellOfWrap(bus, a, 3);
    Ram.CellOfWrap(bus, a, 4);
    Ram.CellOfWrap(bus, a, 5);
    Ram.CellOfWrap(bus, a, 6);
    Ram.CellOfWrap(bus, a, 7);
    Ram.CellOfWrap(bus, a, 8);
    Ram.CellOfWrap(bus, a, 9);
    Ram.CellOfWrap(bus, a, 10);
    Ram.CellOfWrap(bus, a, 11);
  }

  // ---- what the instructions mean ------------------------------------------------------------

  function SlotBelow(list: seq<bool>, an: int, k: nat): int
    requires k < |list|
  {
    an - 12 * Count(list, k + 1)
  }

  ghost predicate Saved(m: Ram.Memory, bus: Ram.Bus, list: seq<bool>, an: u32, fp: seq<Extended>, i: nat)
    requires |list| == |fp| == 8 && i <= 8
  {
    forall k :: 0 <= k < i && list[k] ==> Load(m, bus, SlotBelow(list, an, k)) == fp[k]
  }

  function SaveArea(bus: Ram.Bus, list: seq<bool>, an: u32): set<int>
    requires |list| == 8
  {
    Ram.Cells(bus, an as int - 12 * Count(list, 8), 12 * Count(list, 8))
  }

  /** FMOVEM.X list,-(An): bit `k` lists FPk. */
  ghost predicate Pushed(bus: Ram.Bus, list: seq<bool>, fp: seq<Extended>, an: u32, m: Ram.Memory, an': u32,
          m': Ram.Memory)
  {
    && |list| == |fp| == 8
    && Saved(m', bus, list, an, fp, 8) && an' == Minus(an, 12 * Count(list, 8))
    && Ram.SameElsewhere(SaveArea(bus, list, an), m, m')
  }

  /** FMOVEM.X (An)+,list: bit `k` lists FP7-k. */
  ghost predicate Pulled(bus: Ram.Bus, list: seq<bool>, m: Ram.Memory, fp: seq<Extended>, an: u32, fp': seq<Extended>,
          an': u32)
  {
    && |list| == |fp| == |fp'| == 8 && an' == Plus(an, 12 * Count(list, 8))
    && forall r :: 0 <= r < 8 ==>
         fp'[r] == if list[7 - r] then Load(m, bus, an as int + 12 * Count(list, 7 - r)) else fp[r]
  }

  /** A postincrement load undoes a predecrement store bit for bit. */
  lemma LoadUndoesStore(bus: Ram.Bus, list: seq<bool>, fp0: seq<Extended>, an0: u32, m0: Ram.Memory, an1: u32,
          m1: Ram.Memory, m2: Ram.Memory, fp2: seq<Extended>, fp3: seq<Extended>, an3: u32)
    requires Pushed(bus, list, fp0, an0, m0, an1, m1) && Pulled(bus, Mirror(list), m2, fp2, an1, fp3, an3)
    requires Ram.Same(SaveArea(bus, list, an0), m1, m2)
    ensures an3 == an0
    ensures forall r :: 0 <= r < 8 ==> fp3[r] == if list[r] then fp0[r] else fp2[r]
  {
    hide Load, Ram.Same, Ram.Cells, Mirror, Saved, Count, SaveArea, Plus, Minus, Ram.SameElsewhere;
    MirrorCount(list, 8);
    CountZero(list);
    BackUp(an0, 12 * Count(list, 8));
    forall r | 0 <= r < 8 ensures fp3[r] == if list[r] then fp0[r] else fp2[r] {
      if list[r] {
        FindsSaved(bus, list, an0, fp0, m1, m2, r);
      }
    }
  }

  lemma FindsSaved(bus: Ram.Bus, list: seq<bool>, an: u32, fp: seq<Extended>, m1: Ram.Memory, m2: Ram.Memory, r: nat)
    requires |list| == |fp| == 8 && r < 8 && list[r]
    requires Saved(m1, bus, list, an, fp, 8) && Ram.Same(SaveArea(bus, list, an), m1, m2)
    ensures Load(m2, bus, Minus(an, 12 * Count(list, 8)) as int + 12 * Count(Mirror(list), 7 - r)) == fp[r]
  {
    hide Load, Ram.Same, Ram.Cells, Mirror, Count;
    MirrorCount(list, 7 - r);
    CountStep(list, r);
    CountGrows(list, r + 1, 8);
    var slot := SlotBelow(list, an, r);
    Ram.SubCells(bus, an as int - 12 * Count(list, 8), 12 * Count(list, 8), slot, 12);
    LoadKept(SaveArea(bus, list, an), m1, m2, bus, slot);
    LoadOfWrap(m2, bus, an as int - 12 * Count(list, 8), 12 * Count(Mirror(list), 7 - r));
  }

  // ---- the handlers --------------------------------------------------------------------------

  lemma SavedStep(bus: Ram.Bus, list: seq<bool>, an: u32, fp: seq<Extended>, m: Ram.Memory, i: nat)
    requires |list| == |fp| == 8 && i < 8 && list[i] && Saved(m, bus, list, an, fp, i)
    ensures Saved(Store(m, bus, SlotBelow(list, an, i), fp[i]), bus, list, an, fp, i + 1)
  {
    hide Load, Store, Ram.Cells, Ram.Same, Ram.SameElsewhere;
    var p := SlotBelow(list, an, i);
    var m' := Store(m, bus, p, fp[i]);
    forall k | 0 <= k < i + 1 && list[k] ensures Load(m', bus, SlotBelow(list, an, k)) == fp[k] {
      if k == i {
        LoadStored(m, bus, p, fp[i]);
      } else {
        var q := SlotBelow(list, an, k);
        CountGrows(list, k + 1, i);
        CountGrows(list, 0, i + 1);
        var cells := Ram.Cells(bus, q, 12);
        Ram.RangesApart(bus, p, 12, q, 12);
        StoredElsewhere(m, bus, p, fp[i]);
        ElsewhereSame(cells, Ram.Cells(bus, p, 12), m, m');
        LoadKept(cells, m, m', bus, q);
      }
    }
  }

  lemma ElsewhereSame(live: set<int>, area: set<int>, m: Ram.Memory, m': Ram.Memory)
    requires Ram.SameElsewhere(area, m, m') && live !! area
    ensures Ram.Same(live, m, m')
  {
  }

  ghost predicate Only(bus: Ram.Bus, m: Ram.Memory, m': Ram.Memory, an: int, n: nat) {
    Ram.SameElsewhere(Ram.Cells(bus, an - n, n), m, m')
  }

  lemma OnlyMore(bus: Ram.Bus, m: Ram.Memory, m': Ram.Memory, an: int, n: nat, v: Extended)
    requires Only(bus, m, m', an, n)
    ensures Only(bus, m, Store(m', bus, an - n - 12, v), an, n + 12)
  {
    hide Ram.Cells, Ram.SameElsewhere, Store;
    var written, area := Ram.Cells(bus, an - n - 12, 12), Ram.Cells(bus, an - n, n);
    Ram.SubCells(bus, an - (n + 12), n + 12, an - n, n);
    Ram.SubCells(bus, an - (n + 12), n + 12, an - n - 12, 12);
    StoredElsewhere(m', bus, an - n - 12, v);
    Ram.ElsewhereTrans(area, written, m, m', Store(m', bus, an - n - 12, v));
    Ram.ElsewhereWider(area + written, Ram.Cells(bus, an - (n + 12), n + 12), m, Store(m', bus, an - n - 12, v));
  }

  lemma StoreStart(bus: Ram.Bus, list: seq<bool>, an: u32, fp: seq<Extended>, m: Ram.Memory)
    requires |list| == |fp| == 8
    ensures Count(list, 0) == 0 && Minus(an, 0) == an && Saved(m, bus, list, an, fp, 0) && Only(bus, m, m, an, 0)
  {
  }

  lemma SavedSkip(bus: Ram.Bus, list: seq<bool>, an: u32, fp: seq<Extended>, m: Ram.Memory, i: nat)
    requires |list| == |fp| == 8 && i < 8 && !list[i] && Saved(m, bus, list, an, fp, i)
    ensures Saved(m, bus, list, an, fp, i + 1)
  {
  }

  lemma Lower(an: u32, n: int, k: int)
    ensures Minus(Minus(an, n), k) == Minus(an, n + k) && Plus(Plus(an, n), k) == Plus(an, n + k)
  {
    WrapAgain(an as int - n, k);
    WrapAgain(an as int + n, k);
  }

  class File {
    const bus: Ram.Bus
    const fp: array<Extended>
    const a: array<u32>
    var memory: Ram.Memory

    predicate Valid() {
      fp.Length == 8 && a.Length == 8
    }

    /** FMOVEM.X list,-(An), static list. */
    method StoreDown(list: seq<bool>, reg: nat)
      requires Valid() && |list| == 8 && reg < 8
      modifies this`memory, a
      ensures Pushed(bus, list, fp[..], old(a[reg]), old(memory), a[reg], memory)
      ensures a[..] == old(a[..])[reg := a[reg]]
    {
      hide Saved, Only, Count, Store, Wrap;
      ghost var an, m0 := a[reg], memory;
      StoreStart(bus, list, an, fp[..], memory);
      for i := 0 to 8
        invariant a[..] == old(a[..])[reg := Minus(an, 12 * Count(list, i))]
        invariant Saved(memory, bus, list, an, fp[..], i)
        invariant Only(bus, m0, memory, an, 12 * Count(list, i))
      {
        CountStep(list, i);
        if list[i] {
          Lower(an, 12 * Count(list, i), 12);
          SavedStep(bus, list, an, fp[..], memory, i);
          OnlyMore(bus, m0, memory, an, 12 * Count(list, i), fp[i]);
          StoreOfWrap(memory, bus, an as int - 12 * Count(list, i) - 12, fp[i]);
          a[reg] := Minus(a[reg], 12);
          memory := Store(memory, bus, a[reg], fp[i]);
        } else {
          SavedSkip(bus, list, an, fp[..], memory, i);
        }
      }
      OnlyIs(bus, list, m0, memory, an);
    }

    /** FMOVEM.X (An)+,list, static list. */
    method LoadUp(list: seq<bool>, reg: nat)
      requires Valid() && |list| == 8 && reg < 8
      modifies fp, a
      ensures Pulled(bus, list, memory, old(fp[..]), old(a[reg]), fp[..], a[reg])
      ensures a[..] == old(a[..])[reg := a[reg]]
    {
      hide Load, Count, Wrap;
      ghost var an := a[reg];
      CountZero(list);
      Zero(an);
      for i := 0 to 8
        invariant a[..] == old(a[..])[reg := Plus(an, 12 * Count(list, i))]
        invariant forall r :: 0 <= r < 8 ==>
          fp[r] == if 7 - r < i && list[7 - r] then Load(memory, bus, an as int + 12 * Count(list, 7 - r))
                   else old(fp[r])
      {
        CountStep(list, i);
        if list[i] {
          Lower(an, 12 * Count(list, i), 12);
          LoadOfWrap(memory, bus, an as int + 12 * Count(list, i), 0);
          var ea := a[reg];
          a[reg] := Plus(a[reg], 12);
          fp[7 - i] := Load(memory, bus, ea);
        }
      }
    }
  }

  lemma OnlyIs(bus: Ram.Bus, list: seq<bool>, m: Ram.Memory, m': Ram.Memory, an: u32)
    requires |list| == 8 && Only(bus, m, m', an, 12 * Count(list, 8))
    ensures Ram.SameElsewhere(SaveArea(bus, list, an), m, m')
  {
  }
}
