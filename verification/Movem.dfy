/** MOVEM.L to a predecremented and from a postincremented address register. */
module RegisterLists {
  import opened Words

  /** Bit `i` of a list is set when step `i` of the loop moves a register. */
  function Count(list: seq<bool>, i: nat): (n: nat)
    requires i <= |list|
    ensures n <= i
  {
    if i == 0 then 0 else Count(list, i - 1) + if list[i - 1] then 1 else 0
  }

  function Mirror(list: seq<bool>): (r: seq<bool>)
    ensures |r| == |list| && forall i :: 0 <= i < |list| ==> r[i] == list[|list| - 1 - i]
    decreases |list|
  {
    if list == [] then [] else [list[|list| - 1]] + Mirror(list[..|list| - 1])
  }

  lemma {:induction false} CountGrows(list: seq<bool>, i: nat, j: nat)
    requires i <= j <= |list|
    ensures Count(list, i) <= Count(list, j) <= Count(list, i) + (j - i)
  {
    if i < j {
      CountGrows(list, i, j - 1);
    }
  }

  lemma CountStep(list: seq<bool>, i: nat)
    requires i < |list|
    ensures Count(list, i + 1) == Count(list, i) + if list[i] then 1 else 0
  {
  }

  lemma CountZero(list: seq<bool>)
    ensures Count(list, 0) == 0
  {
  }

  lemma BackUp(an: u32, n: int)
    ensures Plus(Minus(an, n), n) == an
  {
    WrapAgain(an as int - n, n);
  }

  lemma Zero(an: u32)
    ensures Plus(an, 0) == an && Minus(an, 0) == an
  {
  }

  /** Steps before the `i`th of the mirrored list are the last ones of the list. */
  lemma {:induction false} MirrorCount(list: seq<bool>, i: nat)
    requires i <= |list|
    ensures Count(Mirror(list), i) == Count(list, |list|) - Count(list, |list| - i)
  {
    hide Mirror;
    if i > 0 {
      MirrorCount(list, i - 1);
    }
  }
}

module Movem {
  import opened Words
  import opened RegisterLists
  import Ram

  /** Where step `k` of a predecrement store puts its register. */
  function SlotBelow(list: seq<bool>, an: int, k: nat): int
    requires k < |list|
  {
    an - 4 * Count(list, k + 1)
  }

  /** The first `i` steps of a predecrement store are in memory. */
  ghost predicate Saved(m: Ram.Memory, bus: Ram.Bus, list: seq<bool>, an: u32, da: seq<u32>, i: nat)
    requires |list| == |da| == 16 && i <= 16
  {
    forall k :: 0 <= k < i && list[k] ==> Ram.Read32(m, bus, SlotBelow(list, an, k)) == da[15 - k]
  }

  /** MOVEM.L list,-(An): every listed register (bit `k` lists register 15-k) is stored, An's old value
      included, and An points at the lowest one. */
  ghost predicate Pushed(bus: Ram.Bus, list: seq<bool>, y: nat, da: seq<u32>, m: Ram.Memory, da': seq<u32>,
          m': Ram.Memory)
  {
    && |list| == |da| == 16 && y < 8
    && Saved(m', bus, list, da[8 + y], da, 16)
    && da' == da[8 + y := Minus(da[8 + y], 4 * Count(list, 16))]
    && Ram.SameElsewhere(SaveArea(bus, list, da[8 + y]), m, m')
  }

  /** The cells the store writes. */
  function SaveArea(bus: Ram.Bus, list: seq<bool>, an: u32): set<int>
    requires |list| == 16
  {
    Ram.Cells(bus, an as int - 4 * Count(list, 16), 4 * Count(list, 16))
  }

  /** MOVEM.L (An)+,list: every listed register (bit `k` lists register k) is loaded from the next
      longword, and An ends past the last one even when it is listed. */
  ghost predicate Pulled(bus: Ram.Bus, list: seq<bool>, y: nat, m: Ram.Memory, da: seq<u32>, da': seq<u32>) {
    && |list| == |da| == |da'| == 16 && y < 8
    && forall r :: 0 <= r < 16 ==>
         da'[r] == if r == 8 + y then Plus(da[r], 4 * Count(list, 16))
                   else if list[r] then Ram.Read32(m, bus, da[8 + y] as int + 4 * Count(list, r))
                   else da[r]
  }

  /** A postincrement load undoes a predecrement store, whatever happened to the registers in between, if
      An and the saved longwords are as the store left them: every listed register and An are restored,
      An even when it is in the list, and the others are not touched. */
  lemma LoadUndoesStore(bus: Ram.Bus, list: seq<bool>, y: nat, da0: seq<u32>, m0: Ram.Memory, da1: seq<u32>,
          m1: Ram.Memory, da2: seq<u32>, m2: Ram.Memory, da3: seq<u32>)
    requires Pushed(bus, list, y, da0, m0, da1, m1) && Pulled(bus, Mirror(list), y, m2, da2, da3)
    requires da2[8 + y] == da1[8 + y] && Ram.Same(SaveArea(bus, list, da0[8 + y]), m1, m2)
    ensures da3[8 + y] == da0[8 + y]
    ensures forall r :: 0 <= r < 16 && r != 8 + y ==> da3[r] == if list[15 - r] then da0[r] else da2[r]
  {
    hide Ram.Read32, Ram.Same, Ram.Cells, Mirror, Saved, Count, SaveArea, Plus, Minus;
    MirrorCount(list, 16);
    CountZero(list);
    BackUp(da0[8 + y], 4 * Count(list, 16));
    forall r | 0 <= r < 16 && r != 8 + y
      ensures da3[r] == if list[15 - r] then da0[r] else da2[r]
    {
      if list[15 - r] {
        FindsSaved(bus, list, y, da0, m1, m2, r);
      }
    }
  }

  /** The load reads register `r` from where the store put it. */
  lemma FindsSaved(bus: Ram.Bus, list: seq<bool>, y: nat, da: seq<u32>, m1: Ram.Memory, m2: Ram.Memory, r: nat)
    requires |list| == |da| == 16 && y < 8 && r < 16 && list[15 - r]
    requires Saved(m1, bus, list, da[8 + y], da, 16) && Ram.Same(SaveArea(bus, list, da[8 + y]), m1, m2)
    ensures Ram.Read32(m2, bus, Minus(da[8 + y], 4 * Count(list, 16)) as int + 4 * Count(Mirror(list), r)) == da[r]
  {
    hide Ram.Read32, Ram.Same, Ram.Cells, Mirror, Saved, Count, SaveArea, Wrap, SlotBelow;
    var an: int, n, before := da[8 + y], 4 * Count(list, 16), 4 * Count(Mirror(list), r);
    SlotOf(list, an, r);
    assert an - n + before == SlotBelow(list, an, 15 - r);
    Ram.ReadOfWrap(m2, bus, an - n, before);
    ReadsSaved(bus, list, y, da, m1, m2, 15 - r);
  }

  /** The listed registers lie in memory in ascending order, D0 to A7, from the new An up: each above all
      listed ones that come before it. */
  lemma Ascending(bus: Ram.Bus, list: seq<bool>, y: nat, da0: seq<u32>, m0: Ram.Memory, da1: seq<u32>, m1: Ram.Memory,
          r: nat)
    requires Pushed(bus, list, y, da0, m0, da1, m1) && r < 16 && list[15 - r]
    ensures Ram.Read32(m1, bus, da1[8 + y] as int + 4 * Count(Mirror(list), r)) == da0[r]
  {
    hide Ram.Read32, Ram.Same, Mirror, Saved, Count, SaveArea, Minus, Ram.SameElsewhere;
    SameSelf(SaveArea(bus, list, da0[8 + y]), m1);
    FindsSaved(bus, list, y, da0, m1, m1, r);
  }

  lemma SameSelf(live: set<int>, m: Ram.Memory)
    ensures Ram.Same(live, m, m)
  {
  }

  lemma SlotOf(list: seq<bool>, an: int, r: nat)
    requires |list| == 16 && r < 16
    ensures SlotBelow(list, an, 15 - r) == an - 4 * Count(list, 16) + 4 * Count(Mirror(list), r)
  {
    hide Count, Mirror;
    MirrorCount(list, r);
  }

  lemma ReadsSaved(bus: Ram.Bus, list: seq<bool>, y: nat, da: seq<u32>, m1: Ram.Memory, m2: Ram.Memory, k: nat)
    requires |list| == |da| == 16 && y < 8 && k < 16 && list[k]
    requires Saved(m1, bus, list, da[8 + y], da, 16) && Ram.Same(SaveArea(bus, list, da[8 + y]), m1, m2)
    ensures Ram.Read32(m2, bus, SlotBelow(list, da[8 + y], k)) == da[15 - k]
  {
    hide Ram.Read32, Ram.Same, Ram.Cells;
    var an: int := da[8 + y];
    CountGrows(list, k + 1, 16);
    Ram.SubCells(bus, an - 4 * Count(list, 16), 4 * Count(list, 16), SlotBelow(list, an, k), 4);
    Ram.SameRead32(SaveArea(bus, list, da[8 + y]), m1, m2, bus, SlotBelow(list, an, k));
  }

  // ---- the handlers --------------------------------------------------------------------------

  /** One step of the store: the register goes just below what is saved. */
  lemma SavedStep(bus: Ram.Bus, list: seq<bool>, an: u32, da: seq<u32>, m: Ram.Memory, i: nat)
    requires |list| == |da| == 16 && i < 16 && list[i] && Saved(m, bus, list, an, da, i)
    ensures Saved(Ram.Write32(m, bus, SlotBelow(list, an, i), da[15 - i]), bus, list, an, da, i + 1)
  {
    hide Ram.Read32, Ram.Write32, Ram.Cells, Ram.Same;
    var p := SlotBelow(list, an, i);
    var m' := Ram.Write32(m, bus, p, da[15 - i]);
    forall k | 0 <= k < i + 1 && list[k] ensures Ram.Read32(m', bus, SlotBelow(list, an, k)) == da[15 - k] {
      if k == i {
        Ram.ReadWrite32(m, bus, p, da[15 - i]);
      } else {
        var q := SlotBelow(list, an, k);
        CountGrows(list, k + 1, i);
        CountGrows(list, 0, i + 1);
        var cells := Ram.Cells(bus, q, 4);
        Ram.RangesApart(bus, p, 4, q, 4);
        Ram.WriteKeeps32(m, bus, p, da[15 - i], cells);
        Ram.SameRead32(cells, m, m', bus, q);
      }
    }
  }

  /** What the steps so far wrote lies in the area they reached. */
  ghost predicate Only(bus: Ram.Bus, m: Ram.Memory, m': Ram.Memory, an: int, n: nat) {
    Ram.SameElsewhere(Ram.Cells(bus, an - n, n), m, m')
  }

  lemma OnlyMore(bus: Ram.Bus, m: Ram.Memory, m': Ram.Memory, an: int, n: nat, w: u32)
    requires Only(bus, m, m', an, n)
    ensures Only(bus, m, Ram.Write32(m', bus, an - n - 4, w), an, n + 4)
  {
    hide Ram.Cells, Ram.SameElsewhere, Ram.Write32;
    var written, area := Ram.Cells(bus, an - n - 4, 4), Ram.Cells(bus, an - n, n);
    Ram.SubCells(bus, an - (n + 4), n + 4, an - n, n);
    Ram.SubCells(bus, an - (n + 4), n + 4, an - n - 4, 4);
    Ram.WriteElsewhere32(m', bus, an - n - 4, w);
    Ram.ElsewhereTrans(area, written, m, m', Ram.Write32(m', bus, an - n - 4, w));
    Ram.ElsewhereWider(area + written, Ram.Cells(bus, an - (n + 4), n + 4), m, Ram.Write32(m', bus, an - n - 4, w));
  }

  /** The first `i` steps of the load are done; An itself is left open. */
  ghost predicate PulledSoFar(bus: Ram.Bus, list: seq<bool>, y: nat, m: Ram.Memory, was: seq<u32>, now: seq<u32>,
          i: nat)
    requires |list| == 16 && y < 8
  {
    && |was| == |now| == 16
    && forall r :: 0 <= r < 16 && r != 8 + y ==>
         now[r] == if r < i && list[r] then Ram.Read32(m, bus, was[8 + y] as int + 4 * Count(list, r)) else was[r]
  }

  lemma NonePulled(bus: Ram.Bus, list: seq<bool>, y: nat, m: Ram.Memory, da: seq<u32>)
    requires |list| == |da| == 16 && y < 8
    ensures PulledSoFar(bus, list, y, m, da, da, 0)
  {
  }

  lemma PulledNext(bus: Ram.Bus, list: seq<bool>, y: nat, m: Ram.Memory, was: seq<u32>, now: seq<u32>, moved: u32,
          i: nat)
    requires |list| == 16 && y < 8 && i < 16 && list[i] && PulledSoFar(bus, list, y, m, was, now, i)
    ensures PulledSoFar(bus, list, y, m, was,
                        now[8 + y := moved][i := Ram.Read32(m, bus, was[8 + y] as int + 4 * Count(list, i))], i + 1)
  {
    hide Ram.Read32, Count;
  }

  lemma PulledSkip(bus: Ram.Bus, list: seq<bool>, y: nat, m: Ram.Memory, was: seq<u32>, now: seq<u32>, i: nat)
    requires |list| == 16 && y < 8 && i < 16 && !list[i] && PulledSoFar(bus, list, y, m, was, now, i)
    ensures PulledSoFar(bus, list, y, m, was, now, i + 1)
  {
    hide Ram.Read32, Count;
  }

  lemma AllPulled(bus: Ram.Bus, list: seq<bool>, y: nat, m: Ram.Memory, was: seq<u32>, now: seq<u32>)
    requires |list| == 16 && y < 8 && PulledSoFar(bus, list, y, m, was, now, 16)
    ensures Pulled(bus, list, y, m, was, now[8 + y := Plus(was[8 + y], 4 * Count(list, 16))])
  {
    hide Ram.Read32, Count;
  }

  /** The registers D0-D7 and A0-A7 as one array, as the handlers index them. */
  class File {
    const bus: Ram.Bus
    const da: array<u32>
    var memory: Ram.Memory

    predicate Valid() {
      da.Length == 16
    }

    /** MOVEM.L list,-(An): low words first, from A7 down to D0. */
    method StoreDown(list: seq<bool>, y: nat)
      requires Valid() && |list| == 16 && y < 8
      modifies this`memory, da
      ensures Pushed(bus, list, y, old(da[..]), old(memory), da[..], memory)
    {
      hide Saved, Only, Count, Ram.Write32, Wrap;
      ghost var an, m0 := da[8 + y], memory;
      StoreStart(bus, list, an, da[..], memory);
      var i, ea := 0, da[8 + y];
      while i < 16
        invariant 0 <= i <= 16 && da[..] == old(da[..])
        invariant ea == Minus(an, 4 * Count(list, i))
        invariant Saved(memory, bus, list, an, da[..], i)
        invariant Only(bus, m0, memory, an, 4 * Count(list, i))
      {
        CountStep(list, i);
        if list[i] {
          LowerBy4(an, 4 * Count(list, i));
          ea := Minus(ea, 4);
          SavedStep(bus, list, an, da[..], memory, i);
          OnlyMore(bus, m0, memory, an, 4 * Count(list, i), da[15 - i]);
          Ram.WriteOfWrap(memory, bus, an as int - 4 * Count(list, i) - 4, da[15 - i]);
          WriteHalves(memory, bus, ea, da[15 - i]);
          memory := Ram.Write16(memory, bus, ea as int + 2, da[15 - i] % 0x1_0000);
          memory := Ram.Write16(memory, bus, ea, da[15 - i] / 0x1_0000);
        } else {
          SavedSkip(bus, list, an, da[..], memory, i);
        }
        i := i + 1;
      }
      OnlyIs(bus, list, m0, memory, an);
      da[8 + y] := ea;
    }

    /** MOVEM.L (An)+,list: from D0 up to A7, An moving along by words until its final value is set. */
    method LoadUp(list: seq<bool>, y: nat)
      requires Valid() && |list| == 16 && y < 8
      modifies da
      ensures Pulled(bus, list, y, memory, old(da[..]), da[..])
    {
      hide Ram.Read32, Count, Wrap, PulledSoFar, Plus, Pulled;
      ghost var an := da[8 + y];
      CountZero(list);
      Zero(an);
      NonePulled(bus, list, y, memory, da[..]);
      var i, ea := 0, da[8 + y];
      while i < 16
        invariant 0 <= i <= 16 && ea == Plus(an, 4 * Count(list, i))
        invariant PulledSoFar(bus, list, y, memory, old(da[..]), da[..], i)
      {
        CountStep(list, i);
        if list[i] {
          RaiseBy4(an, 4 * Count(list, i));
          ReadAtPlus(memory, bus, an, 4 * Count(list, i));
          var moved := Plus(da[8 + y], 2);
          ghost var now: seq<u32> := da[..];
          PulledNext(bus, list, y, memory, old(da[..]), now, moved, i);
          da[8 + y] := moved;
          da[i] := Ram.Read32(memory, bus, ea);
          assert da[..] == now[8 + y := moved][i := Ram.Read32(memory, bus, an as int + 4 * Count(list, i))];
          ea := Plus(ea, 4);
        } else {
          PulledSkip(bus, list, y, memory, old(da[..]), da[..], i);
        }
        i := i + 1;
      }
      AllPulled(bus, list, y, memory, old(da[..]), da[..]);
      da[8 + y] := ea;
    }
  }

  lemma ReadAtPlus(m: Ram.Memory, bus: Ram.Bus, an: u32, n: int)
    ensures Ram.Read32(m, bus, Plus(an, n)) == Ram.Read32(m, bus, an as int + n)
  {
    hide Ram.Read32;
    Ram.ReadOfWrap(m, bus, an as int + n, 0);
  }

  lemma LowerBy4(an: u32, n: int)
    ensures Minus(Minus(an, n), 4) == Minus(an, n + 4)
  {
    WrapAgain(an as int - n, 4);
  }

  lemma RaiseBy4(an: u32, n: int)
    ensures Plus(Plus(an, n), 4) == Plus(an, n + 4)
  {
    WrapAgain(an as int + n, 4);
  }

  /** Low half first or high half first makes no difference. */
  lemma WriteHalves(m: Ram.Memory, bus: Ram.Bus, ea: int, w: u32)
    ensures Ram.Write16(Ram.Write16(m, bus, ea + 2, w % 0x1_0000), bus, ea, w / 0x1_0000) == Ram.Write32(m, bus, ea, w)
  {
    hide Ram.Cell;
    Ram.CellsApart(bus, ea, ea + 2);
    Ram.CellsApart(bus, ea, ea + 3);
    Ram.CellsApart(bus, ea + 1, ea + 2);
    Ram.CellsApart(bus, ea + 1, ea + 3);
  }

  lemma StoreStart(bus: Ram.Bus, list: seq<bool>, an: u32, da: seq<u32>, m: Ram.Memory)
    requires |list| == |da| == 16
    ensures Count(list, 0) == 0 && Minus(an, 0) == an && Saved(m, bus, list, an, da, 0) && Only(bus, m, m, an, 0)
  {
  }

  lemma SavedSkip(bus: Ram.Bus, list: seq<bool>, an: u32, da: seq<u32>, m: Ram.Memory, i: nat)
    requires |list| == |da| == 16 && i < 16 && !list[i] && Saved(m, bus, list, an, da, i)
    ensures Saved(m, bus, list, an, da, i + 1)
  {
  }

  lemma OnlyIs(bus: Ram.Bus, list: seq<bool>, m: Ram.Memory, m': Ram.Memory, an: u32)
    requires |list| == 16 && Only(bus, m, m', an, 4 * Count(list, 16))
    ensures Ram.SameElsewhere(SaveArea(bus, list, an), m, m')
  {
  }
}
