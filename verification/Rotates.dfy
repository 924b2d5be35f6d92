/** Register-count rotations through X: the 64-bit and 32-bit versions against one step at a time. */
module Rotates {
  import opened Bits
  import opened Registers

  // ---- rotation through X, one bit at a time -------------------------------------------------

  /** The 33-bit word X:Dn. */
  type Extended = w: Bits | |w| == 33 witness Zeros(33)

  /** One step of ROXL. */
  function Left(w: Extended): Extended {
    w[1..] + [w[0]]
  }

  /** One step of ROXR. */
  function Right(w: Extended): Extended {
    [w[32]] + w[..32]
  }

  function LeftBy(w: Extended, count: nat): Extended
    decreases count
  {
    if count == 0 then w else LeftBy(Left(w), count - 1)
  }

  function RightBy(w: Extended, count: nat): Extended
    decreases count
  {
    if count == 0 then w else RightBy(Right(w), count - 1)
  }

  /** The word cut at bit `k` with its parts exchanged. */
  function Cut(w: Extended, k: nat): (r: Extended)
    requires k < 33
    ensures forall i :: 0 <= i < 33 ==> r[i] == if i + k < 33 then w[i + k] else w[i + k - 33]
  {
    w[k..] + w[..k]
  }

  lemma CutOfStep(w: Extended, k: nat)
    requires k < 33
    ensures Cut(Left(w), k) == Cut(w, if k == 32 then 0 else k + 1)
    ensures Cut(Right(w), k) == Cut(w, if k == 0 then 32 else k - 1)
  {
  }

  lemma NextMod(count: nat)
    requires count > 0
    ensures count % 33 == if (count - 1) % 33 == 32 then 0 else (count - 1) % 33 + 1
  {
  }

  lemma {:induction false} LeftIsCut(w: Extended, count: nat)
    ensures LeftBy(w, count) == Cut(w, count % 33)
    decreases count
  {
    hide Cut, Left;
    if count == 0 {
      NoCut(w);
    } else {
      NextMod(count);
      CutOfStep(w, (count - 1) % 33);
      LeftIsCut(Left(w), count - 1);
    }
  }

  /** Rotating right is rotating left the other way round. */
  lemma {:induction false} RightIsCut(w: Extended, count: nat)
    ensures RightBy(w, count) == Cut(w, CutAt(true, count % 33))
    decreases count
  {
    hide Cut, Right;
    if count == 0 {
      NoCut(w);
    } else {
      NextMod(count);
      CutOfStep(w, CutAt(true, (count - 1) % 33));
      RightIsCut(Right(w), count - 1);
    }
  }

  /** ROXR undoes ROXL of the same count. */
  lemma RightUndoesLeft(w: Extended, count: nat)
    ensures RightBy(LeftBy(w, count), count) == w
  {
    LeftIsCut(w, count);
    RightIsCut(LeftBy(w, count), count);
  }

  // ---- what the instructions mean ------------------------------------------------------------

  /** Register and codes after `count` steps: X and C take the bit rotated into X. */
  function Rotated(right: bool, d: Bits, ccr: Ccr, count: nat): (r: (Bits, Ccr))
    requires |d| == 32
    ensures |r.0| == 32
  {
    var w := if right then RightBy([ccr.x] + d, count) else LeftBy([ccr.x] + d, count);
    (w[1..], Ccr(w[0], w[1], AllZero(w[1..]), false, w[0]))
  }

  /** The cut that a rotation by `shift` makes. */
  function CutAt(right: bool, shift: nat): (k: nat)
    requires shift < 33
    ensures k < 33
  {
    if right && shift != 0 then 33 - shift else shift
  }

  lemma RotatedIs(right: bool, d: Bits, ccr: Ccr, count: nat)
    requires |d| == 32
    ensures var w := Cut([ccr.x] + d, CutAt(right, count % 33));
            Rotated(right, d, ccr, count) == (w[1..], Ccr(w[0], w[1], AllZero(w[1..]), false, w[0]))
  {
    hide Cut, LeftBy, RightBy, AllZero;
    LeftIsCut([ccr.x] + d, count);
    RightIsCut([ccr.x] + d, count);
  }

  /** Bit by bit: X:Dn turned by `count` places; X and C are the same, N and Z those of the register. */
  ghost predicate Turned(right: bool, d: Bits, ccr: Ccr, count: nat, d': Bits, ccr': Ccr)
    requires |d| == |d'| == 32
  {
    var w, w' := [ccr.x] + d, [ccr'.x] + d';
    && (forall i :: 0 <= i < 33 ==> w'[i] == w[if right then (i + 33 - count % 33) % 33 else (i + count) % 33])
    && ccr'.c == ccr'.x && ccr'.n == d'[0] && (ccr'.z <==> forall i :: 0 <= i < 32 ==> !d'[i]) && !ccr'.v
  }

  lemma RotatedTurns(right: bool, d: Bits, ccr: Ccr, count: nat)
    requires |d| == 32
    ensures var (d', ccr') := Rotated(right, d, ccr, count); Turned(right, d, ccr, count, d', ccr')
  {
    hide Rotated, Cut;
    RotatedIs(right, d, ccr, count);
    var (d', ccr') := Rotated(right, d, ccr, count);
    var w, w' := [ccr.x] + d, [ccr'.x] + d';
    assert w' == Cut(w, CutAt(right, count % 33));
    forall i | 0 <= i < 33
      ensures w'[i] == w[if right then (i + 33 - count % 33) % 33 else (i + count) % 33]
    {
      CutBit(right, count, i);
    }
  }

  lemma CutBit(right: bool, count: nat, i: nat)
    requires i < 33
    ensures var k := CutAt(right, count % 33);
            (if i + k < 33 then i + k else i + k - 33) == if right then (i + 33 - count % 33) % 33 else (i + count) % 33
  {
    var q, r := count / 33, count % 33;
    assert i + count == 33 * q + (i + r);
    Around(q, i + r);
  }

  lemma Around(q: int, n: int)
    ensures (33 * q + n) % 33 == n % 33
  {
  }

  // ---- with 64-bit integers ------------------------------------------------------------------

  /** ROL_33_64 and ROR_33_64 on X:Dn in the low bits of a 64-bit word. */
  function Rotate64(right: bool, a: Bits, shift: nat): (r: Bits)
    requires |a| == 64 && shift < 33
    ensures |r| == 64
  {
    if right then Or(Shr(a, shift), Shl(a, 33 - shift)) else Or(Shl(a, shift), Shr(a, 33 - shift))
  }

  lemma Rotate64Cuts(right: bool, w: Extended, shift: nat)
    requires shift < 33
    ensures Rotate64(right, Zeros(31) + w, shift)[31..] == Cut(w, CutAt(right, shift))
  {
    hide Or, Shl, Shr, Zeros;
    var a, k := Zeros(31) + w, CutAt(right, shift);
    var r := Rotate64(right, a, shift);
    forall i | 0 <= i < 33 ensures r[31 + i] == Cut(w, k)[i] {
    }
  }

  /** ROXL.L and ROXR.L by a register count, builds with 64-bit integers. */
  method Rotate64Bit(right: bool, d: array<Bits>, y: nat, ccr: Ccr, origShift: nat) returns (newCcr: Ccr)
    requires y < d.Length && |d[y]| == 32 && origShift < 64
    modifies d
    ensures (d[y], newCcr) == Rotated(right, old(d[y]), ccr, origShift)
    ensures |d[y]| == 32 && Turned(right, old(d[y]), ccr, origShift, d[y], newCcr)
    ensures d[..] == old(d[..])[y := d[y]]
  {
    hide Or, Shl, Shr, Zeros, Rotate64, Cut, AllZero, Turned;
    RotatedIs(right, d[y], ccr, origShift);
    RotatedTurns(right, d[y], ccr, origShift);
    if origShift != 0 {
      var shift := origShift % 33;
      var src := [ccr.x] + d[y];
      var res := Rotate64(right, Zeros(31) + src, shift);
      Rotate64Cuts(right, src, shift);
      newCcr := ccr.(c := res[31], x := res[31]);
      d[y] := res[32..];
      newCcr := newCcr.(n := res[32], z := AllZero(res[32..]), v := false);
      return;
    }
    NoRotation(right, d[y], ccr);
    return ccr.(c := ccr.x, n := d[y][0], z := AllZero(d[y]), v := false);
  }

  lemma NoRotation(right: bool, d: Bits, ccr: Ccr)
    requires |d| == 32
    ensures Rotated(right, d, ccr, 0) == (d, Ccr(ccr.x, d[0], AllZero(d), false, ccr.x))
  {
  }

  // ---- without -------------------------------------------------------------------------------

  /** The bit of weight 2^k. */
  function OneBit(k: nat): (w: Bits)
    requires k < 32
    ensures |w| == 32 && forall i :: 0 <= i < 32 ==> w[i] == (i == 31 - k)
  {
    Zeros(31 - k) + [true] + Zeros(k)
  }

  /** LSL_32 and LSR_32, with nothing left for counts from 32 on. */
  function Lsl32(w: Bits, k: nat): (r: Bits)
    requires |w| == 32
    ensures |r| == 32 && forall i :: 0 <= i < 32 ==> r[i] == (i + k < 32 && w[i + k])
  {
    if k < 32 then Shl(w, k) else Zeros(32)
  }

  function Lsr32(w: Bits, k: nat): (r: Bits)
    requires |w| == 32
    ensures |r| == 32 && forall i :: 0 <= i < 32 ==> r[i] == (i >= k && w[i - k])
  {
    if k < 32 then Shr(w, k) else Zeros(32)
  }

  /** ROL_33 and ROR_33 on the 32-bit word, leaving a gap for X. */
  function Spread(right: bool, src: Bits, shift: nat): (r: Bits)
    requires |src| == 32 && 1 <= shift < 33
    ensures |r| == 32
  {
    if right then Or(Lsr32(src, shift), Lsl32(src, 33 - shift)) else Or(Lsl32(src, shift), Lsr32(src, 33 - shift))
  }

  /** Where X goes. */
  function Place(right: bool, shift: nat): (r: Bits)
    requires 1 <= shift < 33
    ensures |r| == 32 && forall i :: 0 <= i < 32 ==> r[i] == (i + 1 + CutAt(right, shift) == 33)
  {
    if right then OneBit(32 - shift) else OneBit(shift - 1)
  }

  /** The word rotated without X, with X put in the place it moves to. */
  function Rotate32(right: bool, src: Bits, x: bool, shift: nat): (r: Bits)
    requires |src| == 32 && 1 <= shift < 33
    ensures |r| == 32
  {
    Or(And(Spread(right, src, shift), Not(Place(right, shift))), if x then Place(right, shift) else Zeros(32))
  }

  /** The bit that moves into X. */
  predicate NewX(right: bool, src: Bits, shift: nat)
    requires |src| == 32 && 1 <= shift < 33
  {
    !AllZero(And(src, if right then OneBit(shift - 1) else OneBit(32 - shift)))
  }

  lemma SpreadBit(right: bool, src: Bits, shift: nat, i: nat)
    requires |src| == 32 && 1 <= shift < 33 && i < 32 && i + 1 + CutAt(right, shift) != 33
    ensures var k := CutAt(right, shift);
            Spread(right, src, shift)[i] == if i + 1 + k < 33 then src[i + k] else src[i + k - 33]
  {
    hide Or, Lsl32, Lsr32;
  }

  lemma RotatedBit(right: bool, src: Bits, x: bool, shift: nat, i: nat)
    requires |src| == 32 && 1 <= shift < 33 && i < 32
    ensures Rotate32(right, src, x, shift)[i] == Cut([x] + src, CutAt(right, shift))[i + 1]
  {
    hide Or, And, Not, Zeros, Cut, Spread, Place;
    if i + 1 + CutAt(right, shift) != 33 {
      SpreadBit(right, src, shift, i);
    }
  }

  lemma NewXIs(right: bool, src: Bits, x: bool, shift: nat)
    requires |src| == 32 && 1 <= shift < 33
    ensures NewX(right, src, shift) == Cut([x] + src, CutAt(right, shift))[0]
  {
    hide And, OneBit, Cut;
    var mask := And(src, if right then OneBit(shift - 1) else OneBit(32 - shift));
    var at := if right then 32 - shift else shift - 1;
    assert mask[at] == src[at];
  }

  lemma Rotate32Cuts(right: bool, src: Bits, x: bool, shift: nat)
    requires |src| == 32 && 1 <= shift < 33
    ensures var w := Cut([x] + src, CutAt(right, shift));
            Rotate32(right, src, x, shift) == w[1..] && NewX(right, src, shift) == w[0]
  {
    hide Rotate32, NewX, Cut;
    var w, r := Cut([x] + src, CutAt(right, shift)), Rotate32(right, src, x, shift);
    forall i | 0 <= i < 32 ensures r[i] == w[i + 1] {
      RotatedBit(right, src, x, shift, i);
    }
    NewXIs(right, src, x, shift);
    assert r == w[1..];
  }

  /** ROXL.L and ROXR.L by a register count, builds without 64-bit integers. */
  method Rotate32Bit(right: bool, d: array<Bits>, y: nat, ccr: Ccr, origShift: nat) returns (newCcr: Ccr)
    requires y < d.Length && |d[y]| == 32 && origShift < 64
    modifies d
    ensures (d[y], newCcr) == Rotated(right, old(d[y]), ccr, origShift)
    ensures |d[y]| == 32 && Turned(right, old(d[y]), ccr, origShift, d[y], newCcr)
    ensures d[..] == old(d[..])[y := d[y]]
  {
    hide Or, And, Not, Zeros, Rotate32, NewX, Cut, AllZero, Turned;
    RotatedIs(right, d[y], ccr, origShift);
    RotatedTurns(right, d[y], ccr, origShift);
    var shift := origShift % 33;
    var src, res := d[y], d[y];
    newCcr := ccr;
    if shift != 0 {
      Rotate32Cuts(right, src, ccr.x, shift);
      res := Rotate32(right, src, ccr.x, shift);
      d[y] := res;
      newCcr := newCcr.(x := NewX(right, src, shift));
    } else {
      NoCut([ccr.x] + src);
    }
    newCcr := newCcr.(c := newCcr.x, n := res[0], z := AllZero(res), v := false);
  }

  lemma NoCut(w: Extended)
    ensures Cut(w, 0) == w
  {
  }
}
