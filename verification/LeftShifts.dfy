/** Arithmetic left shifts by a register count, for bytes, words and longwords. */
module LeftShifts {
  import opened Bits
  import opened Registers

  // ---- one shift at a time -------------------------------------------------------------------

  /** An operand being shifted: the last bit out, and whether its sign has changed on the way. */
  datatype Shifting = Shifting(w: Bits, out: bool, changed: bool)

  function ShiftOnce(s: Shifting): (r: Shifting)
    requires s.w != []
    ensures |r.w| == |s.w|
  {
    var w := s.w[1..] + [false];
    Shifting(w, s.w[0], s.changed || w[0] != s.w[0])
  }

  function ShiftBy(s: Shifting, count: nat): (r: Shifting)
    requires s.w != []
    ensures |r.w| == |s.w|
    decreases count
  {
    if count == 0 then s else ShiftBy(ShiftOnce(s), count - 1)
  }

  /** The operand followed by the zeros shifted in. */
  predicate Stream(w: Bits, i: nat) {
    i < |w| && w[i]
  }

  /** The first `k` + 1 bits of that stream are not all alike. */
  predicate Mixed(w: Bits, k: nat) {
    exists j :: 0 <= j <= k && Stream(w, j) != Stream(w, 0)
  }

  /** After `count` shifts: the operand further along the stream, the bit before it, and a change of sign
      exactly when the signs passed are not all alike. */
  lemma {:induction false} AfterShifts(s: Shifting, count: nat)
    requires s.w != []
    ensures var r := ShiftBy(s, count);
            && (forall i :: 0 <= i < |s.w| ==> r.w[i] == Stream(s.w, i + count))
            && r.out == (if count == 0 then s.out else Stream(s.w, count - 1))
            && r.changed == (s.changed || Mixed(s.w, count))
    decreases count
  {
    if count > 0 {
      var t := ShiftOnce(s);
      AfterShifts(t, count - 1);
      Along(s.w, t.w);
      MixedStep(s.w, t.w, count);
      forall i | 0 <= i < |s.w| ensures ShiftBy(s, count).w[i] == Stream(s.w, i + count) {
        assert Stream(t.w, i + (count - 1)) == Stream(s.w, i + (count - 1) + 1);
      }
    } else {
      assert !Mixed(s.w, 0);
    }
  }

  lemma Along(w: Bits, t: Bits)
    requires w != [] && t == w[1..] + [false]
    ensures forall i: nat :: Stream(t, i) == Stream(w, i + 1)
  {
  }

  lemma MixedStep(w: Bits, t: Bits, count: nat)
    requires w != [] && t == w[1..] + [false] && count > 0
    ensures Mixed(w, count) <==> Stream(t, 0) != Stream(w, 0) || Mixed(t, count - 1)
  {
    Along(w, t);
    if Mixed(w, count) && Stream(t, 0) == Stream(w, 0) {
      var j :| 0 <= j <= count && Stream(w, j) != Stream(w, 0);
      assert Stream(t, j - 1) != Stream(t, 0);
    }
    if Mixed(t, count - 1) && Stream(t, 0) == Stream(w, 0) {
      var j :| 0 <= j <= count - 1 && Stream(t, j) != Stream(t, 0);
      assert Stream(w, j + 1) != Stream(w, 0);
    }
    if Stream(t, 0) != Stream(w, 0) {
      assert Stream(w, 1) != Stream(w, 0);
    }
  }

  // ---- what the instruction means ------------------------------------------------------------

  /** Register and codes after ASL of the low `size` bits: X keeps its value for a count of zero, C is the
      last bit out, V says whether the sign changed at any step. */
  function Shifted(d: Bits, size: nat, ccr: Ccr, count: nat): (Bits, Ccr)
    requires |d| == 32 && (size == 8 || size == 16 || size == 32)
  {
    var r := ShiftBy(Shifting(d[32 - size..], false, false), count);
    (d[..32 - size] + r.w, Ccr(if count == 0 then ccr.x else r.out, r.w[0], AllZero(r.w), r.changed, r.out))
  }

  // ---- the code ------------------------------------------------------------------------------

  /** The shift table of `size`: ones in the top `k` bits. */
  function TopOnes(size: nat, k: nat): (w: Bits)
    ensures |w| == size && forall i :: 0 <= i < size ==> w[i] == (i < k)
  {
    if k < size then Fill(true, k) + Zeros(size - k) else Fill(true, size)
  }

  /** The operand's top bits are neither all clear nor all set. */
  predicate Overflows(src: Bits, k: nat) {
    var top := And(src, TopOnes(|src|, k));
    !(AllZero(top) || top == TopOnes(|src|, k))
  }

  lemma OverflowsIs(src: Bits, count: nat)
    requires count < |src|
    ensures Overflows(src, count + 1) == Mixed(src, count)
  {
    hide And, TopOnes;
    var mask := TopOnes(|src|, count + 1);
    var top := And(src, mask);
    if Mixed(src, count) {
      var j :| 0 <= j <= count && Stream(src, j) != Stream(src, 0);
      assert top[j] == src[j] && top[0] == src[0] && mask[j] && mask[0];
    } else {
      forall i | 0 <= i < |src| ensures top[i] == (i <= count && src[0]) {
        if i <= count {
          assert Stream(src, i) == Stream(src, 0);
        }
      }
      if src[0] {
        assert top == mask;
      }
    }
  }

  /** Counts from the operand size on shift everything out. */
  lemma AllOut(src: Bits, count: nat)
    requires src != [] && count >= |src|
    ensures Mixed(src, count) <==> !AllZero(src)
  {
    assert !Stream(src, |src|);
    if !AllZero(src) {
      var j :| 0 <= j < |src| && src[j];
      assert Stream(src, j) != Stream(src, |src|);
    }
  }

  /** Registers and codes bit by bit: bits move `count` places up and zeros follow, the bits above the operand stay; N
      and Z are those of the result, C and X the last bit out, V is set when the bits passed are not all alike. */
  ghost predicate Moved(d: Bits, size: nat, ccr: Ccr, count: nat, d': Bits, ccr': Ccr)
    requires |d| == |d'| == 32 && 0 < size <= 32
  {
    var top := 32 - size;
    && (forall i :: 0 <= i < top ==> d'[i] == d[i])
    && (forall i :: top <= i < 32 ==> d'[i] == (i + count < 32 && d[i + count]))
    && ccr'.n == d'[top] && (ccr'.z <==> forall i :: top <= i < 32 ==> !d'[i])
    && ccr'.c == (0 < count <= size && d[top + count - 1])
    && ccr'.x == (if count == 0 then ccr.x else ccr'.c)
    && (ccr'.v <==> exists i: nat :: top <= i <= top + count && Stream(d, i) != d[top])
  }

  lemma ShiftedMoves(d: Bits, size: nat, ccr: Ccr, count: nat)
    requires |d| == 32 && (size == 8 || size == 16 || size == 32)
    ensures var (d', ccr') := Shifted(d, size, ccr, count); |d'| == 32 && Moved(d, size, ccr, count, d', ccr')
  {
    hide ShiftBy, Mixed, AllZero;
    var src := d[32 - size..];
    AfterShifts(Shifting(src, false, false), count);
    BitsMoved(d, size, count, ShiftBy(Shifting(src, false, false), count).w);
    MixedIs(d, size, count);
  }

  lemma BitsMoved(d: Bits, size: nat, count: nat, w: Bits)
    requires |d| == 32 && 0 < size <= 32 && |w| == size
    requires forall i :: 0 <= i < size ==> w[i] == Stream(d[32 - size..], i + count)
    ensures var d', top := d[..32 - size] + w, 32 - size;
            && (forall i :: 0 <= i < top ==> d'[i] == d[i])
            && (forall i :: top <= i < 32 ==> d'[i] == (i + count < 32 && d[i + count]))
            && d'[top] == w[0] && (AllZero(w) <==> forall i :: top <= i < 32 ==> !d'[i])
  {
    var d', top := d[..32 - size] + w, 32 - size;
    forall i | top <= i < 32 ensures d'[i] == (i + count < 32 && d[i + count]) {
      assert d'[i] == w[i - top];
    }
    if forall i :: top <= i < 32 ==> !d'[i] {
      forall i | 0 <= i < size ensures !w[i] {
        assert d'[top + i] == w[i];
      }
    }
  }

  lemma MixedIs(d: Bits, size: nat, count: nat)
    requires |d| == 32 && 0 < size <= 32
    ensures var top := 32 - size;
            Mixed(d[top..], count) <==> exists i: nat :: top <= i <= top + count && Stream(d, i) != d[top]
  {
    var top := 32 - size;
    var src := d[top..];
    if Mixed(src, count) {
      var j :| 0 <= j <= count && Stream(src, j) != Stream(src, 0);
      assert Stream(d, top + j) != d[top];
    }
    if i: nat :| top <= i <= top + count && Stream(d, i) != d[top] {
      assert Stream(src, i - top) != Stream(src, 0);
    }
  }

  lemma ShiftWithin(d: Bits, size: nat, ccr: Ccr, count: nat)
    requires |d| == 32 && (size == 8 || size == 16 || size == 32) && 0 < count < size
    ensures var src := d[32 - size..];
            var res := Shl(src, count);
            Shifted(d, size, ccr, count)
            == (d[..32 - size] + res,
                Ccr(src[count - 1], res[0], AllZero(res), Overflows(src, count + 1), src[count - 1]))
  {
    hide ShiftBy, Overflows, Mixed, Shl, AllZero;
    var src := d[32 - size..];
    AfterShifts(Shifting(src, false, false), count);
    OverflowsIs(src, count);
    assert ShiftBy(Shifting(src, false, false), count).w == Shl(src, count);
  }

  lemma ShiftOut(d: Bits, size: nat, ccr: Ccr, count: nat)
    requires |d| == 32 && (size == 8 || size == 16 || size == 32) && count >= size
    ensures var src := d[32 - size..];
            var last := count == size && src[size - 1];
            Shifted(d, size, ccr, count) == (d[..32 - size] + Zeros(size), Ccr(last, false, true, !AllZero(src), last))
  {
    hide ShiftBy, Mixed, Zeros;
    var src := d[32 - size..];
    AfterShifts(Shifting(src, false, false), count);
    AllOut(src, count);
    assert ShiftBy(Shifting(src, false, false), count).w == Zeros(size);
  }

  lemma NoShift(d: Bits, size: nat, ccr: Ccr)
    requires |d| == 32 && (size == 8 || size == 16 || size == 32)
    ensures var src := d[32 - size..];
            Shifted(d, size, ccr, 0) == (d, Ccr(ccr.x, src[0], AllZero(src), false, false))
  {
    assert d == d[..32 - size] + d[32 - size..];
  }

  /** ASL.B, ASL.W and ASL.L by a register count. */
  method ShiftLeft(d: array<Bits>, y: nat, size: nat, ccr: Ccr, shift: nat) returns (newCcr: Ccr)
    requires y < d.Length && |d[y]| == 32 && (size == 8 || size == 16 || size == 32) && shift < 64
    modifies d
    ensures (d[y], newCcr) == Shifted(old(d[y]), size, ccr, shift)
    ensures |d[y]| == 32 && Moved(old(d[y]), size, ccr, shift, d[y], newCcr)
    ensures d[..] == old(d[..])[y := d[y]]
  {
    hide Shifted, AllZero, Overflows, Shl, Zeros, Moved;
    ShiftedMoves(d[y], size, ccr, shift);
    var src := d[y][32 - size..];
    if shift != 0 {
      if shift < size {
        ShiftWithin(d[y], size, ccr, shift);
        var res := Shl(src, shift);
        d[y] := d[y][..32 - size] + res;
        newCcr := ccr.(x := src[shift - 1], c := src[shift - 1], n := res[0], z := AllZero(res),
            v := Overflows(src, shift + 1));
        return;
      }
      ShiftOut(d[y], size, ccr, shift);
      d[y] := d[y][..32 - size] + Zeros(size);
      var last := shift == size && src[size - 1];
      newCcr := ccr.(x := last, c := last, n := false, z := true, v := !AllZero(src));
      return;
    }
    NoShift(d[y], size, ccr);
    newCcr := ccr.(c := false, n := src[0], z := AllZero(src), v := false);
  }
}
