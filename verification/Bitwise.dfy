/** Bitwise operations on numbers. */
module Bitwise {
  import opened Powers

  /** Bitwise and. */
  function And(a: nat, b: nat): nat
    decreases b
  {
    if b == 0 then 0 else (if b % 2 == 1 then a % 2 else 0) + 2 * And(a / 2, b / 2)
  }

  /** Bitwise or. */
  function Or(a: nat, b: nat): int {
    a + b - And(a, b)
  }

  /** The last bits, and the others. */
  lemma AndUnfold(x: nat, y: nat, a: nat, r: nat, b: nat, t: nat)
    requires x == 2 * a + r && y == 2 * b + t && r < 2 && t < 2
    ensures And(x, y) == (if t == 1 then r else 0) + 2 * And(a, b)
  {
    DivUnique(x, 2, a, r);
    DivUnique(y, 2, b, t);
  }

  /** One mask bit. */
  lemma AndBit(a: nat, r: nat, b: nat)
    requires r < 2
    ensures And(2 * a + r, 2 * b + 1) == r + 2 * And(a, b)
    ensures And(2 * a + r, 2 * b) == 2 * And(a, b)
  {
    hide And;
    AndUnfold(2 * a + r, 2 * b + 1, a, r, b, 1);
    AndUnfold(2 * a + r, 2 * b, a, r, b, 0);
  }

  /** Runs of mask bits. */
  lemma AndOnes3(a: nat, r: nat, b: nat)
    requires r < 8
    ensures And(8 * a + r, 8 * b + 7) == 8 * And(a, b) + r
  {
    hide And;
    var r2, r1, r0 := r / 4, r / 2 % 2, r % 2;
    assert r == 4 * r2 + 2 * r1 + r0;
    AndBit(a, r2, b);
    AndBit(2 * a + r2, r1, 2 * b + 1);
    AndBit(4 * a + 2 * r2 + r1, r0, 4 * b + 3);
  }

  lemma AndZeros3(a: nat, r: nat, b: nat)
    requires r < 8
    ensures And(8 * a + r, 8 * b) == 8 * And(a, b)
  {
    hide And;
    var r2, r1, r0 := r / 4, r / 2 % 2, r % 2;
    assert r == 4 * r2 + 2 * r1 + r0;
    AndBit(a, r2, b);
    AndBit(2 * a + r2, r1, 2 * b);
    AndBit(4 * a + 2 * r2 + r1, r0, 4 * b);
  }

  lemma AndZero(a: nat)
    ensures And(a, 0) == 0
  {
  }
}
